/**
 * The graph contract shared by the graph algorithms: vertex count N, edge counter M,
 * Vertices, the indexer this[vertex], Add, Remove, Exists and Weight, for the two
 * representations (adjacency matrix and adjacency lists).
 *
 * A graph value is the state of one representation object; the classes
 * AdjacencyMatrix and AdjacencyList update that state in place, and the algorithms
 * read it through the query functions below, which dispatch on the representation.
 */
module Graphs {
  import opened Wrappers
  import opened Collections

  /** What a weight lookup throws when the pair was never given a weight. */
  datatype GraphError = KeyNotFound

  /** Per source vertex, the weight recorded for each target (null is None). */
  type WeightTable = seq<map<int, Option<int>>>

  datatype Graph =
    | MatrixGraph(n: nat, m: int, cells: seq<seq<bool>>, weights: WeightTable)
    | ListGraph(n: nat, m: int, lists: seq<seq<int>>, weights: WeightTable)
  {
    /** CheckInput: both endpoints are vertices. */
    predicate InRange(u: int, v: int) {
      0 <= u < n && 0 <= v < n
    }

    /** The shape every reachable state of a representation object has. */
    ghost predicate Valid() {
      && |weights| == n
      && (forall u, v :: 0 <= u < n && v in weights[u] ==> 0 <= v < n)
      && (MatrixGraph? ==>
            && |cells| == n
            && (forall u :: 0 <= u < n ==> |cells[u]| == n)
            && (forall u, v :: 0 <= u < n && 0 <= v < n && cells[u][v] ==> v in weights[u])
            && (forall u, v :: 0 <= u < n && v in weights[u] && weights[u][v].Some? ==> cells[u][v]))
      && (ListGraph? ==>
            && |lists| == n
            && (forall u, i :: 0 <= u < n && 0 <= i < |lists[u]| ==> lists[u][i] in weights[u])
            && (forall u, v :: 0 <= u < n && v in weights[u] && weights[u][v].Some? ==> v in lists[u]))
    }

    /** The vertices, 0 .. N-1. */
    function Vertices(): (r: seq<int>)
      ensures |r| == n && forall i :: 0 <= i < |r| ==> r[i] == i
      ensures forall v :: v in r <==> 0 <= v < n
    {
      RangeMembers(n);
      Range(n)
    }

    /**
     * The indexer this[vertex]. For lists it is the vertex's own list; the matrix
     * ignores its argument and yields the target of every set cell, row after row.
     */
    function Adj(u: int): (r: seq<int>)
      requires Valid()
      requires ListGraph? ==> 0 <= u < n
      ensures forall i :: 0 <= i < |r| ==> 0 <= r[i] < n
    {
      match this
      case MatrixGraph(_, _, cells, _) =>
        TargetsInRange(cells, n, n);
        Targets(cells, n, n)
      case ListGraph(_, _, lists, _) => lists[u]
    }

    /** Whether the edge (u, v) is present. The list version does not range-check u. */
    function Exists(u: int, v: int): bool
      requires Valid()
      requires ListGraph? ==> 0 <= u < n
    {
      match this
      case MatrixGraph(_, _, cells, _) => InRange(u, v) && cells[u][v]
      case ListGraph(_, _, lists, _) => v in lists[u]
    }

    /**
     * The weight of (u, v): null outside the vertex range; a lookup in the weight
     * dictionary otherwise, which throws when the pair was never added or removed.
     */
    function Weight(u: int, v: int): Result<Option<int>, GraphError>
      requires Valid()
    {
      if !InRange(u, v) then Success(None)
      else if v in weights[u] then Success(weights[u][v])
      else Failure(KeyNotFound)
    }

    /** The state after Add(u, v, w). */
    function Added(u: int, v: int, w: Option<int>): (r: Graph)
      requires Valid()
      ensures r.Valid() && r.n == n
      ensures r.MatrixGraph? == MatrixGraph?
    {
      if !InRange(u, v) then this
      else match this
        case MatrixGraph(n, m, cells, weights) =>
          MatrixGraph(n, m + 1, cells[u := cells[u][v := true]], weights[u := weights[u][v := w]])
        case ListGraph(n, m, lists, weights) =>
          ListGraph(n, m + 1, lists[u := lists[u] + [v]], weights[u := weights[u][v := w]])
    }

    /** The state after Remove(u, v). */
    function Removed(u: int, v: int): (r: Graph)
      requires Valid()
      ensures r.Valid() && r.n == n
      ensures r.MatrixGraph? == MatrixGraph?
    {
      if !InRange(u, v) then this
      else match this
        case MatrixGraph(n, m, cells, weights) =>
          RemovedMatrixValid(this, u, v);
          MatrixGraph(n, m - 1, cells[u := cells[u][v := false]], weights[u := weights[u][v := None]])
        case ListGraph(n, m, lists, weights) =>
          RemovedListValid(this, u, v);
          ListGraph(n, m - 1, lists[u := RemoveFirst(lists[u], v)], weights[u := weights[u][v := None]])
    }

    /** The number of vertices u with an edge (u, v). */
    function InDegree(v: int): nat
      requires Valid()
    {
      InDegreeBelow(v, n)
    }

    /** The number of vertices u < k with an edge (u, v). */
    function InDegreeBelow(v: int, k: nat): nat
      requires Valid() && k <= n
    {
      if k == 0 then 0
      else InDegreeBelow(v, k - 1) + (if Exists(k - 1, v) then 1 else 0)
    }
  }

  /** List.IndexOf: the position of the first occurrence of x. */
  function FirstIndex(s: seq<int>, x: int): (i: nat)
    requires x in s
    ensures i < |s| && s[i] == x && x !in s[..i]
  {
    if s[0] == x then 0
    else
      var i := 1 + FirstIndex(s[1..], x);
      assert s[..i] == [s[0]] + s[1..][..i - 1];
      i
  }

  /** Clearing a cell and nulling its weight keeps a matrix state valid. */
  lemma RemovedMatrixValid(g: Graph, u: int, v: int)
    requires g.Valid() && g.MatrixGraph? && g.InRange(u, v)
    ensures Graph.MatrixGraph(g.n, g.m - 1, g.cells[u := g.cells[u][v := false]], g.weights[u := g.weights[u][v := None]]).Valid()
  {
    var cells := g.cells[u := g.cells[u][v := false]];
    var weights: WeightTable := g.weights[u := g.weights[u][v := None]];
    forall x, y | 0 <= x < g.n && 0 <= y < g.n && cells[x][y]
      ensures y in weights[x]
    {
      assert g.cells[x][y];
    }
    forall x, y | 0 <= x < g.n && y in weights[x] && weights[x][y].Some?
      ensures cells[x][y]
    {
      assert y in g.weights[x] && g.weights[x][y].Some?;
    }
  }

  /** Dropping the first v from u's list and nulling its weight keeps a list state valid. */
  lemma RemovedListValid(g: Graph, u: int, v: int)
    requires g.Valid() && g.ListGraph? && g.InRange(u, v)
    ensures Graph.ListGraph(g.n, g.m - 1, g.lists[u := RemoveFirst(g.lists[u], v)], g.weights[u := g.weights[u][v := None]]).Valid()
  {
    var lists := g.lists[u := RemoveFirst(g.lists[u], v)];
    var weights: WeightTable := g.weights[u := g.weights[u][v := None]];
    forall x, i | 0 <= x < g.n && 0 <= i < |lists[x]|
      ensures lists[x][i] in weights[x]
    {
      if x == u {
        assert lists[x][i] in multiset(lists[x]);
        assert lists[x][i] in g.lists[u];
      }
    }
    forall x, y | 0 <= x < g.n && y in weights[x] && weights[x][y].Some?
      ensures y in lists[x]
    {
      assert y in g.weights[x] && g.weights[x][y].Some?;
      if x == u {
        assert y != v && y in multiset(g.lists[u]);
        assert y in multiset(lists[u]);
      }
    }
  }

  /** List.Remove: drop the first occurrence of x, if any. */
  function RemoveFirst(s: seq<int>, x: int): (r: seq<int>)
    ensures x !in s ==> r == s
    ensures x in s ==> r == s[..FirstIndex(s, x)] + s[FirstIndex(s, x) + 1..]
    ensures multiset(r) == multiset(s) - multiset{x}
  {
    if x !in s then s
    else
      var i := FirstIndex(s, x);
      assert s == s[..i] + [x] + s[i + 1..];
      s[..i] + s[i + 1..]
  }

  /** The columns below k whose cell is set in row, ascending. */
  function RowTargets(row: seq<bool>, k: nat): (r: seq<int>)
    requires k <= |row|
    ensures forall v :: v in r <==> 0 <= v < k && row[v]
    ensures forall i :: 0 <= i < |r| ==> 0 <= r[i] < k
  {
    if k == 0 then [] else RowTargets(row, k - 1) + (if row[k - 1] then [k - 1] else [])
  }

  /** The targets of rows 0 .. k-1 of an n-column matrix, row after row. */
  function Targets(cells: seq<seq<bool>>, n: nat, k: nat): seq<int>
    requires k <= |cells|
    requires forall u :: 0 <= u < |cells| ==> |cells[u]| == n
  {
    if k == 0 then [] else Targets(cells, n, k - 1) + RowTargets(cells[k - 1], n)
  }

  /** Rows 0 .. k-1 yield the targets of rows 0 .. k-2, then those of row k-1. */
  lemma TargetsSplit(cells: seq<seq<bool>>, n: nat, k: nat)
    requires 0 < k <= |cells|
    requires forall u :: 0 <= u < |cells| ==> |cells[u]| == n
    ensures Targets(cells, n, k) == Targets(cells, n, k - 1) + RowTargets(cells[k - 1], n)
  {
  }

  lemma {:induction false} TargetsInRange(cells: seq<seq<bool>>, n: nat, k: nat)
    requires k <= |cells|
    requires forall u :: 0 <= u < |cells| ==> |cells[u]| == n
    ensures forall i :: 0 <= i < |Targets(cells, n, k)| ==> 0 <= Targets(cells, n, k)[i] < n
  {
    if k > 0 {
      TargetsInRange(cells, n, k - 1);
    }
  }

  /** A set cell of rows 0 .. k-1 shows up among their targets. */
  lemma {:induction false} TargetsContain(cells: seq<seq<bool>>, n: nat, k: nat, u: int, v: int)
    requires k <= |cells|
    requires forall x :: 0 <= x < |cells| ==> |cells[x]| == n
    requires 0 <= u < k && 0 <= v < n && cells[u][v]
    ensures v in Targets(cells, n, k)
  {
    var rest := Targets(cells, n, k - 1);
    var row := RowTargets(cells[k - 1], n);
    assert Targets(cells, n, k) == rest + row;
    if u < k - 1 {
      TargetsContain(cells, n, k - 1, u, v);
      assert v in rest;
    } else {
      assert v in row;
    }
  }

  /** A freshly constructed adjacency matrix of the given size. */
  function EmptyMatrix(size: nat): Graph {
    MatrixGraph(size, 0, seq(size, _ => seq(size, _ => false)), seq(size, _ => map[]))
  }

  /** A freshly constructed adjacency-list graph of the given size. */
  function EmptyList(size: nat): Graph {
    ListGraph(size, 0, seq(size, _ => []), seq(size, _ => map[]))
  }

  /** Add sets exactly the one pair, records its weight and counts one more edge. */
  lemma AddedQueries(g: Graph, u: int, v: int, w: Option<int>)
    requires g.Valid()
    ensures !g.InRange(u, v) ==> g.Added(u, v, w) == g
    ensures g.InRange(u, v) ==>
      var h := g.Added(u, v, w);
      && h.Exists(u, v)
      && h.Weight(u, v) == Success(w)
      && h.m == g.m + 1
      && (forall a, b :: 0 <= a < g.n && (a, b) != (u, v) ==> h.Exists(a, b) == g.Exists(a, b))
      && (forall a, b :: (a, b) != (u, v) ==> h.Weight(a, b) == g.Weight(a, b))
  {
  }

  /**
   * Remove clears the pair and leaves a null weight behind; on lists it drops a single
   * copy, so the edge survives when it had been added more than once.
   */
  lemma RemovedQueries(g: Graph, u: int, v: int)
    requires g.Valid()
    ensures !g.InRange(u, v) ==> g.Removed(u, v) == g
    ensures g.InRange(u, v) ==>
      var h := g.Removed(u, v);
      && h.Weight(u, v) == Success(None)
      && h.m == g.m - 1
      && (g.MatrixGraph? ==> !h.Exists(u, v))
      && (g.ListGraph? ==> (h.Exists(u, v) <==> multiset(g.lists[u])[v] >= 2))
      && (forall a, b :: 0 <= a < g.n && (a, b) != (u, v) ==> h.Exists(a, b) == g.Exists(a, b))
      && (forall a, b :: (a, b) != (u, v) ==> h.Weight(a, b) == g.Weight(a, b))
  {
    if g.InRange(u, v) && g.ListGraph? {
      var h := g.Removed(u, v);
      assert multiset(h.lists[u]) == multiset(g.lists[u]) - multiset{v};
      assert h.Exists(u, v) <==> multiset(h.lists[u])[v] > 0;
      forall b | b != v
        ensures h.Exists(u, b) == g.Exists(u, b)
      {
        assert multiset(h.lists[u])[b] == multiset(g.lists[u])[b];
      }
    }
  }

  /** An edge added twice to an adjacency list is still present after one Remove, with a null weight. */
  lemma {:induction false} ListDuplicateSurvivesRemove(g: Graph, u: int, v: int, w1: Option<int>, w2: Option<int>)
    requires g.Valid() && g.ListGraph? && g.InRange(u, v)
    ensures
      var h := g.Added(u, v, w1).Added(u, v, w2).Removed(u, v);
      h.Exists(u, v) && h.Weight(u, v) == Success(None) && h.m == g.m + 1
  {
    var g2 := g.Added(u, v, w1).Added(u, v, w2);
    assert g2.lists[u] == g.lists[u] + [v] + [v];
    assert multiset(g2.lists[u])[v] >= 2;
    RemovedQueries(g2, u, v);
  }

  /**
   * The matrix's edge counter M counts calls, not set cells: adding a present edge or
   * removing an absent one changes M but not the edges.
   */
  lemma MatrixCounterDrifts(g: Graph, u: int, v: int, w: Option<int>)
    requires g.Valid() && g.MatrixGraph? && g.InRange(u, v)
    ensures g.Exists(u, v) ==>
      var h := g.Added(u, v, w);
      h.m == g.m + 1 && forall a, b :: h.Exists(a, b) == g.Exists(a, b)
    ensures !g.Exists(u, v) ==>
      var h := g.Removed(u, v);
      h.m == g.m - 1 && forall a, b :: h.Exists(a, b) == g.Exists(a, b)
  {
  }

  /** A new graph of either representation has no edges, M = 0, and every in-range weight lookup throws. */
  lemma EmptyGraphs(size: nat)
    ensures forall g :: g in {EmptyMatrix(size), EmptyList(size)} ==>
      && g.Valid() && g.n == size && g.m == 0
      && (forall u, v :: 0 <= u < size ==> !g.Exists(u, v))
      && (forall u, v :: g.InRange(u, v) ==> g.Weight(u, v) == Failure(KeyNotFound))
      && (forall u :: 0 <= u < size ==> g.Adj(u) == [])
  {
    EmptyMatrixGraph(size);
    EmptyListGraph(size);
  }

  /** The new matrix graph has no edges. */
  lemma EmptyMatrixGraph(size: nat)
    ensures var g := EmptyMatrix(size);
      && g.Valid() && g.n == size && g.m == 0
      && (forall u, v :: 0 <= u < size ==> !g.Exists(u, v))
      && (forall u, v :: g.InRange(u, v) ==> g.Weight(u, v) == Failure(KeyNotFound))
      && (forall u :: 0 <= u < size ==> g.Adj(u) == [])
  {
    var g := EmptyMatrix(size);
    forall k | 0 <= k <= size
      ensures Targets(g.cells, size, k) == []
    {
      EmptyTargets(g.cells, size, k);
    }
  }

  /** The new list graph has no edges. */
  lemma EmptyListGraph(size: nat)
    ensures var g := EmptyList(size);
      && g.Valid() && g.n == size && g.m == 0
      && (forall u, v :: 0 <= u < size ==> !g.Exists(u, v))
      && (forall u, v :: g.InRange(u, v) ==> g.Weight(u, v) == Failure(KeyNotFound))
      && (forall u :: 0 <= u < size ==> g.Adj(u) == [])
  {
  }

  lemma {:induction false} EmptyTargets(cells: seq<seq<bool>>, n: nat, k: nat)
    requires k <= |cells|
    requires forall u :: 0 <= u < |cells| ==> |cells[u]| == n
    requires forall u, v :: 0 <= u < |cells| && 0 <= v < n ==> !cells[u][v]
    ensures Targets(cells, n, k) == []
  {
    if k > 0 {
      var j := k - 1;
      EmptyTargets(cells, n, j);
      EmptyTargetsStep(cells, n, j);
      assert j + 1 == k;
    } else {
      assert Targets(cells, n, k) == [];
    }
  }

  /** An empty row adds no targets. */
  lemma EmptyTargetsStep(cells: seq<seq<bool>>, n: nat, j: nat)
    requires j < |cells|
    requires forall u :: 0 <= u < |cells| ==> |cells[u]| == n
    requires Targets(cells, n, j) == [] && forall v :: 0 <= v < n ==> !cells[j][v]
    ensures Targets(cells, n, j + 1) == []
  {
    NoRowTargets(cells[j], n);
    TargetsSplit(cells, n, j + 1);
  }

  lemma {:induction false} NoRowTargets(row: seq<bool>, k: nat)
    requires k <= |row|
    requires forall v :: 0 <= v < |row| ==> !row[v]
    ensures RowTargets(row, k) == []
  {
    if k > 0 {
      NoRowTargets(row, k - 1);
    }
  }

  /**
   * The matrix indexer does not depend on its argument: it yields every vertex v
   * exactly InDegree(v) times.
   */
  lemma MatrixIndexer(g: Graph, u: int, v: int)
    requires g.Valid() && g.MatrixGraph?
    ensures Occurrences(g.Adj(u), v) == g.InDegree(v)
    ensures v in g.Adj(u) <==> g.InDegree(v) > 0
  {
    TargetsCount(g, v, g.n);
  }

  lemma {:induction false} TargetsCount(g: Graph, v: int, k: nat)
    requires g.Valid() && g.MatrixGraph? && k <= g.n
    ensures Occurrences(Targets(g.cells, g.n, k), v) == g.InDegreeBelow(v, k)
  {
    if k > 0 {
      var j := k - 1;
      TargetsCount(g, v, j);
      TargetsCountStep(g.cells, g.n, v, j, g.InDegreeBelow(v, j));
      MatrixInDegreeStep(g, v, j);
      assert j + 1 == k;
    } else {
      assert Targets(g.cells, g.n, k) == [];
    }
  }

  /** On the matrix, row j adds one to the in-degree count of v exactly when cell (j, v) is set. */
  lemma MatrixInDegreeStep(g: Graph, v: int, j: nat)
    requires g.Valid() && g.MatrixGraph? && j < g.n
    ensures g.InDegreeBelow(v, j + 1) == g.InDegreeBelow(v, j) + if 0 <= v < g.n && g.cells[j][v] then 1 else 0
  {
  }

  /** Adding row j to the rows below it adds one occurrence of v exactly when cell (j, v) is set. */
  lemma TargetsCountStep(cells: seq<seq<bool>>, n: nat, v: int, j: nat, x: nat)
    requires j < |cells|
    requires forall u :: 0 <= u < |cells| ==> |cells[u]| == n
    requires Occurrences(Targets(cells, n, j), v) == x
    ensures Occurrences(Targets(cells, n, j + 1), v) == x + if 0 <= v < n && cells[j][v] then 1 else 0
  {
    var before, row := Targets(cells, n, j), RowTargets(cells[j], n);
    TargetsSplit(cells, n, j + 1);
    OccurrencesConcat(before, row, v);
    RowTargetsCount(cells[j], n, v);
  }

  lemma {:induction false} RowTargetsCount(row: seq<bool>, k: nat, v: int)
    requires k <= |row|
    ensures Occurrences(RowTargets(row, k), v) == if 0 <= v < k && row[v] then 1 else 0
  {
    if k > 0 {
      var r := RowTargets(row, k - 1);
      RowTargetsCount(row, k - 1, v);
      if row[k - 1] {
        assert RowTargets(row, k) == r + [k - 1];
        assert (r + [k - 1])[..|r|] == r;
      } else {
        assert RowTargets(row, k) == r;
      }
    }
  }
}
