/**
 * DagAlgorithms: a Kahn-style TopologicalSort driven by a stack of vertices whose counted
 * in-degree has dropped to zero, and the DAG shortest path, which relaxes the edges out of
 * each vertex in that order.
 */
module Dags {
  import opened Wrappers
  import opened Collections
  import opened Graphs
  import opened Relaxation
  import opened ShortestPaths
  import opened InDegrees
  import opened DagPaths

  /** inDegree[v] is the counted in-degree of v less its predecessors already emitted in s. */
  ghost predicate Remaining(g: Graph, deg: seq<int>, s: seq<int>)
    requires g.Valid()
  {
    |deg| == g.n && forall v :: 0 <= v < g.n ==> deg[v] == Counted(g, v) - |PredsIn(g, v, s)|
  }

  /**
   * Emitted vertices follow their predecessors; waiting vertices have every predecessor
   * emitted; both had a counted in-degree equal to the true one.
   */
  ghost predicate Released(g: Graph, linear: seq<int>, next: seq<int>)
    requires g.Valid()
  {
    && Ordered(g, linear)
    && (forall y, x :: y in next && 0 <= x < g.n && g.Exists(x, y) ==> x in linear)
    && (forall y :: y in linear + next ==> Counted(g, y) == g.InDegree(y))
  }

  /** A vertex neither emitted nor waiting still has a non-zero count. */
  ghost predicate Waiting(g: Graph, deg: seq<int>, linear: seq<int>, next: seq<int>)
    requires |deg| == g.n
  {
    forall v :: 0 <= v < g.n ==> v in linear || v in next || deg[v] != 0
  }

  /** deg after counting the targets ts of u, in order: one more for each t with Exists(u, t). */
  function Bumped(g: Graph, u: int, deg: seq<int>, ts: seq<int>): (r: seq<int>)
    requires g.Valid() && 0 <= u < g.n && |deg| == g.n
    requires forall i :: 0 <= i < |ts| ==> 0 <= ts[i] < g.n
    ensures |r| == g.n
  {
    if ts == [] then deg
    else
      var d := Bumped(g, u, deg, ts[..|ts| - 1]);
      var t := ts[|ts| - 1];
      if g.Exists(u, t) then d[t := d[t] + 1] else d
  }

  /** Counting the targets ts adds, for each edge (u, v), the number of copies of v in ts. */
  lemma {:induction false} BumpedCounts(g: Graph, u: int, deg: seq<int>, ts: seq<int>, v: int)
    requires g.Valid() && 0 <= u < g.n && |deg| == g.n && 0 <= v < g.n
    requires forall i :: 0 <= i < |ts| ==> 0 <= ts[i] < g.n
    ensures Bumped(g, u, deg, ts)[v] == deg[v] + if g.Exists(u, v) then Occurrences(ts, v) else 0
    decreases |ts|
  {
    if ts != [] {
      BumpedCounts(g, u, deg, ts[..|ts| - 1], v);
    }
  }

  /** Counting the whole row u on top of the counts below u gives the counts below u + 1. */
  lemma RowCounted(g: Graph, u: int, deg: seq<int>)
    requires g.Valid() && 0 <= u < g.n && |deg| == g.n
    requires forall v :: 0 <= v < g.n ==> deg[v] == CountedBelow(g, v, u)
    ensures forall v :: 0 <= v < g.n ==> Bumped(g, u, deg, g.Adj(u))[v] == CountedBelow(g, v, u + 1)
  {
    forall v | 0 <= v < g.n
      ensures Bumped(g, u, deg, g.Adj(u))[v] == CountedBelow(g, v, u + 1)
    {
      BumpedCounts(g, u, deg, g.Adj(u), v);
    }
  }

  class DagAlgorithms {
    /** The Shortest / Predecessors arrays (the private Graph property). */
    const Extension: GraphExtension

    constructor ()
      ensures fresh(Extension)
    {
      Extension := new GraphExtension();
    }

    /**
     * The emitted vertices are distinct, each preceded by all its predecessors, and each
     * one had a counted in-degree equal to its true in-degree. On an acyclic graph whose
     * counts are all true, every vertex is emitted.
     */
    static method TopologicalSort(g: Graph) returns (linear: seq<int>)
      requires g.Valid()
      ensures Distinct(linear) && AllVertices(g, linear) && |linear| <= g.n
      ensures Ordered(g, linear)
      ensures forall i :: 0 <= i < |linear| ==> Counted(g, linear[i]) == g.InDegree(linear[i])
      ensures Acyclic(g) && (forall v :: 0 <= v < g.n ==> Counted(g, v) == g.InDegree(v)) ==>
        forall v :: 0 <= v < g.n ==> v in linear
    {
      var inDegree := new int[g.n](_ => 0);
      CountInDegrees(g, inDegree);
      var next := ZeroScan(g, inDegree);
      linear := [];
      while |next| > 0
        invariant Distinct(linear + next) && AllVertices(g, linear + next)
        invariant Remaining(g, inDegree[..], linear)
        invariant Released(g, linear, next)
        invariant Waiting(g, inDegree[..], linear, next)
        decreases g.n - |linear|
      {
        DistinctBounded(linear + next, g.n);
        linear, next := Emit(g, inDegree, linear, next);
      }
      assert linear + [] == linear;
      DistinctBounded(linear, g.n);
      AllEmitted(g, inDegree[..], linear);
    }

    /** The second loop: the stack starts with every vertex whose count is zero, in ascending order. */
    static method ZeroScan(g: Graph, inDegree: array<int>) returns (next: seq<int>)
      requires g.Valid() && inDegree.Length == g.n
      requires forall v :: 0 <= v < g.n ==> inDegree[v] == Counted(g, v)
      ensures Distinct([] + next) && AllVertices(g, [] + next)
      ensures Remaining(g, inDegree[..], [])
      ensures Released(g, [], next)
      ensures Waiting(g, inDegree[..], [], next)
    {
      next := [];
      for i := 0 to inDegree.Length
        invariant Distinct(next) && forall k :: 0 <= k < |next| ==> 0 <= next[k] < i
        invariant forall v :: 0 <= v < i ==> (v in next <==> inDegree[v] == 0)
      {
        if inDegree[i] == 0 {
          next := next + [i];
        }
      }
      assert [] + next == next;
      forall y | y in next
        ensures Counted(g, y) == g.InDegree(y) && Preds(g, y) == {}
      {
        CountedAtLeast(g, y);
        PredsSize(g, y);
      }
      forall y, x | y in next && 0 <= x < g.n && g.Exists(x, y)
        ensures x in Preds(g, y)
      {
      }
      forall v | 0 <= v < g.n
        ensures PredsIn(g, v, []) == {}
      {
      }
    }

    /** One turn of the stack loop: pop u, append it to linear, and release its successors. */
    static method Emit(g: Graph, inDegree: array<int>, linear: seq<int>, next: seq<int>)
      returns (linear': seq<int>, next': seq<int>)
      requires g.Valid() && inDegree.Length == g.n && |next| > 0
      requires Distinct(linear + next) && AllVertices(g, linear + next)
      requires Remaining(g, inDegree[..], linear)
      requires Released(g, linear, next)
      requires Waiting(g, inDegree[..], linear, next)
      modifies inDegree
      ensures linear' == linear + [next[|next| - 1]]
      ensures Distinct(linear' + next') && AllVertices(g, linear' + next')
      ensures Remaining(g, inDegree[..], linear')
      ensures Released(g, linear', next')
      ensures Waiting(g, inDegree[..], linear', next')
    {
      var u := next[|next| - 1];
      var rest := next[..|next| - 1];
      linear' := linear + [u];
      assert next == rest + [u];
      assert linear + next == linear + (rest + [u]);
      PopKeepsDistinct(linear, next);
      assert linear' + rest == (linear + [u]) + rest;
      forall i | 0 <= i < |linear' + rest|
        ensures 0 <= (linear' + rest)[i] < g.n
      {
        assert (linear' + rest)[i] in linear + next;
      }
      assert linear'[..|linear'| - 1] == linear;
      forall y, x | y in linear' + rest && 0 <= x < g.n && g.Exists(x, y)
        ensures y == u || y in linear + next
      {
      }
      next' := Release(g, inDegree, linear', rest);
    }

    /**
     * The DAG shortest path: initialise the arrays, then relax (u, v) for every vertex u of
     * the topological order and every vertex v with Exists(u, v). Whatever the graph, every
     * finite distance is the weight of a walk from the source; on an acyclic graph whose
     * counted in-degrees are true, the arrays hold shortest paths from the source.
     */
    method ShortestPath(g: Graph, source: int)
      requires g.Valid() && 0 <= source < g.n
      modifies Extension
      ensures fresh(Extension.Shortest) && fresh(Extension.Predecessors)
      ensures Extension.Current().Sized(g.n) && Justified(g, source, Extension.Current())
      ensures Acyclic(g) && (forall v :: 0 <= v < g.n ==> Counted(g, v) == g.InDegree(v)) ==>
        ShortestFrom(g, source, Extension.Current())
    {
      var linear := TopologicalSort(g);
      Extension.Initialize(g.n, source);
      for i := 0 to |linear|
        invariant fresh(Extension.Shortest) && fresh(Extension.Predecessors)
        invariant Extension.Current() == RelaxOrder(g, Initial(g.n, source), linear[..i])
      {
        assert linear[..i + 1][..i] == linear[..i];
        ghost var before := Extension.Current();
        RelaxTargets(g, linear[i]);
        ExistingAlong(before, g, linear[i], g.n);
      }
      assert linear[..|linear|] == linear;
      InitialJustified(g, source);
      RelaxOrderJustified(g, source, Initial(g.n, source), linear);
      if Acyclic(g) && (forall v :: 0 <= v < g.n ==> Counted(g, v) == g.InDegree(v)) {
        DagShortestPaths(g, source, linear);
      }
    }

    /** The inner relax loop: Relax(u, v) for each vertex v, ascending, with Exists(u, v). */
    method RelaxTargets(g: Graph, u: int)
      requires g.Valid() && 0 <= u < g.n && Extension.Current().Sized(g.n)
      modifies Extension.Shortest, Extension.Predecessors
      ensures Extension.Current() == RelaxExisting(old(Extension.Current()), g, u, g.n)
    {
      var vertices := g.Vertices();
      ghost var start := Extension.Current();
      for j := 0 to |vertices|
        invariant Extension.Current() == RelaxExisting(start, g, u, j)
      {
        RelaxIfEdge(g, u, vertices[j], start);
      }
    }

    /** One turn of the inner relax loop: Relax(u, v) when Exists(u, v). */
    method RelaxIfEdge(g: Graph, u: int, v: int, ghost start: Paths)
      requires g.Valid() && 0 <= u < g.n && 0 <= v < g.n && start.Sized(g.n)
      requires Extension.Current() == RelaxExisting(start, g, u, v)
      modifies Extension.Shortest, Extension.Predecessors
      ensures Extension.Current() == RelaxExisting(start, g, u, v + 1)
    {
      assert g.Exists(u, v) ==> CanRelax(g, u, v);
      if g.Exists(u, v) {
        Extension.Relax(g, u, v);
      }
    }

    /** The first loop: inDegree[v] += 1 for each v in dag[u] with Exists(u, v), over every u. */
    static method CountInDegrees(g: Graph, inDegree: array<int>)
      requires g.Valid() && inDegree.Length == g.n
      requires forall v :: 0 <= v < g.n ==> inDegree[v] == 0
      modifies inDegree
      ensures forall v :: 0 <= v < g.n ==> inDegree[v] == Counted(g, v)
    {
      var vertices := g.Vertices();
      assert forall i :: 0 <= i < |vertices| ==> vertices[i] == i;
      for i := 0 to |vertices|
        invariant forall v :: 0 <= v < g.n ==> inDegree[v] == CountedBelow(g, v, i)
      {
        CountRow(g, inDegree, vertices[i]);
      }
    }

    /** The inner loop of the count for row u: inDegree[v] += 1 for each v in dag[u] with Exists(u, v). */
    static method CountRow(g: Graph, inDegree: array<int>, u: int)
      requires g.Valid() && inDegree.Length == g.n && 0 <= u < g.n
      requires forall v :: 0 <= v < g.n ==> inDegree[v] == CountedBelow(g, v, u)
      modifies inDegree
      ensures forall v :: 0 <= v < g.n ==> inDegree[v] == CountedBelow(g, v, u + 1)
    {
      var targets := g.Adj(u);
      ghost var start := inDegree[..];
      RowCounted(g, u, start);
      assert targets[..0] == [];
      for j := 0 to |targets|
        invariant inDegree[..] == Bumped(g, u, start, targets[..j])
      {
        var v := targets[j];
        assert targets[..j + 1][..j] == targets[..j];
        if g.Exists(u, v) {
          inDegree[v] := inDegree[v] + 1;
        }
      }
      assert targets[..|targets|] == targets;
    }

    /**
     * The body of the stack loop after u = linear's last element is emitted: for each vertex
     * v, drop inDegree[v] when (u, v) is an edge, then push v if it is neither emitted nor
     * waiting and its count is zero.
     */
    static method Release(g: Graph, inDegree: array<int>, linear: seq<int>, next: seq<int>) returns (next': seq<int>)
      requires g.Valid() && inDegree.Length == g.n && |linear| >= 1
      requires Distinct(linear + next) && AllVertices(g, linear + next)
      requires Remaining(g, inDegree[..], linear[..|linear| - 1])
      requires Released(g, linear, next)
      requires Waiting(g, inDegree[..], linear, next)
      modifies inDegree
      ensures Distinct(linear + next') && AllVertices(g, linear + next')
      ensures Remaining(g, inDegree[..], linear)
      ensures Released(g, linear, next')
      ensures Waiting(g, inDegree[..], linear, next')
    {
      var u := linear[|linear| - 1];
      ghost var prior := linear[..|linear| - 1];
      assert prior + [u] == linear;
      forall k | 0 <= k < |prior|
        ensures prior[k] != u
      {
        assert prior[k] == (linear + next)[k] && u == (linear + next)[|linear| - 1];
      }
      assert u !in prior;
      assert 0 <= u < g.n by {
        assert u == (linear + next)[|linear| - 1];
      }
      next' := next;
      var vertices := g.Vertices();
      assert forall i :: 0 <= i < |vertices| ==> vertices[i] == i;
      for i := 0 to |vertices|
        invariant Distinct(linear + next') && AllVertices(g, linear + next')
        invariant forall x :: 0 <= x < g.n ==>
          inDegree[x] == Counted(g, x) - |PredsIn(g, x, if x < i then linear else prior)|
        invariant Released(g, linear, next')
        invariant Waiting(g, inDegree[..], linear, next')
      {
        next' := ReleaseOne(g, inDegree, linear, prior, u, next', vertices[i]);
      }
    }

    /** One turn of the release loop, for vertex v: drop its count if (u, v) is an edge, then push it if ready. */
    static method ReleaseOne(g: Graph, inDegree: array<int>, linear: seq<int>, ghost prior: seq<int>, u: int,
                             next: seq<int>, v: int) returns (next': seq<int>)
      requires g.Valid() && inDegree.Length == g.n && 0 <= v < g.n
      requires |linear| >= 1 && prior == linear[..|linear| - 1] && u == linear[|linear| - 1]
      requires prior + [u] == linear && u !in prior && 0 <= u < g.n
      requires Distinct(linear + next) && AllVertices(g, linear + next)
      requires forall x :: 0 <= x < g.n ==>
        inDegree[x] == Counted(g, x) - |PredsIn(g, x, if x < v then linear else prior)|
      requires Released(g, linear, next)
      requires Waiting(g, inDegree[..], linear, next)
      modifies inDegree
      ensures Distinct(linear + next') && AllVertices(g, linear + next')
      ensures forall x :: 0 <= x < g.n ==>
        inDegree[x] == Counted(g, x) - |PredsIn(g, x, if x < v + 1 then linear else prior)|
      ensures Released(g, linear, next')
      ensures Waiting(g, inDegree[..], linear, next')
    {
      next' := next;
      PredsInAppend(g, v, prior, u);
      if g.Exists(u, v) {
        inDegree[v] := inDegree[v] - 1;
      }
      if v !in linear && v !in next' && inDegree[v] == 0 {
        PredsInAtMost(g, v, linear);
        CountedAtLeast(g, v);
        AllPredsIn(g, v, linear);
        Push(g, linear, next', v);
        next' := next' + [v];
      }
    }

    /** Pushing a vertex with every predecessor emitted and a true count keeps the stack invariants. */
    static lemma Push(g: Graph, linear: seq<int>, next: seq<int>, v: int)
      requires g.Valid() && 0 <= v < g.n && v !in linear && v !in next
      requires Distinct(linear + next) && AllVertices(g, linear + next)
      requires Released(g, linear, next)
      requires Counted(g, v) == g.InDegree(v)
      requires forall x :: 0 <= x < g.n && g.Exists(x, v) ==> x in linear
      ensures Distinct(linear + (next + [v])) && AllVertices(g, linear + (next + [v]))
      ensures Released(g, linear, next + [v])
    {
      assert linear + (next + [v]) == (linear + next) + [v];
      assert v !in linear + next;
    }
  }

  /** Moving the top of the stack to the end of linear keeps the vertices distinct. */
  lemma PopKeepsDistinct(linear: seq<int>, next: seq<int>)
    requires |next| >= 1 && Distinct(linear + next)
    ensures Distinct((linear + [next[|next| - 1]]) + next[..|next| - 1])
    ensures forall y :: y in linear + next <==> y in (linear + [next[|next| - 1]]) + next[..|next| - 1]
  {
    var s := linear + next;
    var t := (linear + [next[|next| - 1]]) + next[..|next| - 1];
    var L := |linear|;
    assert |t| == |s|;
    // t[i] is s[Pos(i)] for an injective Pos.
    forall i | 0 <= i < |t|
      ensures t[i] == s[if i < L then i else if i == L then |s| - 1 else i - 1]
    {
    }
    forall i, j | 0 <= i < j < |t|
      ensures t[i] != t[j]
    {
      var pi := if i < L then i else if i == L then |s| - 1 else i - 1;
      var pj := if j < L then j else if j == L then |s| - 1 else j - 1;
      assert pi != pj;
    }
    forall y | y in s
      ensures y in t
    {
      var k :| 0 <= k < |s| && s[k] == y;
      if k < L {
        assert t[k] == y;
      } else if k == |s| - 1 {
        assert t[L] == y;
      } else {
        assert t[k + 1] == y;
      }
    }
  }

  /** When the stack runs dry on an acyclic graph with true counts, every vertex was emitted. */
  lemma AllEmitted(g: Graph, deg: seq<int>, linear: seq<int>)
    requires g.Valid() && Remaining(g, deg, linear) && Waiting(g, deg, linear, [])
    ensures Acyclic(g) && (forall v :: 0 <= v < g.n ==> Counted(g, v) == g.InDegree(v)) ==>
      forall v :: 0 <= v < g.n ==> v in linear
  {
    if Acyclic(g) && (forall v :: 0 <= v < g.n ==> Counted(g, v) == g.InDegree(v)) {
      forall w | 0 <= w < g.n
        ensures w in linear
      {
        if w !in linear {
          var v := UnemittedSource(g, linear, w);
          ReadySource(g, deg, linear, v);
          assert false;
        }
      }
    }
  }

  /** On an acyclic graph, if some vertex w is not emitted, some unemitted vertex has every predecessor emitted. */
  lemma UnemittedSource(g: Graph, linear: seq<int>, w: int) returns (v: int)
    requires g.Valid() && Acyclic(g) && 0 <= w < g.n && w !in linear
    ensures 0 <= v < g.n && v !in linear
    ensures forall x :: 0 <= x < g.n && g.Exists(x, v) ==> x in linear
  {
    var S := set x | 0 <= x < g.n && x !in linear;
    assert w in S;
    assert VertexSet(g, S);
    v := EntryFree(g, S);
    forall x | 0 <= x < g.n && g.Exists(x, v)
      ensures x in linear
    {
      assert x !in S;
    }
  }

  /** A vertex whose predecessors are all emitted, with a true count, has count zero. */
  lemma ReadySource(g: Graph, deg: seq<int>, linear: seq<int>, v: int)
    requires g.Valid() && Remaining(g, deg, linear) && 0 <= v < g.n
    requires Counted(g, v) == g.InDegree(v)
    requires forall x :: 0 <= x < g.n && g.Exists(x, v) ==> x in linear
    ensures deg[v] == 0
  {
    PredsAllIn(g, v, linear);
  }

}
