/**
 * BellmanFord: Compute makes one relaxation pass in ascending vertex order (not |V|-1
 * passes), and FindNegativeWeightCycle scans for an edge that could still be relaxed and,
 * from its target, walks the predecessor links until a vertex repeats, then reads the
 * cycle back from that vertex.
 */
module BellmanFords {
  import opened Wrappers
  import opened Collections
  import opened Graphs
  import opened Relaxation
  import opened ShortestPaths
  import opened NegativeCycles

  /** Why FindNegativeWeightCycle throws: a weight lookup misses, or a null predecessor is cast to int. */
  datatype CycleError = WeightNotFound | NullPredecessor

  /** Every recorded predecessor is a vertex. */
  predicate PredsInRange(st: Paths) {
    forall y :: 0 <= y < |st.pred| && st.pred[y].Some? ==> 0 <= st.pred[y].value < |st.pred|
  }

  /** Where k steps along the predecessor links from v lead; None once a null link is crossed. */
  function Follow(st: Paths, v: int, k: nat): (r: Option<int>)
    requires PredsInRange(st) && 0 <= v < |st.pred|
    ensures r.Some? ==> 0 <= r.value < |st.pred|
  {
    if k == 0 then Some(v)
    else
      match Follow(st, v, k - 1)
      case None => None
      case Some(y) => st.pred[y]
  }

  /** No edge out of u can be relaxed, and every weight lookup for them succeeds. */
  ghost predicate SettledAt(g: Graph, st: Paths, u: int)
    requires g.Valid() && st.Sized(g.n) && 0 <= u < g.n
  {
    forall v :: v in g.Adj(u) ==> CanRelax(g, u, v) && !Improves(st, g, u, v)
  }

  /** No edge of the graph can be relaxed any further. */
  ghost predicate AllSettled(g: Graph, st: Paths)
    requires g.Valid() && st.Sized(g.n)
  {
    forall u :: 0 <= u < g.n ==> SettledAt(g, st, u)
  }

  /** What FindNegativeWeightCycle promises about its result r on the arrays st. */
  ghost predicate SearchOutcome(g: Graph, st: Paths, r: Result<seq<int>, CycleError>)
    requires g.Valid() && st.Sized(g.n) && PredsInRange(st)
  {
    && (r == Success([]) <==> AllSettled(g, st))
    && (r.Success? && r.value != [] ==> IsPredCycle(g, st, r.value) && Distinct(r.value))
    && (r == Failure(WeightNotFound) ==> !RelaxSafe(g))
    && (r == Failure(NullPredecessor) ==>
          exists u, v, k: nat :: 0 <= u < g.n && v in g.Adj(u) && 0 <= v < g.n &&
            Improves(st, g, u, v) && Follow(st, v, k) == None)
  }

  class BellmanFord {
    /** The Shortest / Predecessors arrays (the private Graph property). */
    const Extension: GraphExtension

    constructor ()
      ensures fresh(Extension)
    {
      Extension := new GraphExtension();
    }

    method Compute(g: Graph, source: int)
      requires g.Valid() && RelaxSafe(g) && 0 <= source < g.n
      modifies Extension
      ensures fresh(Extension.Shortest) && fresh(Extension.Predecessors)
      ensures Extension.Current() == SinglePass(g, source)
    {
      Extension.Initialize(g.n, source);
      RelaxAllEdges(g, source);
    }

    /** foreach (var u in Vertices) foreach (var v in directedGraph[u]) Relax(directedGraph, u, v). */
    method RelaxAllEdges(g: Graph, source: int)
      requires g.Valid() && RelaxSafe(g) && 0 <= source < g.n
      requires Extension.Current() == Initial(g.n, source)
      modifies Extension.Shortest, Extension.Predecessors
      ensures Extension.Current() == SinglePass(g, source)
    {
      var vertices := g.Vertices();
      assert forall i :: 0 <= i < |vertices| ==> vertices[i] == i;
      for i := 0 to |vertices|
        invariant Extension.Current() == PassUpTo(g, Initial(g.n, source), i)
      {
        RelaxEdgesOf(g, vertices[i]);
        PassStep(g, Initial(g.n, source), i);
      }
    }

    /** foreach (var v in directedGraph[u]) Relax(directedGraph, u, v). */
    method RelaxEdgesOf(g: Graph, u: int)
      requires g.Valid() && RelaxSafe(g) && 0 <= u < g.n
      requires Extension.Current().Sized(g.n)
      modifies Extension.Shortest, Extension.Predecessors
      ensures forall i :: 0 <= i < |g.Adj(u)| ==> CanRelax(g, u, g.Adj(u)[i])
      ensures Extension.Current() == RelaxAlong(old(Extension.Current()), g, u, g.Adj(u))
    {
      var targets := g.Adj(u);
      ghost var start := Extension.Current();
      assert forall i :: 0 <= i < |targets| ==> targets[i] in g.Adj(u);
      assert targets[..0] == [];
      for j := 0 to |targets|
        invariant Extension.Current() == RelaxAlong(start, g, u, targets[..j])
      {
        RelaxNext(g, u, targets, j, start);
      }
      assert targets[..|targets|] == targets;
    }

    /** One turn of the loop over the targets of u: Relax(u, targets[j]). */
    method RelaxNext(g: Graph, u: int, targets: seq<int>, j: int, ghost start: Paths)
      requires g.Valid() && start.Sized(g.n) && 0 <= j < |targets|
      requires forall i :: 0 <= i < |targets| ==> CanRelax(g, u, targets[i])
      requires Extension.Current() == RelaxAlong(start, g, u, targets[..j])
      modifies Extension.Shortest, Extension.Predecessors
      ensures Extension.Current() == RelaxAlong(start, g, u, targets[..j + 1])
    {
      assert targets[..j + 1][..j] == targets[..j];
      Extension.Relax(g, u, targets[j]);
    }

    /**
     * Scans u ascending and v over directedGraph[u] for Shortest[u] + w(u, v) < Shortest[v];
     * returns the empty list when there is none, the predecessor cycle behind the first one otherwise.
     */
    method FindNegativeWeightCycle(g: Graph) returns (r: Result<seq<int>, CycleError>)
      requires g.Valid() && Extension.Current().Sized(g.n) && PredsInRange(Extension.Current())
      ensures SearchOutcome(g, Extension.Current(), r)
    {
      ghost var st := Extension.Current();
      var vertices := g.Vertices();
      for i := 0 to |vertices|
        invariant forall u :: 0 <= u < i ==> SettledAt(g, st, u)
      {
        var found := ScanEdgesOf(g, vertices[i]);
        if found.Some? {
          return found.value;
        }
      }
      return Success([]);
    }

    /**
     * The inner scan for u: None when every edge out of u is settled, otherwise the
     * outcome of the search at the first edge (u, v) that fails a lookup or can be relaxed.
     */
    method ScanEdgesOf(g: Graph, u: int) returns (found: Option<Result<seq<int>, CycleError>>)
      requires g.Valid() && Extension.Current().Sized(g.n) && PredsInRange(Extension.Current())
      requires 0 <= u < g.n
      ensures found.None? ==> SettledAt(g, Extension.Current(), u)
      ensures found.Some? ==> !SettledAt(g, Extension.Current(), u) && SearchOutcome(g, Extension.Current(), found.value)
    {
      ghost var st := Extension.Current();
      var targets := g.Adj(u);
      for j := 0 to |targets|
        invariant forall jj :: 0 <= jj < j ==> CanRelax(g, u, targets[jj]) && !Improves(st, g, u, targets[jj])
      {
        var v := targets[j];
        assert v in g.Adj(u);
        var w := g.Weight(u, v);
        if w.Failure? {
          assert !CanRelax(g, u, v);
          assert !SettledAt(g, st, u);
          return Some(Failure(WeightNotFound));
        }
        if Below(Plus(Extension.Shortest[u], w.value), Extension.Shortest[v]) {
          assert Improves(st, g, u, v);
          assert !SettledAt(g, st, u);
          var r := TraceCycle(g, v);
          assert r == Failure(NullPredecessor) ==>
            exists k: nat :: Follow(st, v, k) == None;
          return Some(r);
        }
      }
      forall v | v in g.Adj(u)
        ensures CanRelax(g, u, v) && !Improves(st, g, u, v)
      {
        var jj :| 0 <= jj < |targets| && targets[jj] == v;
      }
      return None;
    }

    /**
     * From v: mark and follow predecessors until a marked vertex x recurs, then collect
     * Predecessors[x], its predecessor, ... back to x, each inserted at the front.
     */
    method TraceCycle(g: Graph, v: int) returns (r: Result<seq<int>, CycleError>)
      requires g.Valid() && Extension.Current().Sized(g.n) && PredsInRange(Extension.Current())
      requires 0 <= v < g.n
      ensures r.Failure? ==> r.error == NullPredecessor && exists k: nat :: Follow(Extension.Current(), v, k) == None
      ensures r.Success? ==> r.value != [] && IsPredCycle(g, Extension.Current(), r.value) && Distinct(r.value)
    {
      ghost var st := Extension.Current();
      var visited := new bool[g.n](_ => false);
      var x := v;
      // walk holds the marked vertices in the order they were marked.
      ghost var walk: seq<int> := [];
      while !visited[x]
        invariant 0 <= x < g.n && Distinct(walk)
        invariant forall i :: 0 <= i < |walk| ==> 0 <= walk[i] < g.n
        invariant forall y :: 0 <= y < g.n ==> (visited[y] <==> y in walk)
        invariant forall i {:trigger st.pred[walk[i]]} :: 0 <= i < |walk| - 1 ==> st.pred[walk[i]] == Some(walk[i + 1])
        invariant walk != [] ==> st.pred[walk[|walk| - 1]] == Some(x)
        invariant Follow(st, v, |walk|) == Some(x)
        decreases g.n - |walk|
      {
        DistinctBounded(walk + [x], g.n);
        visited[x] := true;
        walk := walk + [x];
        if Extension.Predecessors[x].None? {
          ghost var k: nat := |walk|;
          assert Follow(Extension.Current(), v, k) == None;
          return Failure(NullPredecessor);
        }
        x := Extension.Predecessors[x].value;
      }
      var c := CollectCycle(g, walk, x);
      return Success(c);
    }

    /** The second loop: x = walk[idx] is on the cycle walk[idx..], read back to front. */
    method CollectCycle(g: Graph, ghost walk: seq<int>, x: int) returns (c: seq<int>)
      requires g.Valid() && Extension.Current().Sized(g.n) && PredsInRange(Extension.Current())
      requires Distinct(walk) && x in walk
      requires forall i :: 0 <= i < |walk| ==> 0 <= walk[i] < g.n
      requires forall i {:trigger Extension.Current().pred[walk[i]]} :: 0 <= i < |walk| - 1 ==> Extension.Current().pred[walk[i]] == Some(walk[i + 1])
      requires Extension.Current().pred[walk[|walk| - 1]] == Some(x)
      ensures c != [] && IsPredCycle(g, Extension.Current(), c) && Distinct(c)
    {
      ghost var st := Extension.Current();
      ghost var L := |walk|;
      ghost var idx :| 0 <= idx < L && walk[idx] == x;
      assert st.pred[x].Some? by {
        if idx < L - 1 {
          assert st.pred[walk[idx]] == Some(walk[idx + 1]);
        }
      }
      var vTemp := Extension.Predecessors[x].value;
      c := [x];
      ghost var m := 0;
      while vTemp != x
        invariant 0 <= m < L - idx
        invariant |c| == m + 1 && forall i :: 0 <= i < |c| ==> c[i] == walk[idx + m - i]
        invariant vTemp == if idx + m + 1 < L then walk[idx + m + 1] else x
        decreases L - idx - m
      {
        assert idx + m + 1 < L;
        assert st.pred[vTemp].Some? by {
          if idx + m + 1 < L - 1 {
            assert st.pred[walk[idx + m + 1]] == Some(walk[idx + m + 2]);
          }
        }
        c := [vTemp] + c;
        m := m + 1;
        vTemp := Extension.Predecessors[vTemp].value;
      }
      assert idx + m + 1 == L;
      ReversedCycle(g, st, walk, idx, c);
    }
  }

  /**
   * Reading the marked walk back from its last vertex to walk[idx], whose predecessor the
   * last vertex is, gives distinct vertices round a cycle of predecessor links.
   */
  lemma ReversedCycle(g: Graph, st: Paths, walk: seq<int>, idx: int, c: seq<int>)
    requires g.Valid() && st.Sized(g.n) && Distinct(walk) && 0 <= idx < |walk|
    requires forall i :: 0 <= i < |walk| ==> 0 <= walk[i] < g.n
    requires forall i {:trigger st.pred[walk[i]]} :: 0 <= i < |walk| - 1 ==> st.pred[walk[i]] == Some(walk[i + 1])
    requires st.pred[walk[|walk| - 1]] == Some(walk[idx])
    requires |c| == |walk| - idx && forall i :: 0 <= i < |c| ==> c[i] == walk[|walk| - 1 - i]
    ensures IsPredCycle(g, st, c) && Distinct(c)
  {
    ReversedLinks(g, st, walk, idx, c);
    ReversedDistinct(walk, idx, c);
  }

  /** Each vertex of the walk read back has the vertex read before it (cyclically) as its predecessor. */
  lemma ReversedLinks(g: Graph, st: Paths, walk: seq<int>, idx: int, c: seq<int>)
    requires g.Valid() && st.Sized(g.n) && 0 <= idx < |walk|
    requires forall i :: 0 <= i < |walk| ==> 0 <= walk[i] < g.n
    requires forall i {:trigger st.pred[walk[i]]} :: 0 <= i < |walk| - 1 ==> st.pred[walk[i]] == Some(walk[i + 1])
    requires st.pred[walk[|walk| - 1]] == Some(walk[idx])
    requires |c| == |walk| - idx && forall i :: 0 <= i < |c| ==> c[i] == walk[|walk| - 1 - i]
    ensures IsPredCycle(g, st, c)
  {
    var L := |walk|;
    forall i | 0 <= i < |c|
      ensures st.pred[c[i]] == Some(Prev(c, i))
    {
      if i == 0 {
        assert c[0] == walk[L - 1] && c[|c| - 1] == walk[idx];
      } else {
        assert c[i] == walk[L - 1 - i] && c[i - 1] == walk[L - i];
      }
    }
  }

  /** A distinct walk read back is distinct. */
  lemma ReversedDistinct(walk: seq<int>, idx: int, c: seq<int>)
    requires Distinct(walk) && 0 <= idx < |walk|
    requires |c| == |walk| - idx && forall i :: 0 <= i < |c| ==> c[i] == walk[|walk| - 1 - i]
    ensures Distinct(c)
  {
    forall i, j | 0 <= i < j < |c|
      ensures c[i] != c[j]
    {
      assert c[i] == walk[|walk| - 1 - i] && c[j] == walk[|walk| - 1 - j];
    }
  }

  /** Justified arrays record only vertices as predecessors. */
  lemma JustifiedPredsInRange(g: Graph, s: int, st: Paths)
    requires g.Valid() && st.Sized(g.n) && Justified(g, s, st)
    ensures PredsInRange(st)
  {
    forall y | 0 <= y < |st.pred| && st.pred[y].Some?
      ensures 0 <= st.pred[y].value < |st.pred|
    {
      assert PredLink(g, st, st.pred[y].value, y);
    }
  }

  /** The Compute-then-search soundness: a cycle found after one pass has negative weight. */
  lemma FoundCycleIsNegative(g: Graph, s: int, r: Result<seq<int>, CycleError>)
    requires g.Valid() && RelaxSafe(g) && 0 <= s < g.n
    requires PredsInRange(SinglePass(g, s)) && SearchOutcome(g, SinglePass(g, s), r)
    requires r.Success? && r.value != []
    ensures CycleEdges(g, r.value) && CycleWeight(g, r.value) < 0
  {
    SinglePassCyclesNegative(g, s, r.value);
  }

  /** The walk 2 -> 0 -> 1 with weights 1: no cycle at all. */
  function ChainGraph(): (g: Graph)
    ensures g.Valid() && g.ListGraph? && g.n == 3
  {
    ListGraph(3, 2, [[1], [], [0]], [map[1 := Some(1)], map[], map[0 := Some(1)]])
  }

  /** The chain graph has no cycle of weighted edges. */
  lemma ChainAcyclic(c: seq<int>)
    ensures !CycleEdges(ChainGraph(), c)
  {
    var g := ChainGraph();
    if CycleEdges(g, c) {
      // Three links in a row would need a path of three edges.
      var j := Next(c, 0);
      var k := Next(c, j);
      var l := Next(c, k);
      assert false;
    }
  }

  /**
   * One pass from 2 relaxes 0 -> 1 before 0 has a distance, so afterwards (0, 1) can still
   * be relaxed while 1 has a null predecessor: FindNegativeWeightCycle throws on a graph
   * without any cycle.
   */
  lemma OnePassThrowsOnChain(r: Result<seq<int>, CycleError>)
    requires PredsInRange(SinglePass(ChainGraph(), 2)) && SearchOutcome(ChainGraph(), SinglePass(ChainGraph(), 2), r)
    ensures r == Failure(NullPredecessor)
  {
    var g := ChainGraph();
    ListRelaxSafe(g);
    var st := SinglePass(g, 2);
    ChainPass();
    assert Improves(st, g, 0, 1);
    assert 1 in g.Adj(0);
    assert !SettledAt(g, st, 0);
    match r
    case Success(c) =>
      // Success([]) would claim every edge settled, which (0, 1) is not.
      if c != [] {
        SinglePassCyclesNegative(g, 2, c);
        ChainAcyclic(c);
      }
    case Failure(e) =>
      if e == WeightNotFound {
        assert RelaxSafe(g);
      }
  }

  /** The arrays one pass leaves on the chain graph from source 2. */
  lemma ChainPass()
    ensures RelaxSafe(ChainGraph())
    ensures SinglePass(ChainGraph(), 2) == Paths([Fin(1), Inf, Fin(0)], [Some(2), None, None])
  {
    var g := ChainGraph();
    ListRelaxSafe(g);
    var st0 := Initial(3, 2);
    PassStep(g, st0, 0);
    SingleTarget(st0, g, 0, 1);
    assert PassUpTo(g, st0, 1) == st0;
    PassStep(g, st0, 1);
    assert g.Adj(1) == [];
    assert PassUpTo(g, st0, 2) == st0;
    PassStep(g, st0, 2);
    SingleTarget(st0, g, 2, 0);
    assert st0 == Paths([Inf, Inf, Fin(0)], [None, None, None]);
    assert Relaxed(st0, g, 2, 0) == Paths([Fin(1), Inf, Fin(0)], [Some(2), None, None]);
  }
}
