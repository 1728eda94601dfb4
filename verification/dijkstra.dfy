/**
 * Dijkstra.Compute. The queue holds vertex ids ordered as integers, so ExtractMin
 * yields 0, 1, ..., N-1 whatever the distances, and DecreaseKey never changes the
 * (always valid) heap: the procedure is one relaxation pass in ascending vertex order,
 * the same pass BellmanFord.Compute makes.
 */
module Dijkstras {
  import opened Wrappers
  import opened Collections
  import opened Graphs
  import opened Relaxation
  import opened ShortestPaths
  import opened PriorityQueues

  class Dijkstra {
    /** The Shortest / Predecessors arrays (the private Graph property). */
    const Extension: GraphExtension

    constructor ()
      ensures fresh(Extension)
    {
      Extension := new GraphExtension();
    }

    method Compute(g: Graph, source: int)
      requires g.Valid() && RelaxSafe(g) && 0 <= source < g.n
      modifies Extension
      ensures fresh(Extension.Shortest) && fresh(Extension.Predecessors)
      ensures Extension.Current() == SinglePass(g, source)
    {
      Extension.Initialize(g.n, source);
      var queue := new PriorityQueue();
      var vertices := g.Vertices();
      InsertAll(queue, vertices);
      assert vertices == Span(0, g.n);
      DrainQueue(g, source, queue);
    }

    /** while (queue.Count > 0): take the smallest vertex and relax the edges out of it. */
    method DrainQueue(g: Graph, source: int, queue: PriorityQueue)
      requires g.Valid() && RelaxSafe(g) && 0 <= source < g.n
      requires queue.Valid() && Draining(g, source, queue.data, Extension.Current(), 0)
      modifies Extension.Shortest, Extension.Predecessors, queue
      ensures Extension.Current() == SinglePass(g, source)
    {
      ghost var k := 0;
      while queue.Count() > 0
        invariant queue.Valid() && Draining(g, source, queue.data, Extension.Current(), k)
        decreases queue.Count()
      {
        VisitNext(g, source, queue, k);
        k := k + 1;
      }
      Drained(g, source, queue.data, Extension.Current(), k);
    }

    /** With the queue empty, every vertex has been visited: the arrays are the whole pass. */
    static lemma Drained(g: Graph, source: int, data: seq<int>, current: Paths, k: int)
      requires g.Valid() && RelaxSafe(g) && 0 <= source < g.n
      requires Draining(g, source, data, current, k) && |data| == 0
      ensures current == SinglePass(g, source)
    {
    }

    /**
     * The state of the queue loop after k rounds: the queue holds the vertices k .. N-1
     * and the arrays are the pass over the vertices below k.
     */
    static ghost predicate Draining(g: Graph, source: int, data: seq<int>, current: Paths, k: int)
      requires g.Valid() && RelaxSafe(g) && 0 <= source < g.n
    {
      && 0 <= k <= g.n && |data| == g.n - k
      && multiset(data) == multiset(Span(k, g.n))
      && current == PassUpTo(g, Initial(g.n, source), k)
    }

    /** One round of the queue loop: ExtractMin yields k, then the edges out of k are relaxed. */
    method VisitNext(g: Graph, source: int, queue: PriorityQueue, ghost k: nat)
      requires g.Valid() && RelaxSafe(g) && 0 <= source < g.n && k < g.n
      requires queue.Valid() && Draining(g, source, queue.data, Extension.Current(), k)
      modifies Extension.Shortest, Extension.Predecessors, queue
      ensures queue.Valid() && Draining(g, source, queue.data, Extension.Current(), k + 1)
    {
      ghost var before := queue.data;
      var u := queue.ExtractMin();
      QueueStep(before, queue.data, k, g.n, u);
      RelaxEdgesOf(g, u, queue);
      PassStep(g, Initial(g.n, source), k);
    }

    /** foreach (var v in Vertices) queue.Insert(v). */
    static method InsertAll(queue: PriorityQueue, vs: seq<int>)
      requires queue.Valid() && queue.data == []
      modifies queue
      ensures queue.Valid() && multiset(queue.data) == multiset(vs) && |queue.data| == |vs|
    {
      for i := 0 to |vs|
        invariant queue.Valid()
        invariant multiset(queue.data) == multiset(vs[..i]) && |queue.data| == i
      {
        queue.Insert(vs[i]);
        assert vs[..i + 1] == vs[..i] + [vs[i]];
      }
      assert vs[..|vs|] == vs;
    }

    /** The body of the queue loop for vertex u: relax (u, v) for each v of this[u], DecreaseKey(v) on a change. */
    method RelaxEdgesOf(g: Graph, u: int, queue: PriorityQueue)
      requires g.Valid() && RelaxSafe(g) && 0 <= u < g.n
      requires Extension.Current().Sized(g.n) && queue.Valid()
      modifies Extension.Shortest, Extension.Predecessors, queue
      ensures queue.Valid() && queue.data == old(queue.data)
      ensures Extension.Current() == RelaxAlong(old(Extension.Current()), g, u, g.Adj(u))
    {
      var targets := g.Adj(u);
      for j := 0 to |targets|
        invariant queue.Valid() && queue.data == old(queue.data)
        invariant forall i :: 0 <= i < j ==> CanRelax(g, u, targets[i])
        invariant Extension.Current() == RelaxAlong(old(Extension.Current()), g, u, targets[..j])
      {
        var v := targets[j];
        assert v in g.Adj(u);
        var tempShortest := Extension.Shortest[v];
        Extension.Relax(g, u, v);
        if tempShortest != Extension.Shortest[v] {
          queue.DecreaseKey(v);
        }
        assert targets[..j + 1][..j] == targets[..j];
      }
      assert targets[..|targets|] == targets;
    }
  }

  /** Extracting the least of k .. n-1 takes k and leaves k+1 .. n-1. */
  lemma QueueStep(before: seq<int>, after: seq<int>, k: int, n: int, u: int)
    requires k < n && multiset(before) == multiset(Span(k, n))
    requires u in before && forall x :: x in before ==> u <= x
    requires multiset(after) == multiset(before) - multiset{u}
    ensures u == k && multiset(after) == multiset(Span(k + 1, n))
  {
    SmallestOfSpan(before, k, n, u);
    SpanFront(k, n);
  }

  /** The least element of a sequence holding exactly k .. n-1 is k. */
  lemma SmallestOfSpan(data: seq<int>, k: int, n: int, u: int)
    requires k < n && multiset(data) == multiset(Span(k, n))
    requires u in data && forall x :: x in data ==> u <= x
    ensures u == k
  {
    SpanMembers(k, n);
    assert Span(k, n)[0] == k;
    assert k in multiset(data);
    assert k in data;
    assert u in multiset(data);
    assert u in Span(k, n);
  }

  /** Edges 1 -> 2, 2 -> 0 and 0 -> 3 of weight 1 in a four-vertex list graph. */
  function DetourGraph(): (g: Graph)
    ensures g.Valid() && g.ListGraph? && g.n == 4
  {
    ListGraph(4, 3, [[3], [2], [0], []], [map[3 := Some(1)], map[2 := Some(1)], map[0 := Some(1)], map[]])
  }

  /**
   * The documented result (shortest distances) does not follow: from source 1 the pass
   * in index order relaxes 0 -> 3 before 0 is reached, so vertex 3 stays at infinity
   * although the walk 1, 2, 0, 3 of weight 3 exists.
   */
  lemma AscendingPassMissesDetour()
    ensures RelaxSafe(DetourGraph())
    ensures SinglePass(DetourGraph(), 1).shortest[3] == Inf
    ensures Reaches(DetourGraph(), 1, 3, 3)
  {
    var g := DetourGraph();
    ListRelaxSafe(g);
    DetourWalk();
    var st0 := Initial(4, 1);
    PassStep(g, st0, 0);
    SingleTarget(PassUpTo(g, st0, 0), g, 0, 3);
    var st1 := PassUpTo(g, st0, 1);
    assert st1 == st0;
    PassStep(g, st0, 1);
    SingleTarget(st1, g, 1, 2);
    var st2 := PassUpTo(g, st0, 2);
    assert st2.shortest[3] == Inf;
    PassStep(g, st0, 2);
    SingleTarget(st2, g, 2, 0);
    var st3 := PassUpTo(g, st0, 3);
    assert st3.shortest[3] == Inf;
    PassStep(g, st0, 3);
    assert g.Adj(3) == [];
  }

  /** The walk 1, 2, 0, 3 weighs 3. */
  lemma DetourWalk()
    ensures Reaches(DetourGraph(), 1, 3, 3)
  {
    var g := DetourGraph();
    assert EdgeWeight(g, 1, 2) == Some(1) && EdgeWeight(g, 2, 0) == Some(1) && EdgeWeight(g, 0, 3) == Some(1);
    ThreeEdgeWalk(g, 1, 2, 0, 3);
  }

  /** Three edges a -> b -> c -> d of weight 1 make a walk from a to d of weight 3. */
  lemma ThreeEdgeWalk(g: Graph, a: int, b: int, c: int, d: int)
    requires g.Valid() && 0 <= a < g.n && 0 <= b < g.n && 0 <= c < g.n && 0 <= d < g.n
    requires EdgeWeight(g, a, b) == Some(1) && EdgeWeight(g, b, c) == Some(1) && EdgeWeight(g, c, d) == Some(1)
    ensures Reaches(g, a, d, 3)
  {
    ReachesSelf(g, a);
    ReachesExtend(g, a, a, 0, b, 1);
    ReachesExtend(g, a, b, 1, c, 1);
    ReachesExtend(g, a, c, 2, d, 1);
  }

  /**
   * Lists and matrix give the same pass when they weigh every pair alike and no vertex
   * has a negative self-loop: the matrix indexer only adds relaxations of pairs without
   * a weight, which do nothing, and repeats, which change nothing.
   */
  lemma RepresentationsAgree(gl: Graph, gm: Graph, s: int)
    requires gl.Valid() && gl.ListGraph? && gm.Valid() && gm.MatrixGraph? && gl.n == gm.n
    requires RelaxSafe(gm) && 0 <= s < gl.n
    requires forall u, v :: 0 <= u < gl.n && 0 <= v < gl.n ==> EdgeWeight(gl, u, v) == EdgeWeight(gm, u, v)
    requires forall u :: 0 <= u < gl.n ==> NoNegativeLoopAt(gl, u)
    ensures RelaxSafe(gl) && SinglePass(gl, s) == SinglePass(gm, s)
  {
    ListRelaxSafe(gl);
    PassesAgree(gl, gm, Initial(gl.n, s), gl.n);
  }

  lemma {:induction false} PassesAgree(gl: Graph, gm: Graph, st: Paths, k: nat)
    requires gl.Valid() && gl.ListGraph? && gm.Valid() && gm.MatrixGraph? && gl.n == gm.n
    requires RelaxSafe(gm) && st.Sized(gl.n) && k <= gl.n
    requires forall u, v :: 0 <= u < gl.n && 0 <= v < gl.n ==> EdgeWeight(gl, u, v) == EdgeWeight(gm, u, v)
    requires forall u :: 0 <= u < gl.n ==> NoNegativeLoopAt(gl, u)
    ensures RelaxSafe(gl) && PassUpTo(gl, st, k) == PassUpTo(gm, st, k)
  {
    ListRelaxSafe(gl);
    if k > 0 {
      var j := k - 1;
      PassesAgree(gl, gm, st, j);
      NextPassAgrees(gl, gm, st, j);
      assert j + 1 == k;
    }
  }

  /** When the passes agree up to vertex k, they agree up to k + 1. */
  lemma NextPassAgrees(gl: Graph, gm: Graph, st: Paths, k: nat)
    requires gl.Valid() && gl.ListGraph? && gm.Valid() && gm.MatrixGraph? && gl.n == gm.n
    requires RelaxSafe(gl) && RelaxSafe(gm) && st.Sized(gl.n) && k < gl.n
    requires forall v :: 0 <= v < gl.n ==> EdgeWeight(gl, k, v) == EdgeWeight(gm, k, v)
    requires NoNegativeLoopAt(gl, k)
    requires PassUpTo(gl, st, k) == PassUpTo(gm, st, k)
    ensures PassUpTo(gl, st, k + 1) == PassUpTo(gm, st, k + 1)
  {
    PassStep(gl, st, k);
    PassStep(gm, st, k);
    StepAgrees(gl, gm, PassUpTo(gl, st, k), k);
  }

  /** Relaxing the targets the two indexers yield for u has the same effect. */
  lemma StepAgrees(gl: Graph, gm: Graph, st: Paths, u: int)
    requires gl.Valid() && gl.ListGraph? && gm.Valid() && gm.MatrixGraph? && gl.n == gm.n
    requires RelaxSafe(gm) && st.Sized(gl.n) && 0 <= u < gl.n
    requires forall v :: 0 <= v < gl.n ==> EdgeWeight(gl, u, v) == EdgeWeight(gm, u, v)
    requires NoNegativeLoopAt(gl, u)
    ensures RelaxSafe(gl)
    ensures forall i :: 0 <= i < |gl.Adj(u)| ==> CanRelax(gl, u, gl.Adj(u)[i])
    ensures forall i :: 0 <= i < |gm.Adj(u)| ==> CanRelax(gm, u, gm.Adj(u)[i])
    ensures RelaxAlong(st, gl, u, gl.Adj(u)) == RelaxAlong(st, gm, u, gm.Adj(u))
  {
    ListRelaxSafe(gl);
    var al := gl.Adj(u);
    var am := gm.Adj(u);
    assert forall i :: 0 <= i < |al| ==> al[i] in al;
    assert forall i :: 0 <= i < |am| ==> am[i] in am;
    LoopAgrees(gl, gm, u);
    BatchRelax(st, gl, u, al);
    BatchRelax(st, gm, u, am);
    ImprovedAgree(st, gl, gm, u);
  }

  lemma LoopAgrees(gl: Graph, gm: Graph, u: int)
    requires gl.Valid() && gm.Valid() && EdgeWeight(gl, u, u) == EdgeWeight(gm, u, u)
    requires NoNegativeLoopAt(gl, u)
    ensures NoNegativeLoopAt(gm, u)
  {
  }

  /** Relaxing the edges out of u at once gives the same arrays in both representations. */
  lemma ImprovedAgree(st: Paths, gl: Graph, gm: Graph, u: int)
    requires gl.Valid() && gl.ListGraph? && gm.Valid() && gm.MatrixGraph? && gl.n == gm.n
    requires st.Sized(gl.n) && 0 <= u < gl.n
    requires forall v :: 0 <= v < gl.n ==> EdgeWeight(gl, u, v) == EdgeWeight(gm, u, v)
    ensures Improved(st, gl, u, gl.Adj(u)) == Improved(st, gm, u, gm.Adj(u))
  {
    var Tl := gl.Adj(u);
    var Tm := gm.Adj(u);
    var rl := Improved(st, gl, u, Tl);
    var rm := Improved(st, gm, u, Tm);
    forall x | 0 <= x < gl.n
      ensures rl.shortest[x] == rm.shortest[x] && rl.pred[x] == rm.pred[x]
    {
      if EdgeWeight(gl, u, x).Some? {
        assert x in Tl;
        TargetsContain(gm.cells, gm.n, gm.n, u, x);
        assert x in Tm;
      }
    }
    assert rl.shortest == rm.shortest;
    assert rl.pred == rm.pred;
  }
}
