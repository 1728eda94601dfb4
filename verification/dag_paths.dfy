/**
 * What relaxing the edges of a graph in a topological order achieves: on an acyclic
 * graph, visiting every vertex after all its predecessors and relaxing its outgoing
 * edges leaves the weight of a lightest walk from the source in Shortest and the
 * vertex before v on such a walk in Predecessors.
 */
module DagPaths {
  import opened Wrappers
  import opened Collections
  import opened Graphs
  import opened Relaxation
  import opened ShortestPaths

  /** Every non-empty set of vertices has a member with no edge into it from inside the set. */
  ghost predicate Acyclic(g: Graph)
    requires g.Valid()
  {
    forall S: set<int> {:trigger VertexSet(g, S)} :: VertexSet(g, S) && S != {} ==>
      exists v :: v in S && forall x :: x in S ==> !g.Exists(x, v)
  }

  /** Every member of S is a vertex. */
  predicate VertexSet(g: Graph, S: set<int>) {
    forall x :: x in S ==> 0 <= x < g.n
  }

  /** Every element of s is a vertex. */
  predicate AllVertices(g: Graph, s: seq<int>) {
    forall i :: 0 <= i < |s| ==> 0 <= s[i] < g.n
  }

  /** Every predecessor of an element of s comes before it in s. */
  ghost predicate Ordered(g: Graph, s: seq<int>)
    requires g.Valid()
  {
    forall i, x :: 0 <= i < |s| && 0 <= x < g.n && g.Exists(x, s[i]) ==> x in s[..i]
  }


  /** Every vertex of the graph occurs in s. */
  predicate Complete(g: Graph, s: seq<int>) {
    forall v :: 0 <= v < g.n ==> v in s
  }

  /** A vertex order the DAG procedures can rely on: distinct vertices, each after its predecessors, all of them. */
  ghost predicate TopologicalOrder(g: Graph, s: seq<int>)
    requires g.Valid()
  {
    Distinct(s) && AllVertices(g, s) && Ordered(g, s) && Complete(g, s)
  }

  /** An edge with a non-null weight is an edge the graph reports. */
  lemma EdgeExists(g: Graph, x: int, v: int)
    requires g.Valid() && EdgeWeight(g, x, v).Some?
    ensures 0 <= x < g.n && 0 <= v < g.n && g.Exists(x, v)
  {
  }

  /** An acyclic graph has no closed walk. */
  lemma NoClosedWalk(g: Graph, p: seq<int>)
    requires g.Valid() && Acyclic(g) && IsWalk(g, p) && |p| >= 2
    ensures p[0] != p[|p| - 1]
  {
    if p[0] == p[|p| - 1] {
      var S := set i | 0 <= i < |p| - 1 :: p[i];
      assert p[0] in S;
      var v := EntryFree(g, S);
      var i :| 0 <= i < |p| - 1 && p[i] == v;
      var j := ClosedWalkEntry(g, p, i);
      assert false;
    }
  }

  /** A non-empty vertex set of an acyclic graph has a member no member of the set points to. */
  lemma EntryFree(g: Graph, S: set<int>) returns (v: int)
    requires g.Valid() && Acyclic(g) && VertexSet(g, S) && S != {}
    ensures v in S && forall x :: x in S ==> !g.Exists(x, v)
  {
    v :| v in S && forall x :: x in S ==> !g.Exists(x, v);
  }

  /** On a closed walk every vertex is entered from the vertex before it on the walk. */
  lemma ClosedWalkEntry(g: Graph, p: seq<int>, i: int) returns (j: int)
    requires g.Valid() && IsWalk(g, p) && |p| >= 2 && p[0] == p[|p| - 1] && 0 <= i < |p| - 1
    ensures 0 <= j < |p| - 1 && 0 <= p[j] < g.n && g.Exists(p[j], p[i])
  {
    j := if i > 0 then i - 1 else |p| - 2;
    assert p[j + 1] == p[i];
    EdgeExists(g, p[j], p[j + 1]);
  }

  lemma AtMostTrans(a: Dist, b: Dist, c: Dist)
    requires AtMost(a, b) && AtMost(b, c)
    ensures AtMost(a, c)
  {
  }

  /** Every distance of a is at most the matching distance of b. */
  predicate Lower(a: Paths, b: Paths)
    requires |a.shortest| == |b.shortest|
  {
    forall x :: 0 <= x < |a.shortest| ==> AtMost(a.shortest[x], b.shortest[x])
  }

  lemma LowerTrans(a: Paths, b: Paths, c: Paths)
    requires |a.shortest| == |b.shortest| == |c.shortest|
    requires Lower(a, b) && Lower(b, c)
    ensures Lower(a, c)
  {
    forall x | 0 <= x < |a.shortest|
      ensures AtMost(a.shortest[x], c.shortest[x])
    {
      AtMostTrans(a.shortest[x], b.shortest[x], c.shortest[x]);
    }
  }

  /** Relaxing never raises a distance. */
  lemma {:induction false} RelaxAlongLowers(st: Paths, g: Graph, u: int, vs: seq<int>)
    requires g.Valid() && st.Sized(g.n)
    requires forall i :: 0 <= i < |vs| ==> CanRelax(g, u, vs[i])
    ensures Lower(RelaxAlong(st, g, u, vs), st)
    decreases |vs|
  {
    if vs != [] {
      var k := |vs| - 1;
      RelaxAlongLowers(st, g, u, vs[..k]);
      var mid := RelaxAlong(st, g, u, vs[..k]);
      LowerTrans(Relaxed(mid, g, u, vs[k]), mid, st);
    }
  }

  /** Relaxing edges into other vertices leaves x's entries alone. */
  lemma {:induction false} RelaxAlongOthers(st: Paths, g: Graph, u: int, vs: seq<int>, x: int)
    requires g.Valid() && st.Sized(g.n) && 0 <= x < g.n && x !in vs
    requires forall i :: 0 <= i < |vs| ==> CanRelax(g, u, vs[i])
    ensures RelaxAlong(st, g, u, vs).shortest[x] == st.shortest[x]
    ensures RelaxAlong(st, g, u, vs).pred[x] == st.pred[x]
    decreases |vs|
  {
    if vs != [] {
      var k := |vs| - 1;
      assert x !in vs[..k] by {
        assert forall i :: 0 <= i < k ==> vs[..k][i] == vs[i];
      }
      RelaxAlongOthers(st, g, u, vs[..k], x);
    }
  }

  /** After relaxing the edges out of u, Shortest[v] is at most Shortest[u] + w(u, v) for every target v. */
  lemma {:induction false} RelaxAlongReaches(st: Paths, g: Graph, u: int, vs: seq<int>, v: int)
    requires g.Valid() && st.Sized(g.n) && 0 <= u < g.n && u !in vs && v in vs
    requires forall i :: 0 <= i < |vs| ==> CanRelax(g, u, vs[i])
    ensures AtMost(RelaxAlong(st, g, u, vs).shortest[v], Plus(st.shortest[u], EdgeWeight(g, u, v)))
    decreases |vs|
  {
    var k := |vs| - 1;
    var front := vs[..k];
    assert vs == front + [vs[k]];
    assert u !in front;
    RelaxAlongOthers(st, g, u, front, u);
    if v in front {
      RelaxAlongReaches(st, g, u, front, v);
      RelaxAlongLowers(RelaxAlong(st, g, u, front), g, u, [vs[k]]);
      SingleTarget(RelaxAlong(st, g, u, front), g, u, vs[k]);
    }
  }

  /** One more vertex of the order relaxes the targets of that vertex. */
  lemma OrderStep(g: Graph, st: Paths, order: seq<int>)
    requires g.Valid() && st.Sized(g.n) && AllVertices(g, order) && |order| > 0
    ensures AllVertices(g, order[..|order| - 1])
    ensures RelaxOrder(g, st, order) ==
      RelaxAlong(RelaxOrder(g, st, order[..|order| - 1]), g, order[|order| - 1], ExistingTargets(g, order[|order| - 1], g.n))
  {
    PrefixVertices(g, order, |order| - 1);
  }

  /** A prefix of a sequence of vertices is one too. */
  lemma PrefixVertices(g: Graph, order: seq<int>, k: nat)
    requires AllVertices(g, order) && k <= |order|
    ensures AllVertices(g, order[..k])
  {
    forall i | 0 <= i < k
      ensures order[..k][i] == order[i]
    {
    }
  }

  /** Relaxing the targets of the order's last vertex never raises a distance. */
  lemma StepLowers(g: Graph, st: Paths, order: seq<int>)
    requires g.Valid() && st.Sized(g.n) && AllVertices(g, order) && |order| > 0
    ensures AllVertices(g, order[..|order| - 1])
    ensures Lower(RelaxOrder(g, st, order), RelaxOrder(g, st, order[..|order| - 1]))
  {
    var k := |order| - 1;
    OrderStep(g, st, order);
    RelaxAlongLowers(RelaxOrder(g, st, order[..k]), g, order[k], ExistingTargets(g, order[k], g.n));
  }

  /** Relaxing more of the order never raises a distance. */
  lemma {:induction false} RelaxOrderLowers(g: Graph, st: Paths, order: seq<int>, j: nat)
    requires g.Valid() && st.Sized(g.n) && AllVertices(g, order) && j <= |order|
    ensures AllVertices(g, order[..j])
    ensures Lower(RelaxOrder(g, st, order), RelaxOrder(g, st, order[..j]))
    decreases |order|
  {
    if j < |order| {
      var front := order[..|order| - 1];
      assert front[..j] == order[..j];
      StepLowers(g, st, order);
      RelaxOrderLowers(g, st, front, j);
      LowerTrans(RelaxOrder(g, st, order), RelaxOrder(g, st, front), RelaxOrder(g, st, order[..j]));
    } else {
      assert order[..j] == order;
    }
  }

  /** Once no later vertex of the order has an edge into x, x's distance no longer changes. */
  lemma {:induction false} RelaxOrderSettles(g: Graph, st: Paths, order: seq<int>, j: nat, x: int)
    requires g.Valid() && st.Sized(g.n) && AllVertices(g, order) && j <= |order| && 0 <= x < g.n
    requires forall i :: j <= i < |order| ==> !g.Exists(order[i], x)
    ensures RelaxOrder(g, st, order).shortest[x] == RelaxOrder(g, st, order[..j]).shortest[x]
    decreases |order|
  {
    if j < |order| {
      var front := order[..|order| - 1];
      FrontAvoids(g, order, front, j, x);
      RelaxOrderSettles(g, st, front, j, x);
      LastAvoids(g, st, order, x);
    } else {
      assert order[..j] == order;
    }
  }

  /** Dropping the last vertex of the order keeps the first j and the absence of edges into x after them. */
  lemma FrontAvoids(g: Graph, order: seq<int>, front: seq<int>, j: nat, x: int)
    requires g.Valid() && AllVertices(g, order) && j < |order| && 0 <= x < g.n
    requires front == order[..|order| - 1]
    requires forall i :: j <= i < |order| ==> !g.Exists(order[i], x)
    ensures AllVertices(g, front) && front[..j] == order[..j]
    ensures forall i :: j <= i < |front| ==> !g.Exists(front[i], x)
  {
    PrefixVertices(g, order, |front|);
    forall i | j <= i < |front|
      ensures !g.Exists(front[i], x)
    {
      assert front[i] == order[i];
    }
  }

  /** When the last vertex of the order has no edge into x, relaxing its targets leaves x's distance alone. */
  lemma LastAvoids(g: Graph, st: Paths, order: seq<int>, x: int)
    requires g.Valid() && st.Sized(g.n) && AllVertices(g, order) && |order| > 0 && 0 <= x < g.n
    requires !g.Exists(order[|order| - 1], x)
    ensures AllVertices(g, order[..|order| - 1])
    ensures RelaxOrder(g, st, order).shortest[x] == RelaxOrder(g, st, order[..|order| - 1]).shortest[x]
  {
    var k := |order| - 1;
    OrderStep(g, st, order);
    RelaxAlongOthers(RelaxOrder(g, st, order[..k]), g, order[k], ExistingTargets(g, order[k], g.n), x);
  }

  /** In a topological order nothing from position j on points to the vertex at position j. */
  lemma NoLaterEntry(g: Graph, order: seq<int>, j: int)
    requires g.Valid() && Distinct(order) && AllVertices(g, order) && Ordered(g, order) && 0 <= j < |order|
    ensures forall i :: j <= i < |order| ==> !g.Exists(order[i], order[j])
  {
    forall i | j <= i < |order|
      ensures !g.Exists(order[i], order[j])
    {
      forall i' | 0 <= i' < j
        ensures order[..j][i'] != order[i]
      {
      }
      assert order[i] !in order[..j];
    }
  }

  /** Relaxing the targets of order[j], which has no self-loop, brings each target v to at most Shortest[order[j]] + w. */
  lemma RelaxAt(g: Graph, st: Paths, order: seq<int>, j: int, v: int)
    requires g.Valid() && st.Sized(g.n) && AllVertices(g, order) && 0 <= j < |order| && 0 <= v < g.n
    requires !g.Exists(order[j], order[j]) && g.Exists(order[j], v)
    ensures AllVertices(g, order[..j]) && AllVertices(g, order[..j + 1])
    ensures AtMost(RelaxOrder(g, st, order[..j + 1]).shortest[v],
      Plus(RelaxOrder(g, st, order[..j]).shortest[order[j]], EdgeWeight(g, order[j], v)))
  {
    var next := order[..j + 1];
    assert next[..j] == order[..j];
    OrderStep(g, st, next);
    RelaxAlongReaches(RelaxOrder(g, st, order[..j]), g, order[j], ExistingTargets(g, order[j], g.n), v);
  }

  /** Relaxing in a topological order leaves Shortest[v] at most Shortest[x] + w(x, v) for every weighted edge. */
  lemma EdgeRelaxed(g: Graph, st: Paths, order: seq<int>, x: int, v: int)
    requires g.Valid() && st.Sized(g.n) && TopologicalOrder(g, order) && EdgeWeight(g, x, v).Some?
    ensures AtMost(RelaxOrder(g, st, order).shortest[v], Plus(RelaxOrder(g, st, order).shortest[x], EdgeWeight(g, x, v)))
  {
    EdgeExists(g, x, v);
    assert x in order;
    var j :| 0 <= j < |order| && order[j] == x;
    NoLaterEntry(g, order, j);
    RelaxOrderSettles(g, st, order, j, x);
    RelaxAt(g, st, order, j, v);
    RelaxOrderLowers(g, st, order, j + 1);
    AtMostTrans(RelaxOrder(g, st, order).shortest[v], RelaxOrder(g, st, order[..j + 1]).shortest[v],
      Plus(RelaxOrder(g, st, order[..j]).shortest[x], EdgeWeight(g, x, v)));
  }

  /**
   * Relaxing in a topological order bounds the final distance of every walk's end by the
   * walk's weight.
   */
  lemma {:induction false} RelaxOrderBoundsWalks(g: Graph, s: int, order: seq<int>, p: seq<int>)
    requires g.Valid() && 0 <= s < g.n && TopologicalOrder(g, order)
    requires IsWalk(g, p) && p[0] == s
    ensures AtMost(RelaxOrder(g, Initial(g.n, s), order).shortest[p[|p| - 1]], Fin(WalkWeight(g, p)))
    decreases |p|
  {
    var init := Initial(g.n, s);
    var fin := RelaxOrder(g, init, order);
    if |p| == 1 {
      RelaxOrderLowers(g, init, order, 0);
      assert order[..0] == [];
    } else {
      var k := |p| - 1;
      var q := p[..k];
      assert IsWalk(g, q) && q[|q| - 1] == p[k - 1];
      RelaxOrderBoundsWalks(g, s, order, q);
      var w := EdgeWeight(g, p[k - 1], p[k]);
      assert WalkWeight(g, p) == WalkWeight(g, q) + w.value;
      EdgeRelaxed(g, init, order, p[k - 1], p[k]);
      AtMostTrans(fin.shortest[p[k]], Plus(fin.shortest[p[k - 1]], w), Fin(WalkWeight(g, p)));
    }
  }

  /** pred(v) = p is a weighted edge (p, v) on a lightest walk: Shortest[v] = Shortest[p] + w(p, v). */
  ghost predicate TightLink(g: Graph, st: Paths, p: int, v: int)
    requires g.Valid() && st.Sized(g.n) && 0 <= v < g.n
  {
    && PredLink(g, st, p, v)
    && st.shortest[v].d == st.shortest[p].d + EdgeWeight(g, p, v).value
  }

  /**
   * Shortest and Predecessors hold single-source shortest paths from s: Shortest[s] = 0
   * with no predecessor; each finite distance is the weight of a walk from s and no walk
   * from s is lighter; a vertex at infinity has no predecessor, and every predecessor
   * link is the last edge of a lightest walk.
   */
  ghost predicate ShortestFrom(g: Graph, s: int, st: Paths)
    requires g.Valid() && 0 <= s < g.n && st.Sized(g.n)
  {
    && st.shortest[s] == Fin(0) && st.pred[s] == None
    && (forall v :: 0 <= v < g.n && st.shortest[v].Fin? ==> Reaches(g, s, v, st.shortest[v].d))
    && (forall p :: IsWalk(g, p) && p[0] == s ==> AtMost(st.shortest[p[|p| - 1]], Fin(WalkWeight(g, p))))
    && (forall v :: 0 <= v < g.n && st.shortest[v] == Inf ==> st.pred[v] == None)
    && (forall v :: 0 <= v < g.n && st.pred[v].Some? ==> TightLink(g, st, st.pred[v].value, v))
  }

  /** On an acyclic graph a justified state that no walk from s undercuts has Shortest[s] = 0 and no predecessor for s. */
  lemma SourceSettled(g: Graph, s: int, r: Paths)
    requires g.Valid() && Acyclic(g) && 0 <= s < g.n && r.Sized(g.n) && Justified(g, s, r)
    requires AtMost(r.shortest[s], Fin(0))
    ensures r.shortest[s] == Fin(0) && r.pred[s] == None
  {
    SourceDistance(g, s, r);
    SourceNoPred(g, s, r);
  }

  /** The walk a justified finite distance of s stands for is closed, so on an acyclic graph it is [s] of weight 0. */
  lemma SourceDistance(g: Graph, s: int, r: Paths)
    requires g.Valid() && Acyclic(g) && 0 <= s < g.n && r.Sized(g.n) && Justified(g, s, r)
    requires AtMost(r.shortest[s], Fin(0))
    ensures r.shortest[s] == Fin(0)
  {
    var p :| IsWalk(g, p) && p[0] == s && p[|p| - 1] == s && WalkWeight(g, p) == r.shortest[s].d;
    if |p| >= 2 {
      NoClosedWalk(g, p);
    }
  }

  /** A predecessor u of s would close a walk s .. u, s, which an acyclic graph does not have. */
  lemma SourceNoPred(g: Graph, s: int, r: Paths)
    requires g.Valid() && Acyclic(g) && 0 <= s < g.n && r.Sized(g.n) && Justified(g, s, r)
    ensures r.pred[s] == None
  {
    if r.pred[s].Some? {
      var u := r.pred[s].value;
      assert PredLink(g, r, u, s);
      var q :| IsWalk(g, q) && q[0] == s && q[|q| - 1] == u && WalkWeight(g, q) == r.shortest[u].d;
      ExtendWalk(g, q, s);
      assert (q + [s])[0] == s;
      NoClosedWalk(g, q + [s]);
    }
  }

  /** In a justified state that no walk from s undercuts, every predecessor link is tight. */
  lemma LinksTight(g: Graph, s: int, r: Paths, v: int)
    requires g.Valid() && 0 <= s < g.n && r.Sized(g.n) && Justified(g, s, r) && 0 <= v < g.n && r.pred[v].Some?
    requires forall p :: IsWalk(g, p) && p[0] == s ==> AtMost(r.shortest[p[|p| - 1]], Fin(WalkWeight(g, p)))
    ensures TightLink(g, r, r.pred[v].value, v)
  {
    var u := r.pred[v].value;
    assert PredLink(g, r, u, v);
    var q :| IsWalk(g, q) && q[0] == s && q[|q| - 1] == u && WalkWeight(g, q) == r.shortest[u].d;
    ExtendWalk(g, q, v);
    assert (q + [v])[0] == s && (q + [v])[|q + [v]| - 1] == v;
  }

  /** Relaxing an acyclic graph in topological order from the initial arrays yields shortest paths. */
  lemma DagShortestPaths(g: Graph, s: int, order: seq<int>)
    requires g.Valid() && Acyclic(g) && 0 <= s < g.n && TopologicalOrder(g, order)
    ensures ShortestFrom(g, s, RelaxOrder(g, Initial(g.n, s), order))
  {
    var r := RelaxOrder(g, Initial(g.n, s), order);
    InitialJustified(g, s);
    RelaxOrderJustified(g, s, Initial(g.n, s), order);
    forall p | IsWalk(g, p) && p[0] == s
      ensures AtMost(r.shortest[p[|p| - 1]], Fin(WalkWeight(g, p)))
    {
      RelaxOrderBoundsWalks(g, s, order, p);
    }
    assert IsWalk(g, [s]) && WalkWeight(g, [s]) == 0;
    SourceSettled(g, s, r);
    forall v | 0 <= v < g.n && r.pred[v].Some?
      ensures TightLink(g, r, r.pred[v].value, v)
    {
      LinksTight(g, s, r, v);
    }
  }
}
