/**
 * What relaxation guarantees whatever the order: every finite distance is the weight
 * of a walk from the source, and every predecessor link is a weighted edge whose
 * endpoints both have finite distances. Also the effect of relaxing all edges out of
 * one vertex, which does not depend on the order of the targets.
 */
module ShortestPaths {
  import opened Wrappers
  import opened Collections
  import opened Graphs
  import opened Relaxation

  /** p is a walk of at least one vertex along edges with non-null weights. */
  ghost predicate IsWalk(g: Graph, p: seq<int>)
    requires g.Valid()
  {
    && |p| >= 1
    && (forall i :: 0 <= i < |p| ==> 0 <= p[i] < g.n)
    && (forall i :: 0 <= i < |p| - 1 ==> EdgeWeight(g, p[i], p[i + 1]).Some?)
  }

  /** The summed weight of the edges of a walk. */
  ghost function WalkWeight(g: Graph, p: seq<int>): int
    requires g.Valid() && IsWalk(g, p)
  {
    if |p| == 1 then 0
    else
      var k := |p| - 1;
      assert IsWalk(g, p[..k]);
      WalkWeight(g, p[..k]) + EdgeWeight(g, p[k - 1], p[k]).value
  }

  /** Some walk from s to v weighs d. */
  ghost predicate Reaches(g: Graph, s: int, v: int, d: int)
    requires g.Valid()
  {
    exists p :: IsWalk(g, p) && p[0] == s && p[|p| - 1] == v && WalkWeight(g, p) == d
  }

  /** The one-vertex walk: s reaches itself at weight 0. */
  lemma ReachesSelf(g: Graph, s: int)
    requires g.Valid() && 0 <= s < g.n
    ensures Reaches(g, s, s, 0)
  {
    assert IsWalk(g, [s]) && WalkWeight(g, [s]) == 0;
  }

  /** A walk from s to x of weight d followed by the edge (x, v) of weight w reaches v at d + w. */
  lemma ReachesExtend(g: Graph, s: int, x: int, d: int, v: int, w: int)
    requires g.Valid() && Reaches(g, s, x, d) && 0 <= v < g.n && EdgeWeight(g, x, v) == Some(w)
    ensures Reaches(g, s, v, d + w)
  {
    var p :| IsWalk(g, p) && p[0] == s && p[|p| - 1] == x && WalkWeight(g, p) == d;
    ExtendWalk(g, p, v);
    var q := p + [v];
    assert q[0] == s && q[|q| - 1] == v;
    assert IsWalk(g, q) && WalkWeight(g, q) == d + w;
  }

  lemma {:induction false} ExtendWalk(g: Graph, p: seq<int>, v: int)
    requires g.Valid() && IsWalk(g, p) && 0 <= v < g.n
    requires EdgeWeight(g, p[|p| - 1], v).Some?
    ensures IsWalk(g, p + [v])
    ensures WalkWeight(g, p + [v]) == WalkWeight(g, p) + EdgeWeight(g, p[|p| - 1], v).value
  {
    assert (p + [v])[..|p|] == p;
  }

  /**
   * The invariant relaxation keeps: finite distances are walk weights from s; a
   * predecessor p of v is a vertex with a weighted edge (p, v), both distances are
   * finite, and Shortest[v] >= Shortest[p] + w(p, v).
   */
  ghost predicate Justified(g: Graph, s: int, st: Paths)
    requires g.Valid() && st.Sized(g.n)
  {
    && (forall v :: 0 <= v < g.n && st.shortest[v].Fin? ==> Reaches(g, s, v, st.shortest[v].d))
    && (forall v :: 0 <= v < g.n && st.pred[v].Some? ==> PredLink(g, st, st.pred[v].value, v))
  }

  ghost predicate PredLink(g: Graph, st: Paths, p: int, v: int)
    requires g.Valid() && st.Sized(g.n) && 0 <= v < g.n
  {
    && 0 <= p < g.n
    && EdgeWeight(g, p, v).Some?
    && st.shortest[p].Fin? && st.shortest[v].Fin?
    && st.shortest[v].d >= st.shortest[p].d + EdgeWeight(g, p, v).value
  }

  lemma InitialJustified(g: Graph, s: int)
    requires g.Valid() && 0 <= s < g.n
    ensures Justified(g, s, Initial(g.n, s))
  {
    var p := [s];
    assert IsWalk(g, p) && WalkWeight(g, p) == 0;
  }

  lemma RelaxedJustified(g: Graph, s: int, st: Paths, u: int, v: int)
    requires g.Valid() && st.Sized(g.n) && CanRelax(g, u, v)
    requires Justified(g, s, st)
    ensures Justified(g, s, Relaxed(st, g, u, v))
  {
    var r := Relaxed(st, g, u, v);
    if r != st {
      var du := st.shortest[u].d;
      var p :| IsWalk(g, p) && p[0] == s && p[|p| - 1] == u && WalkWeight(g, p) == du;
      ExtendWalk(g, p, v);
      assert Reaches(g, s, v, r.shortest[v].d) by {
        assert (p + [v])[0] == s;
      }
      forall x | 0 <= x < g.n && r.pred[x].Some?
        ensures PredLink(g, r, r.pred[x].value, x)
      {
        if x != v {
          assert PredLink(g, st, st.pred[x].value, x);
        }
      }
    }
  }

  lemma {:induction false} RelaxAlongJustified(g: Graph, s: int, st: Paths, u: int, vs: seq<int>)
    requires g.Valid() && st.Sized(g.n)
    requires forall i :: 0 <= i < |vs| ==> CanRelax(g, u, vs[i])
    requires Justified(g, s, st)
    ensures Justified(g, s, RelaxAlong(st, g, u, vs))
    decreases |vs|
  {
    if vs != [] {
      var k := |vs| - 1;
      RelaxAlongJustified(g, s, st, u, vs[..k]);
      RelaxedJustified(g, s, RelaxAlong(st, g, u, vs[..k]), u, vs[k]);
    }
  }

  lemma {:induction false} PassUpToJustified(g: Graph, s: int, st: Paths, k: nat)
    requires g.Valid() && RelaxSafe(g) && st.Sized(g.n) && k <= g.n
    requires Justified(g, s, st)
    ensures Justified(g, s, PassUpTo(g, st, k))
  {
    if k > 0 {
      var u := k - 1;
      PassUpToJustified(g, s, st, u);
      AdjJustified(g, s, PassUpTo(g, st, u), u);
      PassStep(g, st, u);
    }
  }

  /** Relaxing every target the indexer yields for u keeps the arrays justified. */
  lemma AdjJustified(g: Graph, s: int, st: Paths, u: int)
    requires g.Valid() && RelaxSafe(g) && st.Sized(g.n) && 0 <= u < g.n
    requires Justified(g, s, st)
    ensures Justified(g, s, RelaxAlong(st, g, u, g.Adj(u)))
  {
    assert forall i :: 0 <= i < |g.Adj(u)| ==> g.Adj(u)[i] in g.Adj(u);
    RelaxAlongJustified(g, s, st, u, g.Adj(u));
  }

  lemma {:induction false} RelaxOrderJustified(g: Graph, s: int, st: Paths, order: seq<int>)
    requires g.Valid() && st.Sized(g.n)
    requires forall i :: 0 <= i < |order| ==> 0 <= order[i] < g.n
    requires Justified(g, s, st)
    ensures Justified(g, s, RelaxOrder(g, st, order))
  {
    if order != [] {
      var k := |order| - 1;
      RelaxOrderJustified(g, s, st, order[..k]);
      RelaxAlongJustified(g, s, RelaxOrder(g, st, order[..k]), order[k], ExistingTargets(g, order[k], g.n));
    }
  }

  /** A one-pass result is justified: finite distances are walk weights, predecessor links are weighted edges. */
  lemma SinglePassJustified(g: Graph, s: int)
    requires g.Valid() && RelaxSafe(g) && 0 <= s < g.n
    ensures Justified(g, s, SinglePass(g, s))
  {
    InitialJustified(g, s);
    PassUpToJustified(g, s, Initial(g.n, s), g.n);
  }

  /** Relaxing (u, x) would lower Shortest[x]. */
  predicate Improves(st: Paths, g: Graph, u: int, x: int)
    requires g.Valid() && st.Sized(g.n) && 0 <= u < g.n && 0 <= x < g.n
  {
    Below(Plus(st.shortest[u], EdgeWeight(g, u, x)), st.shortest[x])
  }

  /** The outcome of relaxing every edge (u, x), x in T, against the unchanged Shortest[u]. */
  function Improved(st: Paths, g: Graph, u: int, T: seq<int>): (r: Paths)
    requires g.Valid() && st.Sized(g.n) && 0 <= u < g.n
    ensures r.Sized(g.n)
  {
    Paths(
      seq(g.n, x requires 0 <= x < g.n =>
        if x in T && Improves(st, g, u, x) then Plus(st.shortest[u], EdgeWeight(g, u, x)) else st.shortest[x]),
      seq(g.n, x requires 0 <= x < g.n =>
        if x in T && Improves(st, g, u, x) then Some(u) else st.pred[x]))
  }

  /** An edge (u, u) is absent, null-weighted or of non-negative weight. */
  predicate NoNegativeLoopAt(g: Graph, u: int)
    requires g.Valid()
  {
    match EdgeWeight(g, u, u)
    case Some(w) => w >= 0
    case None => true
  }

  /**
   * Relaxing the edges out of u one after another equals relaxing them all at once:
   * the order and any repetition of the targets do not matter, provided u carries no
   * negative self-loop.
   */
  lemma {:induction false} BatchRelax(st: Paths, g: Graph, u: int, vs: seq<int>)
    requires g.Valid() && st.Sized(g.n) && 0 <= u < g.n
    requires forall i :: 0 <= i < |vs| ==> CanRelax(g, u, vs[i])
    requires NoNegativeLoopAt(g, u)
    ensures RelaxAlong(st, g, u, vs) == Improved(st, g, u, vs)
    decreases |vs|
  {
    var n := g.n;
    if vs == [] {
      var r := Improved(st, g, u, []);
      assert r.shortest == st.shortest;
      assert r.pred == st.pred;
    } else {
      var k := |vs| - 1;
      BatchRelax(st, g, u, vs[..k]);
      ImprovedStep(st, g, u, vs[..k], vs[k]);
      assert vs == vs[..k] + [vs[k]];
    }
  }

  /** Relaxing (u, v) after the batch for T is the batch for T + [v]. */
  lemma ImprovedStep(st: Paths, g: Graph, u: int, T: seq<int>, v: int)
    requires g.Valid() && st.Sized(g.n) && 0 <= u < g.n && CanRelax(g, u, v)
    requires NoNegativeLoopAt(g, u)
    ensures Relaxed(Improved(st, g, u, T), g, u, v) == Improved(st, g, u, T + [v])
  {
    var n := g.n;
    assert forall x :: x in T + [v] <==> x in T || x == v;
    var mid := Improved(st, g, u, T);
    assert mid.shortest[u] == st.shortest[u];
    var r := Relaxed(mid, g, u, v);
    var want := Improved(st, g, u, T + [v]);
    forall x | 0 <= x < n
      ensures r.shortest[x] == want.shortest[x] && r.pred[x] == want.pred[x]
    {
      if x == v && v !in T {
        assert mid.shortest[v] == st.shortest[v] && mid.pred[v] == st.pred[v];
      }
    }
    assert r.shortest == want.shortest;
    assert r.pred == want.pred;
  }
}
