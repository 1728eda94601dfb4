/**
 * Edge relaxation over the Shortest / Predecessors arrays that every shortest-path
 * algorithm shares, and the fixed orders in which the algorithms relax edges.
 */
module Relaxation {
  import opened Wrappers
  import opened Collections
  import opened Graphs

  /** A tentative distance: a number or positive infinity. */
  datatype Dist = Fin(d: int) | Inf

  /** Shortest[u] + (weight ?? +infinity). */
  function Plus(a: Dist, w: Option<int>): Dist {
    match (a, w)
    case (Fin(x), Some(y)) => Fin(x + y)
    case _ => Inf
  }

  /** a < b on distances; infinity is below nothing. */
  predicate Below(a: Dist, b: Dist) {
    match (a, b)
    case (Fin(x), Fin(y)) => x < y
    case (Fin(_), Inf) => true
    case (Inf, _) => false
  }

  predicate AtMost(a: Dist, b: Dist) {
    !Below(b, a)
  }

  /** The contents of Shortest and Predecessors (a null predecessor is None). */
  datatype Paths = Paths(shortest: seq<Dist>, pred: seq<Option<int>>)
  {
    predicate Sized(n: nat) {
      |shortest| == n && |pred| == n
    }
  }

  /** The weight of (u, x) when it is a non-null one, None otherwise. */
  function EdgeWeight(g: Graph, u: int, x: int): Option<int>
    requires g.Valid()
  {
    match g.Weight(u, x)
    case Success(w) => w
    case Failure(_) => None
  }

  /** Relax can run on (u, v): both are vertices and the weight lookup does not throw. */
  predicate CanRelax(g: Graph, u: int, v: int)
    requires g.Valid()
  {
    g.InRange(u, v) && g.Weight(u, v).Success?
  }

  /** The arrays after Relax(u, v). */
  function Relaxed(st: Paths, g: Graph, u: int, v: int): (r: Paths)
    requires g.Valid() && st.Sized(g.n) && CanRelax(g, u, v)
    ensures r.Sized(g.n)
    ensures forall x :: 0 <= x < g.n && x != v ==> r.shortest[x] == st.shortest[x] && r.pred[x] == st.pred[x]
    ensures AtMost(r.shortest[v], st.shortest[v])
    ensures AtMost(r.shortest[v], Plus(st.shortest[u], EdgeWeight(g, u, v)))
    ensures r != st ==> r.shortest[v] == Plus(st.shortest[u], EdgeWeight(g, u, v)) && r.pred[v] == Some(u)
    ensures r.shortest[v] == st.shortest[v] ==> r == st
  {
    var candidate := Plus(st.shortest[u], g.Weight(u, v).value);
    if Below(candidate, st.shortest[v]) then
      Paths(st.shortest[v := candidate], st.pred[v := Some(u)])
    else
      st
  }

  /** The shortest-path arrays every algorithm owns (GraphExtension). */
  class GraphExtension {
    var Shortest: array<Dist>
    var Predecessors: array<Option<int>>

    constructor ()
      ensures Shortest.Length == 0 && Predecessors.Length == 0
    {
      Shortest := new Dist[0];
      Predecessors := new Option<int>[0];
    }

    function Current(): Paths
      reads this, Shortest, Predecessors
    {
      Paths(Shortest[..], Predecessors[..])
    }

    /** Lowers Shortest[v] to Shortest[u] + w(u, v) and records u as v's predecessor when that is an improvement. */
    method Relax(g: Graph, u: int, v: int)
      requires g.Valid() && Current().Sized(g.n) && CanRelax(g, u, v)
      modifies Shortest, Predecessors
      ensures Current() == Relaxed(old(Current()), g, u, v)
    {
      var w := g.Weight(u, v).value;
      var uPath := Plus(Shortest[u], w);
      if Below(uPath, Shortest[v]) {
        Shortest[v] := uPath;
        Predecessors[v] := Some(u);
      }
    }

    /** Shortest all infinite and Predecessors all null, then Shortest[source] = 0. */
    method Initialize(n: nat, source: int)
      requires 0 <= source < n
      modifies this
      ensures fresh(Shortest) && fresh(Predecessors)
      ensures Current() == Initial(n, source)
    {
      var shortest := new Dist[n];
      var predecessors := new Option<int>[n];
      for i := 0 to n
        invariant forall j :: 0 <= j < i ==> shortest[j] == Inf && predecessors[j] == None
      {
        shortest[i] := Inf;
        predecessors[i] := None;
      }
      shortest[source] := Fin(0);
      Shortest, Predecessors := shortest, predecessors;
    }
  }

  /** The arrays right after initialisation. */
  function Initial(n: nat, s: int): (r: Paths)
    requires 0 <= s < n
    ensures r.Sized(n)
  {
    Paths(seq(n, x => if x == s then Fin(0) else Inf), seq(n, _ => None))
  }

  /** Relax (u, v) for every v of vs, in order. */
  function RelaxAlong(st: Paths, g: Graph, u: int, vs: seq<int>): (r: Paths)
    requires g.Valid() && st.Sized(g.n)
    requires forall i :: 0 <= i < |vs| ==> CanRelax(g, u, vs[i])
    ensures r.Sized(g.n)
    decreases |vs|
  {
    if vs == [] then st
    else
      var k := |vs| - 1;
      Relaxed(RelaxAlong(st, g, u, vs[..k]), g, u, vs[k])
  }

  /** Every pair the indexer offers can be relaxed (always so for adjacency lists). */
  ghost predicate RelaxSafe(g: Graph)
    requires g.Valid()
  {
    forall u, v :: 0 <= u < g.n && v in g.Adj(u) ==> CanRelax(g, u, v)
  }

  /** Relax (u, v) for every vertex u < k and every v the indexer yields for u. */
  function PassUpTo(g: Graph, st: Paths, k: nat): (r: Paths)
    requires g.Valid() && RelaxSafe(g) && st.Sized(g.n) && k <= g.n
    ensures r.Sized(g.n)
  {
    if k == 0 then st
    else
      var u := k - 1;
      assert forall i :: 0 <= i < |g.Adj(u)| ==> g.Adj(u)[i] in g.Adj(u);
      RelaxAlong(PassUpTo(g, st, k - 1), g, u, g.Adj(u))
  }

  /** One relaxation pass over the whole graph from the initial arrays. */
  function SinglePass(g: Graph, s: int): (r: Paths)
    requires g.Valid() && RelaxSafe(g) && 0 <= s < g.n
    ensures r.Sized(g.n)
  {
    PassUpTo(g, Initial(g.n, s), g.n)
  }

  /** The vertices v < k with Exists(u, v), ascending. */
  function ExistingTargets(g: Graph, u: int, k: nat): (r: seq<int>)
    requires g.Valid() && 0 <= u < g.n && k <= g.n
    ensures forall i :: 0 <= i < |r| ==> CanRelax(g, u, r[i]) && g.Exists(u, r[i]) && r[i] < k
    ensures forall v :: v in r <==> 0 <= v < k && g.Exists(u, v)
  {
    if k == 0 then []
    else ExistingTargets(g, u, k - 1) + (if g.Exists(u, k - 1) then [k - 1] else [])
  }

  /** Relax (u, v) for every vertex v < k with Exists(u, v), ascending: the inner relax loop vertex by vertex. */
  function RelaxExisting(st: Paths, g: Graph, u: int, k: nat): (r: Paths)
    requires g.Valid() && st.Sized(g.n) && 0 <= u < g.n && k <= g.n
    ensures r.Sized(g.n)
  {
    if k == 0 then st
    else
      var prev := RelaxExisting(st, g, u, k - 1);
      if g.Exists(u, k - 1) then Relaxed(prev, g, u, k - 1) else prev
  }

  /** The vertex-by-vertex loop relaxes exactly the pairs ExistingTargets lists, in its order. */
  lemma {:induction false} ExistingAlong(st: Paths, g: Graph, u: int, k: nat)
    requires g.Valid() && st.Sized(g.n) && 0 <= u < g.n && k <= g.n
    ensures RelaxExisting(st, g, u, k) == RelaxAlong(st, g, u, ExistingTargets(g, u, k))
  {
    if k > 0 {
      var j := k - 1;
      ExistingAlong(st, g, u, j);
      ExistingAlongStep(st, g, u, j);
      assert j + 1 == k;
    } else {
      assert ExistingTargets(g, u, k) == [];
    }
  }

  /** One more vertex keeps the loop and RelaxAlong over ExistingTargets in step. */
  lemma ExistingAlongStep(st: Paths, g: Graph, u: int, j: nat)
    requires g.Valid() && st.Sized(g.n) && 0 <= u < g.n && j < g.n
    requires RelaxExisting(st, g, u, j) == RelaxAlong(st, g, u, ExistingTargets(g, u, j))
    ensures RelaxExisting(st, g, u, j + 1) == RelaxAlong(st, g, u, ExistingTargets(g, u, j + 1))
  {
    TargetsStep(st, g, u, j);
  }

  /** For each u of order in turn, relax (u, v) for every vertex v with Exists(u, v). */
  function RelaxOrder(g: Graph, st: Paths, order: seq<int>): (r: Paths)
    requires g.Valid() && st.Sized(g.n)
    requires forall i :: 0 <= i < |order| ==> 0 <= order[i] < g.n
    ensures r.Sized(g.n)
  {
    if order == [] then st
    else
      var k := |order| - 1;
      RelaxAlong(RelaxOrder(g, st, order[..k]), g, order[k], ExistingTargets(g, order[k], g.n))
  }

  /** PassUpTo one vertex further is relaxing the targets of that vertex. */
  lemma PassStep(g: Graph, st: Paths, k: nat)
    requires g.Valid() && RelaxSafe(g) && st.Sized(g.n) && k < g.n
    ensures forall i :: 0 <= i < |g.Adj(k)| ==> CanRelax(g, k, g.Adj(k)[i])
    ensures PassUpTo(g, st, k + 1) == RelaxAlong(PassUpTo(g, st, k), g, k, g.Adj(k))
  {
    assert forall i :: 0 <= i < |g.Adj(k)| ==> g.Adj(k)[i] in g.Adj(k);
  }

  /** Relaxing the existing targets below k + 1 is relaxing those below k, then (u, k) if that edge exists. */
  lemma TargetsStep(st: Paths, g: Graph, u: int, k: nat)
    requires g.Valid() && st.Sized(g.n) && 0 <= u < g.n && k < g.n
    ensures g.Exists(u, k) ==> CanRelax(g, u, k)
    ensures RelaxAlong(st, g, u, ExistingTargets(g, u, k + 1)) ==
      if g.Exists(u, k) then Relaxed(RelaxAlong(st, g, u, ExistingTargets(g, u, k)), g, u, k)
      else RelaxAlong(st, g, u, ExistingTargets(g, u, k))
  {
    var done := ExistingTargets(g, u, k);
    if g.Exists(u, k) {
      assert (done + [k])[..|done|] == done;
    } else {
      assert done + [] == done;
    }
  }

  /** Relaxing the one-element target list [v] is relaxing (u, v). */
  lemma SingleTarget(st: Paths, g: Graph, u: int, v: int)
    requires g.Valid() && st.Sized(g.n) && CanRelax(g, u, v)
    ensures RelaxAlong(st, g, u, [v]) == Relaxed(st, g, u, v)
  {
    assert [v][..0] == [];
  }

  lemma ListRelaxSafe(g: Graph)
    requires g.Valid() && g.ListGraph?
    ensures RelaxSafe(g)
  {
  }
}
