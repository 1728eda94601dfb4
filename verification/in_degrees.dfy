/**
 * The in-degree TopologicalSort counts. Its first loop adds one to inDegree[v] for each
 * occurrence of v in dag[u] with Exists(u, v), over every vertex u; this equals the true
 * in-degree only when the indexer yields each out-neighbour of u once.
 */
module InDegrees {
  import opened Collections
  import opened Graphs

  /** The count inDegree[v] holds after rows u < k of the counting loop. */
  function CountedBelow(g: Graph, v: int, k: nat): nat
    requires g.Valid() && k <= g.n
  {
    if k == 0 then 0
    else CountedBelow(g, v, k - 1) + (if g.Exists(k - 1, v) then Occurrences(g.Adj(k - 1), v) else 0)
  }

  /** The count inDegree[v] holds after the counting loop. */
  function Counted(g: Graph, v: int): nat
    requires g.Valid()
  {
    CountedBelow(g, v, g.n)
  }

  /** The vertices u < k with an edge (u, v). */
  ghost function PredsBelow(g: Graph, v: int, k: nat): set<int>
    requires g.Valid() && k <= g.n
  {
    set x | 0 <= x < k && g.Exists(x, v)
  }

  /** The vertices with an edge into v. */
  ghost function Preds(g: Graph, v: int): set<int>
    requires g.Valid()
  {
    PredsBelow(g, v, g.n)
  }

  /** The members of s with an edge into v. */
  ghost function PredsIn(g: Graph, v: int, s: seq<int>): (r: set<int>)
    requires g.Valid()
    ensures r <= Preds(g, v)
  {
    set x | x in s && 0 <= x < g.n && g.Exists(x, v)
  }

  lemma {:induction false} PredsBelowSize(g: Graph, v: int, k: nat)
    requires g.Valid() && k <= g.n
    ensures |PredsBelow(g, v, k)| == g.InDegreeBelow(v, k)
  {
    if k > 0 {
      var j := k - 1;
      PredsBelowSize(g, v, j);
      PredsBelowStep(g, v, j);
      assert j + 1 == k;
    } else {
      assert PredsBelow(g, v, k) == {};
    }
  }

  /** Vertex j joins the predecessors below j exactly when (j, v) is an edge. */
  lemma PredsBelowStep(g: Graph, v: int, j: nat)
    requires g.Valid() && j < g.n
    ensures |PredsBelow(g, v, j + 1)| == |PredsBelow(g, v, j)| + if g.Exists(j, v) then 1 else 0
  {
    PredsBelowJoin(g, v, j);
    assert j !in PredsBelow(g, v, j);
  }

  /** The predecessors below j + 1 are those below j, with j added when (j, v) is an edge. */
  lemma PredsBelowJoin(g: Graph, v: int, j: nat)
    requires g.Valid() && j < g.n
    ensures PredsBelow(g, v, j + 1) == PredsBelow(g, v, j) + (if g.Exists(j, v) then {j} else {})
  {
    var now, before := PredsBelow(g, v, j + 1), PredsBelow(g, v, j);
    forall x
      ensures x in now <==> x in before || (g.Exists(j, v) && x == j)
    {
    }
  }

  /** InDegree(v) is the number of vertices with an edge into v. */
  lemma PredsSize(g: Graph, v: int)
    requires g.Valid()
    ensures |Preds(g, v)| == g.InDegree(v)
  {
    PredsBelowSize(g, v, g.n);
  }

  /** Every edge (u, v) makes the indexer yield v for u. */
  lemma ExistsInAdj(g: Graph, u: int, v: int)
    requires g.Valid() && 0 <= u < g.n && g.Exists(u, v)
    ensures v in g.Adj(u)
  {
    if g.MatrixGraph? {
      TargetsContain(g.cells, g.n, g.n, u, v);
    }
  }

  lemma {:induction false} CountedBelowAtLeast(g: Graph, v: int, k: nat)
    requires g.Valid() && k <= g.n
    ensures CountedBelow(g, v, k) >= g.InDegreeBelow(v, k)
  {
    if k > 0 {
      CountedBelowAtLeast(g, v, k - 1);
      if g.Exists(k - 1, v) {
        ExistsInAdj(g, k - 1, v);
      }
    }
  }

  /** The counted in-degree never falls short of the true one. */
  lemma CountedAtLeast(g: Graph, v: int)
    requires g.Valid()
    ensures Counted(g, v) >= g.InDegree(v)
  {
    CountedBelowAtLeast(g, v, g.n);
  }

  lemma {:induction false} MatrixCountedBelow(g: Graph, v: int, k: nat)
    requires g.Valid() && g.MatrixGraph? && k <= g.n
    ensures CountedBelow(g, v, k) == g.InDegreeBelow(v, k) * g.InDegree(v)
  {
    if k > 0 {
      var j := k - 1;
      MatrixCountedBelow(g, v, j);
      MatrixCountedStep(g, v, j);
      assert j + 1 == k;
    } else {
      assert CountedBelow(g, v, k) == 0 && g.InDegreeBelow(v, k) == 0;
    }
  }

  /** Row j of the matrix adds InDegree(v) to the count exactly when (j, v) is an edge. */
  lemma MatrixCountedStep(g: Graph, v: int, j: nat)
    requires g.Valid() && g.MatrixGraph? && j < g.n
    requires CountedBelow(g, v, j) == g.InDegreeBelow(v, j) * g.InDegree(v)
    ensures CountedBelow(g, v, j + 1) == g.InDegreeBelow(v, j + 1) * g.InDegree(v)
  {
    MatrixIndexer(g, j, v);
    var e := g.Exists(j, v);
    assert CountedBelow(g, v, j + 1) == CountedBelow(g, v, j) + if e then g.InDegree(v) else 0;
    assert g.InDegreeBelow(v, j + 1) == g.InDegreeBelow(v, j) + if e then 1 else 0;
    ScaleStep(CountedBelow(g, v, j), CountedBelow(g, v, j + 1), g.InDegreeBelow(v, j), g.InDegreeBelow(v, j + 1), g.InDegree(v), e);
  }

  /** Adding d, or nothing, to a multiple b0 * d keeps it a multiple of d, b0 + 1 or b0 times. */
  lemma ScaleStep(c0: int, c1: int, b0: int, b1: int, d: int, e: bool)
    requires c0 == b0 * d && c1 == c0 + (if e then d else 0) && b1 == b0 + (if e then 1 else 0)
    ensures c1 == b1 * d
  {
    if e {
      Distribute(b0, 1, d);
    }
  }

  lemma Distribute(b: int, e: int, d: int)
    ensures (b + e) * d == b * d + e * d
  {
  }

  /** On the matrix every row yields v InDegree(v) times, so the count is InDegree(v) squared. */
  lemma MatrixCounted(g: Graph, v: int)
    requires g.Valid() && g.MatrixGraph?
    ensures Counted(g, v) == g.InDegree(v) * g.InDegree(v)
  {
    MatrixCountedBelow(g, v, g.n);
  }

  /** Lists without repeated entries: every list yields each of its targets once. */
  predicate NoDuplicateEdges(g: Graph)
    requires g.ListGraph?
  {
    forall u :: 0 <= u < |g.lists| ==> Distinct(g.lists[u])
  }

  lemma {:induction false} DistinctOnce(s: seq<int>, x: int)
    requires Distinct(s)
    ensures Occurrences(s, x) <= 1
  {
    if s != [] {
      var k := |s| - 1;
      DistinctOnce(s[..k], x);
      if s[k] == x {
        assert x !in s[..k];
      }
    }
  }

  lemma {:induction false} ListCountedBelow(g: Graph, v: int, k: nat)
    requires g.Valid() && g.ListGraph? && NoDuplicateEdges(g) && k <= g.n
    ensures CountedBelow(g, v, k) == g.InDegreeBelow(v, k)
  {
    if k > 0 {
      ListCountedBelow(g, v, k - 1);
      DistinctOnce(g.lists[k - 1], v);
    }
  }

  /** Without repeated list entries the count is the true in-degree. */
  lemma ListCounted(g: Graph, v: int)
    requires g.Valid() && g.ListGraph? && NoDuplicateEdges(g)
    ensures Counted(g, v) == g.InDegree(v)
  {
    ListCountedBelow(g, v, g.n);
  }

  /** Appending u, not yet in s, adds u to the processed predecessors of v exactly when (u, v) is an edge. */
  lemma PredsInAppend(g: Graph, v: int, s: seq<int>, u: int)
    requires g.Valid() && 0 <= u < g.n && u !in s
    ensures |PredsIn(g, v, s + [u])| == |PredsIn(g, v, s)| + (if g.Exists(u, v) then 1 else 0)
  {
    if g.Exists(u, v) {
      assert PredsIn(g, v, s + [u]) == PredsIn(g, v, s) + {u};
    } else {
      assert PredsIn(g, v, s + [u]) == PredsIn(g, v, s);
    }
  }

  /** Once as many predecessors of v lie in s as v has, all of them do. */
  lemma AllPredsIn(g: Graph, v: int, s: seq<int>)
    requires g.Valid() && |PredsIn(g, v, s)| >= g.InDegree(v)
    ensures forall x :: 0 <= x < g.n && g.Exists(x, v) ==> x in s
  {
    PredsSize(g, v);
    SubsetSize(PredsIn(g, v, s), Preds(g, v));
    SubsetEqualSize(PredsIn(g, v, s), Preds(g, v));
    forall x | 0 <= x < g.n && g.Exists(x, v)
      ensures x in s
    {
      assert x in Preds(g, v);
    }
  }

  /** No more predecessors of v lie in s than v has. */
  lemma PredsInAtMost(g: Graph, v: int, s: seq<int>)
    requires g.Valid()
    ensures |PredsIn(g, v, s)| <= g.InDegree(v)
  {
    PredsSize(g, v);
    SubsetSize(PredsIn(g, v, s), Preds(g, v));
  }

  /** When s holds every predecessor of v, it holds InDegree(v) of them. */
  lemma PredsAllIn(g: Graph, v: int, s: seq<int>)
    requires g.Valid() && forall x :: 0 <= x < g.n && g.Exists(x, v) ==> x in s
    ensures |PredsIn(g, v, s)| == g.InDegree(v)
  {
    PredsSize(g, v);
    assert PredsIn(g, v, s) == Preds(g, v);
  }
}
