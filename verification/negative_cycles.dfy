/**
 * Cycles of the predecessor graph. Relaxation only ever closes a predecessor cycle by
 * strictly lowering a distance, so every such cycle carries a link whose slack
 * Shortest[y] - Shortest[p] - w(p, y) is positive; summing the slacks around the cycle
 * shows that its edge weights add up to a negative number.
 */
module NegativeCycles {
  import opened Wrappers
  import opened Collections
  import opened Graphs
  import opened Relaxation
  import opened ShortestPaths

  /** The element before position i of c, read cyclically. */
  function Prev(c: seq<int>, i: int): int
    requires 0 <= i < |c|
  {
    if i == 0 then c[|c| - 1] else c[i - 1]
  }

  /** The position after k in c, read cyclically. */
  function Next(c: seq<int>, k: int): (j: int)
    requires 0 <= k < |c|
    ensures 0 <= j < |c| && Prev(c, j) == c[k]
  {
    if k == |c| - 1 then 0 else k + 1
  }

  /** c goes round a cycle of predecessor links: Predecessors[c[i]] is the element before c[i]. */
  ghost predicate IsPredCycle(g: Graph, st: Paths, c: seq<int>)
    requires g.Valid() && st.Sized(g.n)
  {
    && |c| >= 1
    && (forall i :: 0 <= i < |c| ==> 0 <= c[i] < g.n)
    && (forall i {:trigger st.pred[c[i]]} :: 0 <= i < |c| ==> st.pred[c[i]] == Some(Prev(c, i)))
  }

  /** The predecessor link into y is a weighted edge with Shortest[y] > Shortest[p] + w(p, y). */
  ghost predicate PositiveSlack(g: Graph, st: Paths, y: int)
    requires g.Valid() && st.Sized(g.n) && 0 <= y < g.n
  {
    && st.pred[y].Some?
    && PredLink(g, st, st.pred[y].value, y)
    && st.shortest[y].d > st.shortest[st.pred[y].value].d + EdgeWeight(g, st.pred[y].value, y).value
  }

  /** Every predecessor cycle has a link of positive slack. */
  ghost predicate CyclesStrict(g: Graph, st: Paths)
    requires g.Valid() && st.Sized(g.n)
  {
    forall c :: IsPredCycle(g, st, c) ==> exists i :: 0 <= i < |c| && PositiveSlack(g, st, c[i])
  }

  /** Every consecutive pair of c, read cyclically, is an edge with a non-null weight. */
  ghost predicate CycleEdges(g: Graph, c: seq<int>)
    requires g.Valid()
  {
    && |c| >= 1
    && forall i {:trigger Prev(c, i)} :: 0 <= i < |c| ==> EdgeWeight(g, Prev(c, i), c[i]).Some?
  }

  /** The weights of the edges round the cycle c, the one into c[i] at position i. */
  ghost function LinkWeights(g: Graph, c: seq<int>): (w: seq<int>)
    requires g.Valid() && CycleEdges(g, c)
    ensures |w| == |c|
  {
    seq(|c|, i requires 0 <= i < |c| => EdgeWeight(g, Prev(c, i), c[i]).value)
  }

  /** The summed weight of the edges round the cycle c. */
  ghost function CycleWeight(g: Graph, c: seq<int>): int
    requires g.Valid() && CycleEdges(g, c)
  {
    Sum(LinkWeights(g, c))
  }

  lemma InitialCyclesStrict(g: Graph, s: int)
    requires g.Valid() && 0 <= s < g.n
    ensures CyclesStrict(g, Initial(g.n, s))
  {
    var st := Initial(g.n, s);
    forall c
      ensures !IsPredCycle(g, st, c)
    {
      if |c| >= 1 && 0 <= c[0] < g.n {
        assert st.pred[c[0]] == None;
      }
    }
  }

  lemma RelaxedCyclesStrict(g: Graph, s: int, st: Paths, u: int, v: int)
    requires g.Valid() && st.Sized(g.n) && CanRelax(g, u, v)
    requires Justified(g, s, st) && CyclesStrict(g, st)
    ensures CyclesStrict(g, Relaxed(st, g, u, v))
  {
    var r := Relaxed(st, g, u, v);
    if r != st {
      forall c | IsPredCycle(g, r, c)
        ensures exists i :: 0 <= i < |c| && PositiveSlack(g, r, c[i])
      {
        if k :| 0 <= k < |c| && c[k] == v {
          SlackAfterImprovement(g, s, st, u, v, c[Next(c, k)]);
        } else {
          CycleAvoidingTarget(g, s, st, u, v, c);
        }
      }
    }
  }

  /** Once relaxing (u, v) has lowered Shortest[v], the link v -> y has positive slack. */
  lemma SlackAfterImprovement(g: Graph, s: int, st: Paths, u: int, v: int, y: int)
    requires g.Valid() && st.Sized(g.n) && CanRelax(g, u, v) && 0 <= y < g.n
    requires Justified(g, s, st)
    requires Relaxed(st, g, u, v) != st && Relaxed(st, g, u, v).pred[y] == Some(v)
    ensures PositiveSlack(g, Relaxed(st, g, u, v), y)
  {
    var r := Relaxed(st, g, u, v);
    assert Below(r.shortest[v], st.shortest[v]);
    if y != v {
      assert st.pred[y] == Some(v);
      assert PredLink(g, st, v, y);
    }
  }

  /** A predecessor cycle that does not pass through v is one of st, with the same slacks. */
  lemma CycleAvoidingTarget(g: Graph, s: int, st: Paths, u: int, v: int, c: seq<int>)
    requires g.Valid() && st.Sized(g.n) && CanRelax(g, u, v)
    requires CyclesStrict(g, st)
    requires IsPredCycle(g, Relaxed(st, g, u, v), c) && forall k :: 0 <= k < |c| ==> c[k] != v
    ensures exists i :: 0 <= i < |c| && PositiveSlack(g, Relaxed(st, g, u, v), c[i])
  {
    var r := Relaxed(st, g, u, v);
    assert IsPredCycle(g, st, c) by {
      forall i | 0 <= i < |c|
        ensures st.pred[c[i]] == Some(Prev(c, i))
      {
      }
    }
    var i :| 0 <= i < |c| && PositiveSlack(g, st, c[i]);
    assert Prev(c, i) != v;
    assert PositiveSlack(g, r, c[i]);
  }

  lemma {:induction false} RelaxAlongCyclesStrict(g: Graph, s: int, st: Paths, u: int, vs: seq<int>)
    requires g.Valid() && st.Sized(g.n)
    requires forall i :: 0 <= i < |vs| ==> CanRelax(g, u, vs[i])
    requires Justified(g, s, st) && CyclesStrict(g, st)
    ensures CyclesStrict(g, RelaxAlong(st, g, u, vs))
    decreases |vs|
  {
    if vs != [] {
      var k := |vs| - 1;
      RelaxAlongCyclesStrict(g, s, st, u, vs[..k]);
      RelaxAlongJustified(g, s, st, u, vs[..k]);
      RelaxedCyclesStrict(g, s, RelaxAlong(st, g, u, vs[..k]), u, vs[k]);
    }
  }

  lemma {:induction false} PassUpToCyclesStrict(g: Graph, s: int, st: Paths, k: nat)
    requires g.Valid() && RelaxSafe(g) && st.Sized(g.n) && k <= g.n
    requires Justified(g, s, st) && CyclesStrict(g, st)
    ensures CyclesStrict(g, PassUpTo(g, st, k))
  {
    if k > 0 {
      var u := k - 1;
      PassUpToCyclesStrict(g, s, st, u);
      PassUpToJustified(g, s, st, u);
      PassStep(g, st, u);
      RelaxAlongCyclesStrict(g, s, PassUpTo(g, st, u), u, g.Adj(u));
      assert u + 1 == k;
    }
  }

  /** Summing slacks: a predecessor cycle of a justified state with a strict link weighs less than zero. */
  lemma PredCycleNegative(g: Graph, s: int, st: Paths, c: seq<int>)
    requires g.Valid() && st.Sized(g.n)
    requires Justified(g, s, st) && CyclesStrict(g, st) && IsPredCycle(g, st, c)
    ensures CycleEdges(g, c) && CycleWeight(g, c) < 0
  {
    forall i {:trigger Prev(c, i)} | 0 <= i < |c|
      ensures PredLink(g, st, Prev(c, i), c[i])
    {
      assert st.pred[c[i]] == Some(Prev(c, i));
    }
    var j :| 0 <= j < |c| && PositiveSlack(g, st, c[j]);
    SlackSum(g, st, c, j);
  }

  /** The slacks round c are non-negative and one is positive, so the edge weights sum below zero. */
  lemma SlackSum(g: Graph, st: Paths, c: seq<int>, j: int)
    requires g.Valid() && st.Sized(g.n) && IsPredCycle(g, st, c)
    requires forall i {:trigger Prev(c, i)} :: 0 <= i < |c| ==> PredLink(g, st, Prev(c, i), c[i])
    requires 0 <= j < |c| && PositiveSlack(g, st, c[j])
    ensures CycleEdges(g, c) && CycleWeight(g, c) < 0
  {
    var L := |c|;
    LinksFinite(g, st, c);
    var a := seq(L, i requires 0 <= i < L => st.shortest[c[i]].d);
    var b := seq(L, i requires 0 <= i < L => st.shortest[Prev(c, i)].d);
    RotationSum(a, b);
    var w := LinkWeights(g, c);
    forall i | 0 <= i < L
      ensures a[i] - b[i] - w[i] >= 0
    {
      assert PredLink(g, st, Prev(c, i), c[i]);
    }
    assert st.pred[c[j]] == Some(Prev(c, j));
    SumGap(a, b, w, j);
  }

  /** Both ends of every link round the cycle have finite distances, and every link is weighted. */
  lemma LinksFinite(g: Graph, st: Paths, c: seq<int>)
    requires g.Valid() && st.Sized(g.n) && IsPredCycle(g, st, c)
    requires forall i {:trigger Prev(c, i)} :: 0 <= i < |c| ==> PredLink(g, st, Prev(c, i), c[i])
    ensures CycleEdges(g, c)
    ensures forall i :: 0 <= i < |c| ==> st.shortest[c[i]].Fin?
  {
    forall i | 0 <= i < |c|
      ensures st.shortest[c[i]].Fin? && EdgeWeight(g, Prev(c, i), c[i]).Some?
    {
      assert PredLink(g, st, Prev(c, i), c[i]);
    }
  }

  /** A sequence rotated by one place has the same sum. */
  lemma RotationSum(a: seq<int>, b: seq<int>)
    requires |a| == |b| >= 1 && b[0] == a[|a| - 1]
    requires forall i :: 1 <= i < |a| ==> b[i] == a[i - 1]
    ensures Sum(a) == Sum(b)
  {
    assert b == [a[|a| - 1]] + a[..|a| - 1];
    RotatedSum(a);
  }

  /** Every predecessor cycle left by one relaxation pass has negative weight. */
  lemma SinglePassCyclesNegative(g: Graph, s: int, c: seq<int>)
    requires g.Valid() && RelaxSafe(g) && 0 <= s < g.n
    requires IsPredCycle(g, SinglePass(g, s), c)
    ensures CycleEdges(g, c) && CycleWeight(g, c) < 0
  {
    InitialJustified(g, s);
    InitialCyclesStrict(g, s);
    PassUpToCyclesStrict(g, s, Initial(g.n, s), g.n);
    SinglePassJustified(g, s);
    PredCycleNegative(g, s, SinglePass(g, s), c);
  }
}
