/**
 * Merge sort over the inclusive range a[p .. r], with the merge step that copies both
 * halves into fresh arrays closed by a sentinel. The sentinel (the type's infinity or
 * maximum value) is a parameter, above every element of the range.
 */
module MergeSorts {
  import opened Sorts

  /** Every element of a[lo .. hi) is strictly below the sentinel. */
  ghost predicate BelowSentinel(s: seq<int>, lo: int, hi: int, infinity: int) {
    forall k :: lo <= k < hi && 0 <= k < |s| ==> s[k] < infinity
  }

  /** bs is sorted and closed by the sentinel: only its last element reaches infinity. */
  ghost predicate Closed(bs: seq<int>, infinity: int) {
    && |bs| >= 1 && bs[|bs| - 1] == infinity && SortedRange(bs, 0, |bs|)
    && forall i :: 0 <= i < |bs| - 1 ==> bs[i] < infinity
  }

  /**
   * The state of the merge loop before output position k: s[p .. k) is sorted, holds
   * exactly bs[.. n] and cs[.. m], and lies below both remaining heads.
   */
  ghost predicate MergeState(s: seq<int>, p: int, k: int, bs: seq<int>, n: int, cs: seq<int>, m: int) {
    && 0 <= p <= k <= |s| && 0 <= n < |bs| && 0 <= m < |cs| && k == p + n + m
    && SortedRange(s, p, k)
    && (forall x :: p <= x < k ==> s[x] <= bs[n] && s[x] <= cs[m])
    && multiset(s[p..k]) == multiset(bs[..n]) + multiset(cs[..m])
  }

  /**
   * Placing the head bs[n] at position k when it is the smaller head keeps the merge
   * state. Before the last position that head is never the sentinel, so bs has another
   * element.
   */
  lemma TakeLeft(s: seq<int>, p: int, k: int, bs: seq<int>, n: int, cs: seq<int>, m: int, infinity: int)
    requires Closed(bs, infinity) && Closed(cs, infinity)
    requires MergeState(s, p, k, bs, n, cs, m) && k < |s| && k < p + (|bs| - 1) + (|cs| - 1)
    requires bs[n] <= cs[m]
    ensures n + 1 < |bs| && MergeState(s[k := bs[n]], p, k + 1, bs, n + 1, cs, m)
  {
    assert m < |cs| - 1 ==> cs[m] < infinity;
    Extend(s, s[k := bs[n]], p, k, bs[n], bs[n + 1], cs[m]);
    Placed(s, p, k, bs[n], bs[..n], cs[..m]);
    assert bs[..n + 1] == bs[..n] + [bs[n]];
  }

  /** The mirror image of TakeLeft: placing the strictly smaller head cs[m]. */
  lemma TakeRight(s: seq<int>, p: int, k: int, bs: seq<int>, n: int, cs: seq<int>, m: int, infinity: int)
    requires Closed(bs, infinity) && Closed(cs, infinity)
    requires MergeState(s, p, k, bs, n, cs, m) && k < |s| && k < p + (|bs| - 1) + (|cs| - 1)
    requires bs[n] > cs[m]
    ensures m + 1 < |cs| && MergeState(s[k := cs[m]], p, k + 1, bs, n, cs, m + 1)
  {
    assert n < |bs| - 1 ==> bs[n] < infinity;
    Extend(s, s[k := cs[m]], p, k, cs[m], bs[n], cs[m + 1]);
    Placed(s, p, k, cs[m], bs[..n], cs[..m]);
    assert cs[..m + 1] == cs[..m] + [cs[m]];
  }

  /** Appending v, at least everything before it and at most both new heads, keeps the slice sorted and below the heads. */
  lemma Extend(s: seq<int>, t: seq<int>, p: int, k: int, v: int, hb: int, hc: int)
    requires 0 <= p <= k < |s| && t == s[k := v] && SortedRange(s, p, k)
    requires forall x :: p <= x < k ==> s[x] <= v
    requires v <= hb && v <= hc
    ensures SortedRange(t, p, k + 1)
    ensures forall x :: p <= x < k + 1 ==> t[x] <= hb && t[x] <= hc
  {
  }

  /** Writing v at position k extends the merged slice s[p .. k) by v. */
  lemma Placed(s: seq<int>, p: int, k: int, v: int, left: seq<int>, right: seq<int>)
    requires 0 <= p <= k < |s| && multiset(s[p..k]) == multiset(left) + multiset(right)
    ensures multiset(s[k := v][p..k + 1]) == multiset(left) + multiset(right) + multiset{v}
  {
    assert s[k := v][p..k + 1] == s[p..k] + [v];
  }

  /**
   * The merge step: given sorted a[p .. q] and a[q + 1 .. r], all below the sentinel,
   * a[p .. r] becomes their sorted merge and nothing outside it changes.
   */
  method Merg(a: array<int>, p: int, q: int, r: int, infinity: int)
    requires 0 <= p <= q < r < a.Length
    requires SortedRange(a[..], p, q + 1) && SortedRange(a[..], q + 1, r + 1)
    requires BelowSentinel(a[..], p, r + 1, infinity)
    modifies a
    ensures SortedRange(a[..], p, r + 1)
    ensures multiset(a[p..r + 1]) == multiset(old(a[p..r + 1]))
    ensures SameOutside(a[..], old(a[..]), p, r + 1)
  {
    var b := CopyRange(a, p, q, infinity);
    var c := CopyRange(a, q + 1, r, infinity);
    assert a[p..r + 1] == a[p..q + 1] + a[q + 1..r + 1];
    MergeInto(a, b, c, p, r, infinity);
  }

  /**
   * The copying loops of the merge step: a fresh array holding a[lo .. hi] followed by
   * the sentinel, which closes it when that range is sorted and below the sentinel.
   */
  method CopyRange(a: array<int>, lo: int, hi: int, infinity: int) returns (b: array<int>)
    requires 0 <= lo <= hi < a.Length
    ensures fresh(b) && b[..] == a[lo..hi + 1] + [infinity]
    ensures SortedRange(a[..], lo, hi + 1) && BelowSentinel(a[..], lo, hi + 1, infinity) ==> Closed(b[..], infinity)
  {
    var size := hi - lo + 1;
    b := new int[size + 1];
    for i := 0 to size
      invariant forall k :: 0 <= k < i ==> b[k] == a[lo + k]
    {
      b[i] := a[lo + i];
    }
    b[size] := infinity;
    assert b[..] == a[lo..hi + 1] + [infinity];
  }

  /**
   * The loop of the merge step: a[p .. r] receives, in order, the smaller head of b and
   * c, each closed by the sentinel.
   */
  method MergeInto(a: array<int>, b: array<int>, c: array<int>, p: int, r: int, infinity: int)
    requires a != b && a != c
    requires 0 <= p <= r < a.Length && Closed(b[..], infinity) && Closed(c[..], infinity)
    requires (b.Length - 1) + (c.Length - 1) == r - p + 1
    modifies a
    ensures SortedRange(a[..], p, r + 1)
    ensures multiset(a[p..r + 1]) == multiset(b[..b.Length - 1]) + multiset(c[..c.Length - 1])
    ensures SameOutside(a[..], old(a[..]), p, r + 1)
  {
    var n, m := 0, 0;
    var k := p;
    while k <= r
      invariant k <= r + 1 && MergeState(a[..], p, k, b[..], n, c[..], m)
      invariant SameOutside(a[..], old(a[..]), p, r + 1)
      invariant b[..] == old(b[..]) && c[..] == old(c[..])
    {
      n, m := MergeOne(a, b, c, p, r, k, n, m, infinity, old(a[..]));
      k := k + 1;
    }
    MergeDone(a[..], p, r, b[..], n, c[..], m);
  }

  /** The body of the merge loop: the smaller head of b and c goes to a[k]. */
  method MergeOne(a: array<int>, b: array<int>, c: array<int>, p: int, r: int, k: int, n: int, m: int, infinity: int,
    ghost orig: seq<int>) returns (n': int, m': int)
    requires a != b && a != c && Closed(b[..], infinity) && Closed(c[..], infinity)
    requires (b.Length - 1) + (c.Length - 1) == r - p + 1 && r < a.Length
    requires k <= r && MergeState(a[..], p, k, b[..], n, c[..], m)
    requires |orig| == a.Length && SameOutside(a[..], orig, p, r + 1)
    modifies a
    ensures MergeState(a[..], p, k + 1, b[..], n', c[..], m')
    ensures SameOutside(a[..], orig, p, r + 1)
  {
    ghost var s := a[..];
    if b[n] <= c[m] {
      TakeLeft(s, p, k, b[..], n, c[..], m, infinity);
      a[k] := b[n];
      n', m' := n + 1, m;
    } else {
      TakeRight(s, p, k, b[..], n, c[..], m, infinity);
      a[k] := c[m];
      n', m' := n, m + 1;
    }
    WrittenInside(s, orig, p, r + 1, k, a[k]);
  }

  /** When the output range is full, both sides are used up but for their sentinels. */
  lemma MergeDone(s: seq<int>, p: int, r: int, bs: seq<int>, n: int, cs: seq<int>, m: int)
    requires MergeState(s, p, r + 1, bs, n, cs, m) && (|bs| - 1) + (|cs| - 1) == r - p + 1
    ensures SortedRange(s, p, r + 1)
    ensures multiset(s[p..r + 1]) == multiset(bs[..|bs| - 1]) + multiset(cs[..|cs| - 1])
  {
    assert n == |bs| - 1 && m == |cs| - 1;
  }

  /** Elements outside a changed range [lo, mid) keep their bound. */
  lemma SentinelOutside(s: seq<int>, t: seq<int>, lo: int, mid: int, hi: int, infinity: int)
    requires |s| == |t| && lo <= mid <= hi && SameOutside(s, t, lo, mid) && BelowSentinel(t, lo, hi, infinity)
    ensures BelowSentinel(s, mid, hi, infinity)
  {
  }

  /**
   * After both recursive calls of merge sort on a[p .. q] and a[q + 1 .. r], the two
   * halves are sorted and below the sentinel, and the array is a permutation of the
   * original that differs from it only inside [p, r].
   */
  lemma SortedHalves(s0: seq<int>, s1: seq<int>, s2: seq<int>, p: int, q: int, r: int, infinity: int)
    requires 0 <= p <= q < r < |s0| && |s1| == |s0| && |s2| == |s0|
    requires BelowSentinel(s0, p, r + 1, infinity)
    requires p < q ==> SortedRange(s1, p, q + 1)
    requires multiset(s1) == multiset(s0) && SameOutside(s1, s0, p, q + 1)
    requires q + 1 < r ==> SortedRange(s2, q + 1, r + 1)
    requires multiset(s2) == multiset(s1) && SameOutside(s2, s1, q + 1, r + 1)
    ensures SortedRange(s2, p, q + 1) && SortedRange(s2, q + 1, r + 1)
    ensures BelowSentinel(s2, p, r + 1, infinity)
    ensures multiset(s2) == multiset(s0) && SameOutside(s2, s0, p, r + 1)
  {
    RangePermutation(s1, s0, p, q + 1);
    BoundsKept(s1, s0, p, q + 1, infinity);
    RangePermutation(s2, s1, q + 1, r + 1);
    BoundsKept(s2, s1, q + 1, r + 1, infinity);
    OutsideTrans(s2, s1, s0, p, r + 1);
  }

  /** Permuting s2[lo .. hi) in place, after s2 permuted s0 inside [lo, hi), permutes s0 inside [lo, hi). */
  lemma Rejoined(s0: seq<int>, s2: seq<int>, s3: seq<int>, lo: int, hi: int)
    requires |s0| == |s2| == |s3| && 0 <= lo <= hi <= |s0|
    requires multiset(s2) == multiset(s0) && SameOutside(s2, s0, lo, hi)
    requires multiset(s3[lo..hi]) == multiset(s2[lo..hi]) && SameOutside(s3, s2, lo, hi)
    ensures multiset(s3) == multiset(s0) && SameOutside(s3, s0, lo, hi)
  {
    RangeRestored(s3, s2, lo, hi);
    OutsideTrans(s3, s2, s0, lo, hi);
  }

  /**
   * Merge sort over the inclusive range a[p .. r]: afterwards a[p .. r] is sorted, the
   * whole array is a permutation of its old contents and nothing outside the range changed.
   */
  method MergSort(a: array<int>, p: int, r: int, infinity: int)
    requires p < r ==> 0 <= p && r < a.Length
    requires BelowSentinel(a[..], p, r + 1, infinity)
    modifies a
    ensures p < r ==> SortedRange(a[..], p, r + 1)
    ensures multiset(a[..]) == multiset(old(a[..]))
    ensures SameOutside(a[..], old(a[..]), p, r + 1)
    decreases r - p
  {
    if p >= r {
      return;
    }
    var q := (p + r) / 2;
    ghost var s0 := a[..];
    MergSort(a, p, q, infinity);
    ghost var s1 := a[..];
    SentinelOutside(s1, s0, p, q + 1, r + 1, infinity);
    MergSort(a, q + 1, r, infinity);
    ghost var s2 := a[..];
    SortedHalves(s0, s1, s2, p, q, r, infinity);
    Merg(a, p, q, r, infinity);
    Rejoined(s0, s2, a[..], p, r + 1);
  }
}
