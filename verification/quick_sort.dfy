/**
 * Quicksort over the half-open range a[p .. r), partitioning around the pivot a[r - 1]
 * with the single left-to-right scan.
 */
module QuickSorts {
  import opened Sorts

  /**
   * The state of the partition scan before index u: s[p .. q) is at most the pivot
   * s[r - 1] and s[q .. u) is greater than it.
   */
  ghost predicate Scanned(s: seq<int>, p: int, q: int, u: int, r: int)
    requires 0 <= p <= q <= u < r <= |s|
  {
    && (forall k :: p <= k < q ==> s[k] <= s[r - 1])
    && (forall k :: q <= k < u ==> s[k] > s[r - 1])
  }

  /** One scan step: an element at most the pivot is exchanged to the end of the low part. */
  lemma ScanStep(s: seq<int>, p: int, q: int, u: int, r: int)
    requires 0 <= p <= q <= u < r - 1 && r <= |s| && Scanned(s, p, q, u, r)
    ensures s[u] <= s[r - 1] ==> Scanned(s[u := s[q]][q := s[u]], p, q + 1, u + 1, r)
    ensures s[u] > s[r - 1] ==> Scanned(s, p, q, u + 1, r)
  {
  }

  /** The final exchange puts the pivot between the two parts. */
  lemma PivotPlaced(s: seq<int>, p: int, q: int, r: int)
    requires 0 <= p <= q <= r - 1 && r <= |s| && Scanned(s, p, q, r - 1, r)
    ensures var t := s[q := s[r - 1]][r - 1 := s[q]];
      && t[q] == s[r - 1]
      && (forall k :: p <= k < q ==> t[k] <= t[q])
      && (forall k :: q < k < r ==> t[k] > t[q])
  {
  }

  /**
   * Partition of a[p .. r) around the old a[r - 1]: the pivot lands at the returned
   * index q, everything before it in the range is at most the pivot and everything
   * after it is greater. The range is permuted and nothing outside it changes.
   */
  method Partition(a: array<int>, p: int, r: int) returns (q: int)
    requires 0 <= p < r <= a.Length
    modifies a
    ensures p <= q < r && a[q] == old(a[r - 1])
    ensures forall k :: p <= k < q ==> a[k] <= a[q]
    ensures forall k :: q < k < r ==> a[k] > a[q]
    ensures multiset(a[..]) == multiset(old(a[..]))
    ensures SameOutside(a[..], old(a[..]), p, r)
  {
    q := p;
    for u := p to r - 1
      invariant p <= q <= u && a[r - 1] == old(a[r - 1])
      invariant Scanned(a[..], p, q, u, r)
      invariant multiset(a[..]) == multiset(old(a[..]))
      invariant SameOutside(a[..], old(a[..]), p, r)
    {
      q := ScanOne(a, p, q, u, r, old(a[..]));
    }
    PivotPlaced(a[..], p, q, r);
    ghost var s := a[..];
    Swap(a, q, r - 1);
    WrittenInside(s, old(a[..]), p, r, q, s[r - 1]);
    WrittenInside(s[q := s[r - 1]], old(a[..]), p, r, r - 1, s[q]);
  }

  /** The body of the partition scan: a[u], if at most the pivot, is exchanged to the end of the low part. */
  method ScanOne(a: array<int>, p: int, q: int, u: int, r: int, ghost orig: seq<int>) returns (q': int)
    requires 0 <= p <= q <= u < r - 1 && r <= a.Length && Scanned(a[..], p, q, u, r)
    requires |orig| == a.Length && SameOutside(a[..], orig, p, r)
    modifies a
    ensures q <= q' <= q + 1 && a[r - 1] == old(a[r - 1])
    ensures Scanned(a[..], p, q', u + 1, r)
    ensures multiset(a[..]) == multiset(old(a[..]))
    ensures SameOutside(a[..], orig, p, r)
  {
    ScanStep(a[..], p, q, u, r);
    q' := q;
    if a[u] <= a[r - 1] {
      ghost var s := a[..];
      Swap(a, u, q);
      WrittenInside(s, orig, p, r, u, s[q]);
      WrittenInside(s[u := s[q]], orig, p, r, q, s[u]);
      q' := q + 1;
    }
  }

  /**
   * Quicksort over a[p .. r): the range ends sorted, the array is a permutation of its
   * old contents and nothing outside the range changes. Both recursive calls work on
   * strictly shorter ranges, since the pivot position q lies in [p, r).
   */
  method Quick(a: array<int>, p: int, r: int)
    requires p < r ==> 0 <= p && r <= a.Length
    modifies a
    ensures p < r ==> SortedRange(a[..], p, r)
    ensures multiset(a[..]) == multiset(old(a[..]))
    ensures SameOutside(a[..], old(a[..]), p, r)
    decreases r - p
  {
    if p >= r {
      return;
    }
    var q := Partition(a, p, r);
    ghost var s1 := a[..];
    Quick(a, p, q);
    ghost var s2 := a[..];
    Quick(a, q + 1, r);
    PartsSorted(old(a[..]), s1, s2, a[..], p, q, r);
  }

  /**
   * After partitioning s0 into s1 and sorting both sides in place (s2, then s3), the
   * range [p, r) is sorted, and s3 is a permutation of s0 that differs from it only
   * inside the range.
   */
  lemma PartsSorted(s0: seq<int>, s1: seq<int>, s2: seq<int>, s3: seq<int>, p: int, q: int, r: int)
    requires |s1| == |s0| && |s2| == |s0| && |s3| == |s0| && 0 <= p <= q < r <= |s0|
    requires forall k :: p <= k < q ==> s1[k] <= s1[q]
    requires forall k :: q < k < r ==> s1[k] > s1[q]
    requires multiset(s1) == multiset(s0) && SameOutside(s1, s0, p, r)
    requires p < q ==> SortedRange(s2, p, q)
    requires multiset(s2) == multiset(s1) && SameOutside(s2, s1, p, q)
    requires q + 1 < r ==> SortedRange(s3, q + 1, r)
    requires multiset(s3) == multiset(s2) && SameOutside(s3, s2, q + 1, r)
    ensures SortedRange(s3, p, r)
    ensures multiset(s3) == multiset(s0) && SameOutside(s3, s0, p, r)
  {
    var pivot := s1[q];
    RangePermutation(s2, s1, p, q);
    BoundsKept(s2, s1, p, q, pivot);
    RangePermutation(s3, s2, q + 1, r);
    BoundsKept(s3, s2, q + 1, r, pivot);
    assert forall k :: p <= k < q ==> s3[k] <= pivot;
    assert s3[q] == pivot;
    assert forall k :: q < k < r ==> s3[k] > pivot;
    OutsideTrans(s3, s2, s1, p, r);
    OutsideTrans(s3, s1, s0, p, r);
  }
}
