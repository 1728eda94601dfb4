/**
 * The comparison sorts that work in place on the first `size` elements of an array:
 * the exchange utility, selection, insertion and bubble sort. Elements are
 * specialised to int; every sort leaves a[0 .. size) as a non-decreasing
 * permutation of its old contents and the elements from index size on untouched.
 */
module Sorts {
  /** s[lo .. hi) is in non-decreasing order. */
  ghost predicate SortedRange(s: seq<int>, lo: int, hi: int)
    requires 0 <= lo && hi <= |s|
  {
    forall i, j :: lo <= i < j < hi ==> s[i] <= s[j]
  }

  /** Every element of s[lo .. mid) is at most every element of s[mid .. hi). */
  ghost predicate Below(s: seq<int>, lo: int, mid: int, hi: int)
    requires 0 <= lo <= mid <= hi <= |s|
  {
    forall x, y :: lo <= x < mid <= y < hi ==> s[x] <= s[y]
  }

  /** The elements from index `from` on are those of t. */
  ghost predicate SameFrom(s: seq<int>, t: seq<int>, from: int)
    requires |s| == |t|
  {
    forall k :: 0 <= from <= k < |s| ==> s[k] == t[k]
  }

  /** A permutation of the whole array that keeps its elements from index size on also permutes a[0 .. size). */
  lemma PrefixPermutation(s: seq<int>, t: seq<int>, size: nat)
    requires |s| == |t| && size <= |s|
    requires multiset(s) == multiset(t) && SameFrom(s, t, size)
    ensures multiset(s[..size]) == multiset(t[..size])
  {
    assert s[size..] == t[size..];
    assert s == s[..size] + s[size..];
    assert t == t[..size] + t[size..];
    calc {
      multiset(s[..size]);
      multiset(s) - multiset(s[size..]);
      multiset(t) - multiset(t[size..]);
      multiset(t[..size]);
    }
  }

  /** The elements outside [lo, hi) are those of t. */
  ghost predicate SameOutside(s: seq<int>, t: seq<int>, lo: int, hi: int)
    requires |s| == |t|
  {
    forall k :: 0 <= k < |s| && (k < lo || hi <= k) ==> s[k] == t[k]
  }

  /** A permutation of the whole array that keeps everything outside [lo, hi) permutes s[lo .. hi). */
  lemma RangePermutation(s: seq<int>, t: seq<int>, lo: int, hi: int)
    requires |s| == |t| && 0 <= lo <= hi <= |s|
    requires multiset(s) == multiset(t) && SameOutside(s, t, lo, hi)
    ensures multiset(s[lo..hi]) == multiset(t[lo..hi])
  {
    SplitThree(s, lo, hi);
    SplitThree(t, lo, hi);
    SameSlice(s, t, 0, lo);
    SameSlice(s, t, hi, |s|);
    assert s[..lo] == t[..lo] && s[hi..] == t[hi..];
    calc {
      multiset(s[lo..hi]);
      multiset(s) - multiset(s[..lo]) - multiset(s[hi..]);
      multiset(t) - multiset(t[..lo]) - multiset(t[hi..]);
      multiset(t[lo..hi]);
    }
  }

  /** Conversely, permuting s[lo .. hi) and keeping everything outside it permutes the whole sequence. */
  lemma RangeRestored(s: seq<int>, t: seq<int>, lo: int, hi: int)
    requires |s| == |t| && 0 <= lo <= hi <= |s|
    requires multiset(s[lo..hi]) == multiset(t[lo..hi]) && SameOutside(s, t, lo, hi)
    ensures multiset(s) == multiset(t)
  {
    SplitThree(s, lo, hi);
    SplitThree(t, lo, hi);
    SameSlice(s, t, 0, lo);
    SameSlice(s, t, hi, |s|);
    assert s[..lo] == t[..lo] && s[hi..] == t[hi..];
  }

  /** Two changes inside [lo, hi) leave everything outside it as it was. */
  lemma OutsideTrans(s: seq<int>, t: seq<int>, u: seq<int>, lo: int, hi: int)
    requires |s| == |t| == |u|
    requires SameOutside(s, t, lo, hi)
    requires forall k :: 0 <= k < |t| && (k < lo || hi <= k) ==> t[k] == u[k]
    ensures SameOutside(s, u, lo, hi)
  {
  }

  /** A write inside [lo, hi) keeps everything outside it. */
  lemma WrittenInside(s: seq<int>, t: seq<int>, lo: int, hi: int, k: int, v: int)
    requires |s| == |t| && lo <= k < hi && 0 <= k < |s| && SameOutside(s, t, lo, hi)
    ensures SameOutside(s[k := v], t, lo, hi)
  {
  }

  /** Every element of a permuted slice comes from the original slice. */
  lemma ValueFrom(s: seq<int>, t: seq<int>, lo: int, hi: int, k: int) returns (j: int)
    requires 0 <= lo <= k < hi <= |s| && hi <= |t|
    requires multiset(s[lo..hi]) == multiset(t[lo..hi])
    ensures lo <= j < hi && s[k] == t[j]
  {
    assert s[k] == s[lo..hi][k - lo];
    assert s[k] in multiset(t[lo..hi]);
    var i :| 0 <= i < hi - lo && t[lo..hi][i] == s[k];
    j := lo + i;
  }

  /** Permuting s[lo .. hi) keeps every bound its elements had: below v, at most v, above v. */
  lemma BoundsKept(s: seq<int>, t: seq<int>, lo: int, hi: int, v: int)
    requires 0 <= lo <= hi <= |s| && hi <= |t|
    requires multiset(s[lo..hi]) == multiset(t[lo..hi])
    ensures (forall k :: lo <= k < hi ==> t[k] < v) ==> forall k :: lo <= k < hi ==> s[k] < v
    ensures (forall k :: lo <= k < hi ==> t[k] <= v) ==> forall k :: lo <= k < hi ==> s[k] <= v
    ensures (forall k :: lo <= k < hi ==> t[k] > v) ==> forall k :: lo <= k < hi ==> s[k] > v
  {
    forall k | lo <= k < hi
      ensures exists j :: lo <= j < hi && s[k] == t[j]
    {
      var j := ValueFrom(s, t, lo, hi, k);
    }
  }

  /** Exchanges a[i] and a[j]. */
  method Swap(a: array<int>, i: int, j: int)
    requires 0 <= i < a.Length && 0 <= j < a.Length
    modifies a
    ensures a[..] == old(a[..])[i := old(a[j])][j := old(a[i])]
    ensures multiset(a[..]) == multiset(old(a[..]))
  {
    var temp := a[i];
    a[i] := a[j];
    a[j] := temp;
  }

  /** The inner loop of selection sort: the first index of a minimum of a[i .. size). */
  method MinIndex(a: array<int>, i: nat, size: nat) returns (smallest: nat)
    requires i < size <= a.Length
    ensures i <= smallest < size
    ensures forall k :: i <= k < size ==> a[smallest] <= a[k]
    ensures forall k :: i <= k < smallest ==> a[smallest] < a[k]
  {
    smallest := i;
    var j := i + 1;
    while j < size
      invariant i <= smallest < j <= size
      invariant forall k :: i <= k < j ==> a[smallest] <= a[k]
      invariant forall k :: i <= k < smallest ==> a[smallest] < a[k]
    {
      if a[j] < a[smallest] {
        smallest := j;
      }
      j := j + 1;
    }
  }

  /** Selection sort: position i receives a minimum of a[i .. size), for i from 0 to size - 2. */
  method Selection(a: array<int>, size: nat)
    requires size <= a.Length
    modifies a
    ensures SortedRange(a[..], 0, size)
    ensures multiset(a[..]) == multiset(old(a[..]))
    ensures multiset(a[..size]) == multiset(old(a[..size]))
    ensures SameFrom(a[..], old(a[..]), size)
  {
    var i := 0;
    while i < size - 1
      invariant 0 <= i <= size
      invariant SortedRange(a[..], 0, i) && Below(a[..], 0, i, size)
      invariant multiset(a[..]) == multiset(old(a[..]))
      invariant SameFrom(a[..], old(a[..]), size)
    {
      var smallest := MinIndex(a, i, size);
      ghost var before := a[..];
      Swap(a, i, smallest);
      Selected(before, a[..], i, smallest, size);
      i := i + 1;
    }
    PrefixPermutation(a[..], old(a[..]), size);
  }

  /**
   * One round of selection sort: exchanging a minimum of s[i .. size) into position i
   * extends the sorted prefix, which stays below the rest, and keeps s from size on.
   */
  lemma Selected(s: seq<int>, t: seq<int>, i: nat, m: nat, size: nat)
    requires i <= m < size <= |s| && t == s[i := s[m]][m := s[i]]
    requires SortedRange(s, 0, i) && Below(s, 0, i, size)
    requires forall k :: i <= k < size ==> s[m] <= s[k]
    ensures SortedRange(t, 0, i + 1) && Below(t, 0, i + 1, size)
    ensures forall k :: size <= k < |s| ==> t[k] == s[k]
  {
  }

  /**
   * One step of insertion sort: a[i] is inserted into the sorted a[0 .. i) by
   * shifting the larger elements one place up.
   */
  method InsertStep(a: array<int>, i: nat)
    requires 1 <= i < a.Length && SortedRange(a[..], 0, i)
    modifies a
    ensures SortedRange(a[..], 0, i + 1)
    ensures multiset(a[..]) == multiset(old(a[..]))
    ensures SameFrom(a[..], old(a[..]), i + 1)
  {
    ghost var before := a[..];
    var key := a[i];
    var j := i - 1;
    while j >= 0 && a[j] > key
      invariant -1 <= j < i
      invariant forall k :: 0 <= k <= j + 1 ==> a[k] == before[k]
      invariant forall k :: j + 2 <= k <= i ==> a[k] == before[k - 1] && a[k] > key
      invariant SameFrom(a[..], before, i + 1)
    {
      ShiftUp(a, i, j, key, before);
      j := j - 1;
    }
    a[j + 1] := key;
    Inserted(before, a[..], i, j);
  }

  /** One shift of insertion: a[j], which exceeds key, moves up to a[j + 1]. */
  method ShiftUp(a: array<int>, i: nat, j: nat, key: int, ghost before: seq<int>)
    requires j < i < a.Length && |before| == a.Length && a[j] > key
    requires forall k :: 0 <= k <= j + 1 ==> a[k] == before[k]
    requires forall k :: j + 2 <= k <= i ==> a[k] == before[k - 1] && a[k] > key
    requires SameFrom(a[..], before, i + 1)
    modifies a
    ensures forall k :: 0 <= k <= j ==> a[k] == before[k]
    ensures forall k :: j + 1 <= k <= i ==> a[k] == before[k - 1] && a[k] > key
    ensures SameFrom(a[..], before, i + 1)
  {
    a[j + 1] := a[j];
  }

  /**
   * The arrangement insertion leaves: s is before with before[i] placed at j + 1 and
   * before[j + 1 .. i) shifted one place up, all of which exceed it.
   */
  lemma Inserted(before: seq<int>, s: seq<int>, i: nat, j: int)
    requires |before| == |s| && 1 <= i < |s| && -1 <= j < i && SortedRange(before, 0, i)
    requires forall k :: 0 <= k <= j ==> s[k] == before[k]
    requires s[j + 1] == before[i]
    requires forall k :: j + 2 <= k <= i ==> s[k] == before[k - 1] && s[k] > before[i]
    requires SameFrom(s, before, i + 1)
    requires j >= 0 ==> before[j] <= before[i]
    ensures SortedRange(s, 0, i + 1)
    ensures multiset(s) == multiset(before)
  {
    SameSlice(s, before, 0, j + 1);
    SameSlice(s, before, i + 1, |s|);
    ShiftedSlice(before, s, i, j);
    InsertedPermutation(before, s, i, j);
  }

  /** Moving before[i] down to j + 1 and shifting before[j + 1 .. i) up permutes before. */
  lemma InsertedPermutation(before: seq<int>, s: seq<int>, i: nat, j: int)
    requires |before| == |s| && i < |s| && -1 <= j < i
    requires s[..j + 1] == before[..j + 1] && s[i + 1..] == before[i + 1..]
    requires s[j + 1..i + 1] == [before[i]] + before[j + 1..i]
    ensures multiset(s) == multiset(before)
  {
    SplitThree(s, j + 1, i + 1);
    SplitThree(before, j + 1, i + 1);
    var x, moved := before[i], before[j + 1..i];
    assert before[j + 1..i + 1] == moved + [x];
    calc {
      multiset(s[j + 1..i + 1]);
      multiset([x] + moved);
      multiset([x]) + multiset(moved);
      multiset(moved + [x]);
      multiset(before[j + 1..i + 1]);
    }
  }

  /** Two sequences that agree on [lo, hi) have the same slice there. */
  lemma SameSlice(s: seq<int>, t: seq<int>, lo: int, hi: int)
    requires 0 <= lo <= hi <= |s| && hi <= |t|
    requires forall k :: lo <= k < hi ==> s[k] == t[k]
    ensures s[lo..hi] == t[lo..hi]
  {
  }

  /** The middle slice insertion leaves: before[i] followed by before[j + 1 .. i). */
  lemma ShiftedSlice(before: seq<int>, s: seq<int>, i: nat, j: int)
    requires |before| == |s| && i < |s| && -1 <= j < i
    requires s[j + 1] == before[i]
    requires forall k :: j + 2 <= k <= i ==> s[k] == before[k - 1]
    ensures s[j + 1..i + 1] == [before[i]] + before[j + 1..i]
  {
  }

  /** The multiset of s is the sum of those of three consecutive slices. */
  lemma SplitThree(s: seq<int>, m: int, n: int)
    requires 0 <= m <= n <= |s|
    ensures multiset(s) == multiset(s[..m]) + multiset(s[m..n]) + multiset(s[n..])
  {
    assert s == s[..m] + s[m..n] + s[n..];
  }

  /** Insertion sort: a[0 .. i) is sorted after step i - 1. */
  method Insertion(a: array<int>, size: nat)
    requires size <= a.Length
    modifies a
    ensures SortedRange(a[..], 0, size)
    ensures multiset(a[..]) == multiset(old(a[..]))
    ensures multiset(a[..size]) == multiset(old(a[..size]))
    ensures SameFrom(a[..], old(a[..]), size)
  {
    var i := 1;
    while i < size
      invariant 1 <= i && (size >= 1 ==> i <= size)
      invariant SortedRange(a[..], 0, if i <= size then i else size)
      invariant multiset(a[..]) == multiset(old(a[..]))
      invariant SameFrom(a[..], old(a[..]), size)
    {
      InsertStep(a, i);
      i := i + 1;
    }
    PrefixPermutation(a[..], old(a[..]), size);
  }

  /** The boundary after j passes of bubble sort over a[0 .. size): the last j places are settled. */
  function Boundary(size: nat, j: nat): (b: nat)
    ensures b <= size && (j <= size ==> b + j == size) && (j > size ==> b == 0)
  {
    if j <= size then size - j else 0
  }

  /** s[b .. size) holds the largest elements of s[0 .. size), in order. */
  ghost predicate Settled(s: seq<int>, size: nat, b: nat)
    requires b <= size <= |s|
  {
    SortedRange(s, b, size) && Below(s, 0, b, size)
  }

  /** Two sorted ranges, the first below the second, make one sorted range. */
  lemma JoinSorted(s: seq<int>, lo: int, mid: int, hi: int)
    requires 0 <= lo <= mid <= hi <= |s|
    requires SortedRange(s, lo, mid) && SortedRange(s, mid, hi) && Below(s, lo, mid, hi)
    ensures SortedRange(s, lo, hi)
  {
  }

  /**
   * The state of a bubble-sort pass before comparison i: the suffix from b is settled,
   * s[i] is a maximum of s[0 .. i], and if nothing was exchanged so far s[0 .. i] is sorted.
   */
  ghost predicate PassState(s: seq<int>, size: nat, b: nat, i: nat, sorted: bool)
    requires b <= size <= |s|
  {
    && Settled(s, size, b)
    && (i < b ==> (forall k :: 0 <= k <= i ==> s[k] <= s[i]) && (sorted ==> SortedRange(s, 0, i + 1)))
  }

  /** One comparison of a pass, exchanging s[i] and s[i + 1] when they are out of order, keeps the pass state. */
  lemma PassStep(s: seq<int>, t: seq<int>, size: nat, b: nat, i: nat, sorted: bool, exchanged: bool)
    requires b <= size <= |s| && i + 1 < b && PassState(s, size, b, i, sorted)
    requires exchanged == (s[i] > s[i + 1])
    requires t == if exchanged then s[i := s[i + 1]][i + 1 := s[i]] else s
    ensures PassState(t, size, b, i + 1, sorted && !exchanged)
  {
  }

  /**
   * At the end of a pass the maximum of s[0 .. b) sits at b - 1, so one more place is
   * settled, and a pass without exchanges leaves the whole prefix sorted.
   */
  lemma PassEnd(s: seq<int>, size: nat, b: nat, sorted: bool)
    requires 1 <= b <= size <= |s| && PassState(s, size, b, b - 1, sorted)
    ensures Settled(s, size, b - 1)
    ensures sorted ==> SortedRange(s, 0, size)
  {
    if sorted {
      JoinSorted(s, 0, b, size);
    }
  }

  /**
   * Pass j of bubble sort: adjacent out-of-order pairs of a[0 .. size - j] are exchanged,
   * which carries a maximum of that range to its end. A pass without exchanges finds
   * the whole prefix sorted; a pass with one had at least one pair to compare.
   */
  method BubblePass(a: array<int>, size: nat, j: nat) returns (swapped: bool)
    requires size <= a.Length && 1 <= j && Settled(a[..], size, Boundary(size, j - 1))
    modifies a
    ensures Settled(a[..], size, Boundary(size, j))
    ensures !swapped ==> SortedRange(a[..], 0, size)
    ensures swapped ==> j < size
    ensures multiset(a[..]) == multiset(old(a[..]))
    ensures SameFrom(a[..], old(a[..]), size)
  {
    swapped := false;
    var i := 0;
    ghost var b := Boundary(size, j - 1);
    while i < size - j
      invariant 0 <= i && (j <= size ==> i + 1 <= b)
      invariant PassState(a[..], size, b, i, !swapped)
      invariant swapped ==> j < size
      invariant multiset(a[..]) == multiset(old(a[..]))
      invariant SameFrom(a[..], old(a[..]), size)
    {
      swapped := PassCompare(a, size, b, i, swapped, old(a[..]));
      i := i + 1;
    }
    if j <= size {
      PassEnd(a[..], size, b, !swapped);
    }
  }

  /** One comparison of a pass: a[i] and a[i + 1] are exchanged when out of order, and the flag records it. */
  method PassCompare(a: array<int>, size: nat, ghost b: nat, i: nat, swapped: bool, ghost orig: seq<int>)
    returns (swapped': bool)
    requires b <= size <= a.Length && i + 1 < b && |orig| == a.Length
    requires PassState(a[..], size, b, i, !swapped)
    requires multiset(a[..]) == multiset(orig) && SameFrom(a[..], orig, size)
    modifies a
    ensures swapped ==> swapped'
    ensures PassState(a[..], size, b, i + 1, !swapped')
    ensures multiset(a[..]) == multiset(orig) && SameFrom(a[..], orig, size)
  {
    ghost var s := a[..];
    var exchanged := CompareExchange(a, i);
    PassStep(s, a[..], size, b, i, !swapped, exchanged);
    swapped' := swapped || exchanged;
  }

  /** The body of a bubble-sort pass: a[i] and a[i + 1] are exchanged when out of order. */
  method CompareExchange(a: array<int>, i: nat) returns (exchanged: bool)
    requires i + 1 < a.Length
    modifies a
    ensures exchanged == (old(a[i]) > old(a[i + 1]))
    ensures a[..] == if exchanged then old(a[..])[i := old(a[i + 1])][i + 1 := old(a[i])] else old(a[..])
    ensures multiset(a[..]) == multiset(old(a[..]))
  {
    exchanged := false;
    if a[i] > a[i + 1] {
      Swap(a, i, i + 1);
      exchanged := true;
    }
  }

  /** Bubble sort: passes 1, 2, ... until a pass makes no exchange. */
  method Bubble(a: array<int>, size: nat)
    requires size <= a.Length
    modifies a
    ensures SortedRange(a[..], 0, size)
    ensures multiset(a[..]) == multiset(old(a[..]))
    ensures multiset(a[..size]) == multiset(old(a[..size]))
    ensures SameFrom(a[..], old(a[..]), size)
  {
    var swapped := true;
    var j := 0;
    while swapped
      invariant swapped ==> j <= size
      invariant Settled(a[..], size, Boundary(size, j))
      invariant !swapped ==> SortedRange(a[..], 0, size)
      invariant multiset(a[..]) == multiset(old(a[..]))
      invariant SameFrom(a[..], old(a[..]), size)
      decreases if swapped then size + 1 - j else 0
    {
      j := j + 1;
      swapped := BubblePass(a, size, j);
    }
    PrefixPermutation(a[..], old(a[..]), size);
  }
}
