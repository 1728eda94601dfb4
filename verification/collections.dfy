/** Small facts about sequences that several algorithms share. */
module Collections {

  /** No value occurs twice. */
  predicate Distinct<T(==)>(s: seq<T>) {
    forall i, j :: 0 <= i < j < |s| ==> s[i] != s[j]
  }

  /** The number of occurrences of x in s. */
  function Occurrences<T(==)>(s: seq<T>, x: T): (c: nat)
    ensures c <= |s|
    ensures c == 0 <==> x !in s
  {
    if s == [] then 0
    else Occurrences(s[..|s| - 1], x) + (if s[|s| - 1] == x then 1 else 0)
  }

  /** The integers 0 .. n-1 in ascending order. */
  function Range(n: nat): (r: seq<int>)
    ensures |r| == n
    ensures forall i :: 0 <= i < n ==> r[i] == i
  {
    seq(n, i => i)
  }

  lemma RangeMembers(n: nat)
    ensures forall v :: v in Range(n) <==> 0 <= v < n
  {
    forall v | 0 <= v < n
      ensures v in Range(n)
    {
      assert Range(n)[v] == v;
    }
  }

  lemma {:induction false} DistinctSetSize<T>(s: seq<T>)
    requires Distinct(s)
    ensures |set x | x in s| == |s|
  {
    if s != [] {
      var k := |s| - 1;
      DistinctSetSize(s[..k]);
      assert (set x | x in s) == (set x | x in s[..k]) + {s[k]};
      assert s[k] !in s[..k];
    }
  }

  /** Pigeonhole: distinct integers drawn from 0 .. n-1 number at most n. */
  lemma DistinctBounded(s: seq<int>, n: nat)
    requires Distinct(s)
    requires forall i :: 0 <= i < |s| ==> 0 <= s[i] < n
    ensures |s| <= n
  {
    DistinctSetSize(s);
    DistinctSetSize(Range(n));
    forall x | x in s
      ensures x in Range(n)
    {
      assert Range(n)[x] == x;
    }
    SubsetSize(set x | x in s, set x | x in Range(n));
  }

  lemma {:induction false} SubsetSize<T>(a: set<T>, b: set<T>)
    requires a <= b
    ensures |a| <= |b|
    decreases |a|
  {
    if a != {} {
      var x :| x in a;
      SubsetSize(a - {x}, b - {x});
    }
  }

  /** A subset as large as its superset is the superset. */
  lemma SubsetEqualSize<T>(a: set<T>, b: set<T>)
    requires a <= b && |a| == |b|
    ensures a == b
  {
    assert b == a + (b - a);
    assert a * (b - a) == {};
    assert |b - a| == 0;
  }

  lemma {:induction false} OccurrencesConcat<T>(a: seq<T>, b: seq<T>, x: T)
    ensures Occurrences(a + b, x) == Occurrences(a, x) + Occurrences(b, x)
    decreases |b|
  {
    if b != [] {
      var k := |b| - 1;
      assert (a + b)[..|a + b| - 1] == a + b[..k];
      assert (a + b)[|a + b| - 1] == b[k];
      OccurrencesConcat(a, b[..k], x);
    } else {
      assert a + b == a;
    }
  }

  /** Extending a prefix by one element adds one occurrence exactly when that element is x. */
  lemma OccurrencesStep<T>(s: seq<T>, i: int, x: T)
    requires 0 <= i < |s|
    ensures Occurrences(s[..i + 1], x) == Occurrences(s[..i], x) + (if s[i] == x then 1 else 0)
  {
    assert s[..i + 1][..i] == s[..i];
  }

  /** The multiset of s counts x as often as Occurrences does. */
  lemma {:induction false} OccurrencesMultiset<T>(s: seq<T>, x: T)
    ensures multiset(s)[x] == Occurrences(s, x)
    decreases |s|
  {
    if s != [] {
      var k := |s| - 1;
      assert s == s[..k] + [s[k]];
      OccurrencesMultiset(s[..k], x);
    }
  }

  /** The integers lo .. hi-1 in ascending order. */
  function Span(lo: int, hi: int): (r: seq<int>)
    requires lo <= hi
    ensures |r| == hi - lo
    ensures forall i :: 0 <= i < |r| ==> r[i] == lo + i
  {
    seq(hi - lo, i => lo + i)
  }

  lemma SpanMembers(lo: int, hi: int)
    requires lo <= hi
    ensures forall x :: x in Span(lo, hi) <==> lo <= x < hi
  {
    forall x | lo <= x < hi
      ensures x in Span(lo, hi)
    {
      assert Span(lo, hi)[x - lo] == x;
    }
  }

  lemma SpanFront(lo: int, hi: int)
    requires lo < hi
    ensures Span(lo, hi) == [lo] + Span(lo + 1, hi)
    ensures multiset(Span(lo, hi)) - multiset{lo} == multiset(Span(lo + 1, hi))
  {
    assert Span(lo, hi) == [lo] + Span(lo + 1, hi);
  }

  function Sum(s: seq<int>): int {
    if s == [] then 0 else Sum(s[..|s| - 1]) + s[|s| - 1]
  }

  lemma {:induction false} SumConcat(a: seq<int>, b: seq<int>)
    ensures Sum(a + b) == Sum(a) + Sum(b)
    decreases |b|
  {
    if b == [] {
      assert a + b == a;
    } else {
      var k := |b| - 1;
      assert (a + b)[..|a + b| - 1] == a + b[..k];
      SumConcat(a, b[..k]);
    }
  }

  /**
   * If a[i] - b[i] - w[i] is never negative, then neither is Sum(a) - Sum(b) - Sum(w),
   * and it is positive when one of the terms is.
   */
  lemma {:induction false} SumGap(a: seq<int>, b: seq<int>, w: seq<int>, j: int)
    requires |a| == |b| == |w|
    requires forall i :: 0 <= i < |a| ==> a[i] - b[i] - w[i] >= 0
    ensures Sum(a) - Sum(b) - Sum(w) >= 0
    ensures 0 <= j < |a| && a[j] - b[j] - w[j] > 0 ==> Sum(a) - Sum(b) - Sum(w) > 0
  {
    if a != [] {
      var k := |a| - 1;
      SumGap(a[..k], b[..k], w[..k], j);
    }
  }

  /** Rotating a sequence by one place keeps its sum. */
  lemma RotatedSum(a: seq<int>)
    requires |a| >= 1
    ensures Sum([a[|a| - 1]] + a[..|a| - 1]) == Sum(a)
  {
    var k := |a| - 1;
    SumConcat([a[k]], a[..k]);
    assert Sum([a[k]]) == a[k];
    assert a == a[..k] + [a[k]];
  }
}
