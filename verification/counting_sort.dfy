/**
 * The sorts that count instead of comparing: the two-valued ReallySimpleSort and the
 * counting sort Count with its three phases COUNT-KEYS-EQUAL, COUNT-KEYS-LESS and
 * REARRANGE. Keys are ints in [0, range).
 */
module CountingSorts {
  import opened Collections
  import opened Sorts

  /** n copies of v. */
  function Repeat(v: int, n: nat): seq<int> {
    seq(n, _ => v)
  }

  lemma {:induction false} RepeatMultiset(v: int, n: nat)
    ensures multiset(Repeat(v, n)) == multiset{}[v := n]
  {
    if n > 0 {
      assert Repeat(v, n) == Repeat(v, n - 1) + [v];
      RepeatMultiset(v, n - 1);
    }
  }

  /** A sequence that holds x at every index is x repeated. */
  lemma {:induction false} AllOccurrences(s: seq<int>, x: int)
    requires Occurrences(s, x) == |s|
    ensures forall i :: 0 <= i < |s| ==> s[i] == x
    decreases |s|
  {
    if s != [] {
      var k := |s| - 1;
      assert Occurrences(s[..k], x) <= k;
      AllOccurrences(s[..k], x);
      assert forall i :: 0 <= i < k ==> s[..k][i] == s[i];
    }
  }

  // ---------------------------------------------------------------------------
  // ReallySimpleSort: every element is 1 or 2
  // ---------------------------------------------------------------------------

  predicate OnesAndTwos(s: seq<int>) {
    forall i :: 0 <= i < |s| ==> s[i] == 1 || s[i] == 2
  }

  /** k ones followed by n - k twos. */
  function OnesThenTwos(n: nat, k: nat): seq<int>
    requires k <= n
  {
    Repeat(1, k) + Repeat(2, n - k)
  }

  /** The first loop of ReallySimpleSort: the number of ones in a[0 .. size). */
  method CountOnes(a: array<int>, size: nat) returns (k: nat)
    requires size <= a.Length
    ensures k == Occurrences(a[..size], 1)
  {
    k := 0;
    for i := 0 to size
      invariant k == Occurrences(a[..i], 1)
    {
      assert a[..i + 1][..i] == a[..i];
      if a[i] == 1 {
        k := k + 1;
      }
    }
  }

  /**
   * ReallySimpleSort as written: the loop `i <= k` writes k + 1 ones. When the range
   * holds a 2 one of them is overwritten by a 1; when every element of the range is 1,
   * the write a[size] lands past the range, and it fails when size is the array length.
   */
  method ReallySimpleSortAsWritten(a: array<int>, size: nat) returns (failed: bool)
    requires size <= a.Length
    modifies a
    ensures var k := Occurrences(old(a[..size]), 1);
      && (failed <==> k == a.Length)
      && (failed ==> a[..] == old(a[..]))
      && (!failed && k < size ==> a[..] == OnesThenTwos(size, k + 1) + old(a[size..]))
      && (!failed && k == size ==> a[..] == OnesThenTwos(size + 1, size + 1) + old(a[size + 1..]))
  {
    var k := CountOnes(a, size);
    ghost var orig := a[..];
    assert k == Occurrences(orig[..size], 1) <= size;
    failed := WriteOnesAsWritten(a, k);
    if failed {
      AllOccurrences(orig[..size], 1);
      assert a[..] == orig by {
        assert forall j :: 0 <= j < a.Length ==> orig[..size][j] == orig[j];
      }
      return;
    }
    WriteTwos(a, k + 1, size);
    if k < size {
      Layout(a[..], orig, size, k + 1);
    } else {
      Layout(a[..], orig, size + 1, size + 1);
    }
  }

  /**
   * The first loop of ReallySimpleSort as written, `for (i = 0; i <= k; i++) a[i] = 1`:
   * it writes ones at 0 .. k, and fails on the write past the end when k is the length.
   */
  method WriteOnesAsWritten(a: array<int>, k: nat) returns (failed: bool)
    modifies a
    ensures failed <==> k >= a.Length
    ensures failed ==> forall j :: 0 <= j < a.Length ==> a[j] == 1
    ensures !failed ==> forall j :: 0 <= j < a.Length ==> a[j] == if j <= k then 1 else old(a[j])
  {
    var i := 0;
    while i <= k
      invariant 0 <= i <= k + 1 && i <= a.Length
      invariant forall j :: 0 <= j < i ==> a[j] == 1
      invariant forall j :: i <= j < a.Length ==> a[j] == old(a[j])
    {
      if i == a.Length {
        // a[i] is past the end of the array: the source throws here
        return true;
      }
      a[i] := 1;
      i := i + 1;
    }
    return false;
  }

  /** The second loop of ReallySimpleSort as written: twos at from .. size - 1. */
  method WriteTwos(a: array<int>, from: nat, size: nat)
    requires size <= a.Length
    modifies a
    ensures forall j :: 0 <= j < a.Length ==> a[j] == if from <= j < size then 2 else old(a[j])
  {
    var i := from;
    while i < size
      invariant from <= i && (i <= size || i == from)
      invariant forall j :: 0 <= j < a.Length ==> a[j] == if from <= j < i then 2 else old(a[j])
    {
      a[i] := 2;
      i := i + 1;
    }
  }

  /** The corrected ReallySimpleSort: k ones, then size - k twos, the rest untouched. */
  method ReallySimpleSort(a: array<int>, size: nat)
    requires size <= a.Length
    modifies a
    ensures a[..] == OnesThenTwos(size, Occurrences(old(a[..size]), 1)) + old(a[size..])
  {
    var k := CountOnes(a, size);
    assert k <= size;
    for i := 0 to k
      invariant forall j :: 0 <= j < i ==> a[j] == 1
      invariant forall j :: i <= j < a.Length ==> a[j] == old(a[j])
    {
      a[i] := 1;
    }
    for i := k to size
      invariant forall j :: 0 <= j < k ==> a[j] == 1
      invariant forall j :: k <= j < i ==> a[j] == 2
      invariant forall j :: i <= j < a.Length ==> a[j] == old(a[j])
    {
      a[i] := 2;
    }
    Layout(a[..], old(a[..]), size, k);
  }

  /** k ones, then twos up to size, then the old contents: that is OnesThenTwos(size, k) + orig[size..]. */
  lemma Layout(s: seq<int>, orig: seq<int>, size: nat, k: nat)
    requires |s| == |orig| && k <= size <= |s|
    requires forall j :: 0 <= j < k ==> s[j] == 1
    requires forall j :: k <= j < size ==> s[j] == 2
    requires forall j :: size <= j < |s| ==> s[j] == orig[j]
    ensures s == OnesThenTwos(size, k) + orig[size..]
  {
    var r := OnesThenTwos(size, k) + orig[size..];
    forall j | 0 <= j < |s|
      ensures s[j] == r[j]
    {
      if j >= size {
        assert r[j] == orig[size..][j - size];
      }
    }
  }

  /** In a sequence of ones and twos, the twos are what the ones leave. */
  lemma {:induction false} OnesPlusTwos(s: seq<int>)
    requires OnesAndTwos(s)
    ensures Occurrences(s, 1) + Occurrences(s, 2) == |s|
    decreases |s|
  {
    if s != [] {
      OnesPlusTwos(s[..|s| - 1]);
    }
  }

  /** The multiset of a sequence of ones and twos is fixed by its number of ones. */
  lemma OnesAndTwosMultiset(s: seq<int>)
    requires OnesAndTwos(s)
    ensures multiset(s) == multiset{}[1 := Occurrences(s, 1)][2 := |s| - Occurrences(s, 1)]
  {
    OnesPlusTwos(s);
    OccurrencesMultiset(s, 1);
    OccurrencesMultiset(s, 2);
    forall x | x != 1 && x != 2
      ensures multiset(s)[x] == 0
    {
      assert x !in s;
    }
  }

  /** The multiset of k ones followed by n - k twos. */
  lemma OnesThenTwosMultiset(n: nat, k: nat)
    requires k <= n
    ensures multiset(OnesThenTwos(n, k)) == multiset{}[1 := k][2 := n - k]
  {
    RepeatMultiset(1, k);
    RepeatMultiset(2, n - k);
  }

  /** The corrected sort leaves a sorted permutation of a range of ones and twos. */
  lemma ReallySimpleSortSorts(s: seq<int>)
    requires OnesAndTwos(s)
    ensures var r := OnesThenTwos(|s|, Occurrences(s, 1));
      SortedRange(r, 0, |s|) && multiset(r) == multiset(s)
  {
    OnesAndTwosMultiset(s);
    OnesThenTwosMultiset(|s|, Occurrences(s, 1));
  }

  /** As written, a range of ones and twos holding a 2 loses one 2 to an extra 1. */
  lemma AsWrittenLosesATwo(s: seq<int>)
    requires OnesAndTwos(s) && Occurrences(s, 1) < |s|
    ensures var r := OnesThenTwos(|s|, Occurrences(s, 1) + 1);
      multiset(r)[1] == multiset(s)[1] + 1 && multiset(r)[2] + 1 == multiset(s)[2]
  {
    var k := Occurrences(s, 1);
    OnesAndTwosMultiset(s);
    OnesThenTwosMultiset(|s|, k + 1);
    assert multiset(OnesThenTwos(|s|, k + 1))[1] == k + 1;
  }

  /** The smallest input that shows the lost 2: [2] becomes [1]. */
  lemma AsWrittenExample()
    ensures OnesThenTwos(1, Occurrences([2], 1) + 1) == [1]
  {
    assert [2][..0] == [];
  }

  // ---------------------------------------------------------------------------
  // Counting sort
  // ---------------------------------------------------------------------------

  /** Every key of s lies in [0, range). */
  predicate KeysIn(s: seq<int>, range: nat) {
    forall i :: 0 <= i < |s| ==> 0 <= s[i] < range
  }

  /** Counts(s, range)[j] is the number of keys of s equal to j. */
  function Counts(s: seq<int>, range: nat): seq<nat> {
    seq(range, j => Occurrences(s, j))
  }

  /** The sorted sequence holding c[v] copies of each value v, smallest first. */
  function Expand(c: seq<nat>): seq<int> {
    if c == [] then [] else Expand(c[..|c| - 1]) + Repeat(|c| - 1, c[|c| - 1])
  }

  /** The output index Count gives key s[i]: the keys less than it, then its earlier copies. */
  function Place(s: seq<int>, range: nat, i: int): (p: int)
    requires KeysIn(s, range) && 0 <= i < |s|
    ensures 0 <= p < |s|
  {
    PlaceBound(s, range, i);
    Sum(Counts(s, range)[..s[i]]) + Occurrences(s[..i], s[i])
  }

  lemma SumStep(c: seq<int>, j: int)
    requires 0 <= j < |c|
    ensures Sum(c[..j + 1]) == Sum(c[..j]) + c[j]
  {
    assert c[..j + 1][..j] == c[..j];
  }

  /** Prefix sums of counts never decrease. */
  lemma {:induction false} SumMono(c: seq<nat>, i: int, j: int)
    requires 0 <= i <= j <= |c|
    ensures Sum(c[..i]) <= Sum(c[..j])
    decreases j - i
  {
    if i < j {
      SumStep(c, j - 1);
      SumMono(c, i, j - 1);
    }
  }

  /** Adding one to an entry adds one to the sum. */
  lemma {:induction false} SumBump(b: seq<int>, x: int)
    requires 0 <= x < |b|
    ensures Sum(b[x := b[x] + 1]) == Sum(b) + 1
    decreases |b|
  {
    var n := |b| - 1;
    var t := b[x := b[x] + 1];
    if x == n {
      assert t[..n] == b[..n];
    } else {
      assert t[..n] == b[..n][x := b[x] + 1];
      SumBump(b[..n], x);
    }
  }

  /** The counts of a range of keys add up to its length. */
  lemma {:induction false} SumCounts(s: seq<int>, range: nat)
    requires KeysIn(s, range)
    ensures Sum(Counts(s, range)) == |s|
    decreases |s|, range
  {
    if s == [] {
      if range > 0 {
        assert Counts(s, range) == Counts(s, range - 1) + [0];
        SumConcat(Counts(s, range - 1), [0]);
        assert Sum([0]) == 0;
        SumCounts(s, range - 1);
      }
    } else {
      var n := |s| - 1;
      var b := Counts(s[..n], range);
      assert Counts(s, range) == b[s[n] := b[s[n]] + 1];
      SumBump(b, s[n]);
      SumCounts(s[..n], range);
    }
  }

  lemma {:induction false} ExpandLength(c: seq<nat>)
    ensures |Expand(c)| == Sum(c)
    decreases |c|
  {
    if c != [] {
      ExpandLength(c[..|c| - 1]);
    }
  }

  lemma {:induction false} ExpandSorted(c: seq<nat>)
    ensures forall i :: 0 <= i < |Expand(c)| ==> 0 <= Expand(c)[i] < |c|
    ensures SortedRange(Expand(c), 0, |Expand(c)|)
    decreases |c|
  {
    if c != [] {
      var n := |c| - 1;
      ExpandSorted(c[..n]);
      var e, r := Expand(c[..n]), Repeat(n, c[n]);
      assert Expand(c) == e + r;
      forall i, j | 0 <= i < j < |e + r|
        ensures (e + r)[i] <= (e + r)[j]
      {
        if j < |e| {
          assert (e + r)[i] == e[i] && (e + r)[j] == e[j];
        } else if i < |e| {
          assert (e + r)[i] == e[i] && (e + r)[j] == n;
        }
      }
    }
  }

  lemma {:induction false} ExpandMultiset(c: seq<nat>)
    ensures forall v :: multiset(Expand(c))[v] == if 0 <= v < |c| then c[v] else 0
    decreases |c|
  {
    if c != [] {
      var n := |c| - 1;
      var front := c[..n];
      ExpandMultiset(front);
      ExpandStepMultiset(c);
      forall v
        ensures multiset(Expand(c))[v] == if 0 <= v < |c| then c[v] else 0
      {
        if 0 <= v < n {
          assert front[v] == c[v];
        }
      }
    } else {
      assert Expand(c) == [];
    }
  }

  /** The last count adds c[n] copies of n to the multiset of the expansion. */
  lemma ExpandStepMultiset(c: seq<nat>)
    requires c != []
    ensures multiset(Expand(c)) == multiset(Expand(c[..|c| - 1])) + multiset{}[|c| - 1 := c[|c| - 1]]
  {
    var n := |c| - 1;
    RepeatMultiset(n, c[n]);
    assert Expand(c) == Expand(c[..n]) + Repeat(n, c[n]);
  }

  /** The index p of Expand(c) that falls in the band of value v holds v. */
  lemma {:induction false} ExpandAt(c: seq<nat>, v: int, p: int)
    requires 0 <= v < |c| && 0 <= p && Sum(c[..v]) <= p < Sum(c[..v + 1])
    ensures p < |Expand(c)| && Expand(c)[p] == v
    decreases |c|
  {
    var n := |c| - 1;
    ExpandLength(c[..n]);
    ExpandLength(c);
    assert c[..n + 1] == c;
    SumStep(c, n);
    if v == n {
      assert Expand(c)[p] == Repeat(n, c[n])[p - Sum(c[..n])];
    } else {
      assert c[..n][..v] == c[..v] && c[..n][..v + 1] == c[..v + 1];
      SumMono(c, v + 1, n);
      ExpandAt(c[..n], v, p);
    }
  }

  /** Every index below the total lies in the band of some value. */
  lemma {:induction false} Band(c: seq<nat>, p: int) returns (v: int)
    requires 0 <= p < Sum(c)
    ensures 0 <= v < |c| && Sum(c[..v]) <= p < Sum(c[..v + 1])
    decreases |c|
  {
    var n := |c| - 1;
    assert c[..n + 1] == c;
    if p >= Sum(c[..n]) {
      v := n;
    } else {
      v := Band(c[..n], p);
      assert c[..n][..v] == c[..v] && c[..n][..v + 1] == c[..v + 1];
    }
  }

  /** The (t + 1)-th occurrence of x in s. */
  lemma {:induction false} NthOccurrence(s: seq<int>, x: int, t: nat) returns (i: int)
    requires t < Occurrences(s, x)
    ensures 0 <= i < |s| && s[i] == x && Occurrences(s[..i], x) == t
    decreases |s|
  {
    var n := |s| - 1;
    if t < Occurrences(s[..n], x) {
      i := NthOccurrence(s[..n], x, t);
      assert s[..n][..i] == s[..i];
    } else {
      i := n;
    }
  }

  lemma {:induction false} OccurrencesMono(s: seq<int>, i: int, j: int, x: int)
    requires 0 <= i <= j <= |s|
    ensures Occurrences(s[..i], x) <= Occurrences(s[..j], x)
    decreases j - i
  {
    if i < j {
      OccurrencesStep(s, j - 1, x);
      OccurrencesMono(s, i, j - 1, x);
    }
  }

  /** Key s[i] is placed inside the band of its value, below |s|. */
  lemma PlaceBound(s: seq<int>, range: nat, i: int)
    requires KeysIn(s, range) && 0 <= i < |s|
    ensures var c := Counts(s, range);
      0 <= Sum(c[..s[i]]) <= Sum(c[..s[i]]) + Occurrences(s[..i], s[i]) < Sum(c[..s[i] + 1]) <= |s|
  {
    var c := Counts(s, range);
    SumMono(c, 0, s[i]);
    assert c[..0] == [];
    OccurrencesStep(s, i, s[i]);
    OccurrencesMono(s, i + 1, |s|, s[i]);
    assert s[..|s|] == s;
    SumStep(c, s[i]);
    SumMono(c, s[i] + 1, range);
    assert c[..range] == c;
    SumCounts(s, range);
  }

  /**
   * Count's placement orders the keys: a smaller key goes to a smaller index, and of
   * two equal keys the earlier one goes first, which is the stability of the sort.
   */
  lemma PlacesOrdered(s: seq<int>, range: nat, i: int, j: int)
    requires KeysIn(s, range) && 0 <= i < j < |s|
    ensures s[i] <= s[j] ==> Place(s, range, i) < Place(s, range, j)
    ensures s[i] > s[j] ==> Place(s, range, i) > Place(s, range, j)
  {
    var c := Counts(s, range);
    PlaceBound(s, range, i);
    PlaceBound(s, range, j);
    if s[i] == s[j] {
      OccurrencesStep(s, i, s[i]);
      OccurrencesMono(s, i + 1, j, s[i]);
    } else if s[i] < s[j] {
      SumMono(c, s[i] + 1, s[j]);
    } else {
      SumMono(c, s[j] + 1, s[i]);
    }
  }

  /** A sequence holding each key at its place is Expand of the counts. */
  lemma Covered(s: seq<int>, range: nat, out: seq<int>)
    requires KeysIn(s, range) && |out| == |s|
    requires forall i :: 0 <= i < |s| ==> out[Place(s, range, i)] == s[i]
    ensures out == Expand(Counts(s, range))
  {
    var c := Counts(s, range);
    SumCounts(s, range);
    ExpandLength(c);
    forall p | 0 <= p < |s|
      ensures out[p] == Expand(c)[p]
    {
      CoveredAt(s, range, out, p);
    }
  }

  /** Index p of the output lies in the band of some value v and holds the key placed there. */
  lemma CoveredAt(s: seq<int>, range: nat, out: seq<int>, p: int)
    requires KeysIn(s, range) && |out| == |s| && 0 <= p < |s|
    requires forall i :: 0 <= i < |s| ==> out[Place(s, range, i)] == s[i]
    ensures p < |Expand(Counts(s, range))| && out[p] == Expand(Counts(s, range))[p]
  {
    var c := Counts(s, range);
    SumCounts(s, range);
    var v := Band(c, p);
    SumStep(c, v);
    assert c[v] == Occurrences(s, v);
    var i := NthOccurrence(s, v, p - Sum(c[..v]));
    assert Place(s, range, i) == p;
    assert out[p] == v;
    ExpandAt(c, v, p);
  }

  /**
   * Count's result: Expand of the counts has the length of the range, is sorted,
   * is a permutation of it and holds every key at its place.
   */
  lemma CountingSortCorrect(s: seq<int>, range: nat)
    requires KeysIn(s, range)
    ensures var r := Expand(Counts(s, range));
      && |r| == |s| && SortedRange(r, 0, |s|) && multiset(r) == multiset(s)
      && forall i :: 0 <= i < |s| ==> Place(s, range, i) < |s| && r[Place(s, range, i)] == s[i]
  {
    var c := Counts(s, range);
    SumCounts(s, range);
    ExpandLength(c);
    ExpandSorted(c);
    ExpandPermutes(s, range);
    ExpandPlaces(s, range);
  }

  /** Expand of the counts is a permutation of the keys. */
  lemma ExpandPermutes(s: seq<int>, range: nat)
    requires KeysIn(s, range)
    ensures multiset(Expand(Counts(s, range))) == multiset(s)
  {
    var c := Counts(s, range);
    ExpandMultiset(c);
    forall v
      ensures multiset(Expand(c))[v] == multiset(s)[v]
    {
      OccurrencesMultiset(s, v);
      if !(0 <= v < range) {
        assert v !in s;
      }
    }
  }

  /** Every key s[i] sits at its place in Expand of the counts. */
  lemma ExpandPlaces(s: seq<int>, range: nat)
    requires KeysIn(s, range)
    ensures |Expand(Counts(s, range))| == |s|
    ensures forall i :: 0 <= i < |s| ==> Place(s, range, i) < |s| && Expand(Counts(s, range))[Place(s, range, i)] == s[i]
  {
    var c := Counts(s, range);
    SumCounts(s, range);
    ExpandLength(c);
    forall i | 0 <= i < |s|
      ensures Place(s, range, i) < |s| && Expand(c)[Place(s, range, i)] == s[i]
    {
      PlaceBound(s, range, i);
      ExpandAt(c, s[i], Place(s, range, i));
    }
  }

  /** COUNT-KEYS-EQUAL: equal[j] is the number of keys of a[0 .. size) equal to j. */
  method CountKeysEqual(a: array<int>, size: nat, range: nat) returns (equal: array<int>)
    requires size <= a.Length && KeysIn(a[..size], range)
    ensures fresh(equal) && equal[..] == Counts(a[..size], range)
  {
    ghost var s := a[..size];
    equal := new int[range](_ => 0);
    for i := 0 to size
      invariant forall j :: 0 <= j < range ==> equal[j] == Occurrences(s[..i], j)
    {
      var key := a[i];
      forall j | 0 <= j < range
        ensures Occurrences(s[..i + 1], j) == Occurrences(s[..i], j) + (if key == j then 1 else 0)
      {
        OccurrencesStep(s, i, j);
      }
      equal[key] := equal[key] + 1;
    }
    assert s[..size] == s;
  }

  /** COUNT-KEYS-LESS: less[j] is the sum equal[0] + .. + equal[j - 1]. */
  method CountKeysLess(equal: array<int>, range: nat) returns (less: array<int>)
    requires 1 <= range <= equal.Length + 1
    ensures fresh(less) && less.Length == range
    ensures forall j :: 0 <= j < range ==> less[j] == Sum(equal[..j])
  {
    less := new int[range];
    less[0] := 0;
    assert equal[..0] == [];
    for j := 1 to range
      invariant forall k :: 0 <= k < j ==> less[k] == Sum(equal[..k])
    {
      assert equal[..j][..j - 1] == equal[..j - 1];
      less[j] := less[j - 1] + equal[j - 1];
    }
  }

  /**
   * The state of REARRANGE before index i: next[j] is one past less[j] plus the copies of
   * j placed so far, and every key before i sits at its place.
   */
  ghost predicate Rearranged(s: seq<int>, range: nat, less: seq<int>, next: seq<int>, sorted: seq<int>, i: int)
    requires KeysIn(s, range) && 0 <= i <= |s| && |sorted| == |s|
  {
    && |less| == range && |next| == range
    && (forall j :: 0 <= j < range ==> next[j] == less[j] + 1 + Occurrences(s[..i], j))
    && (forall k :: 0 <= k < i ==> sorted[Place(s, range, k)] == s[k])
  }

  /** One step of REARRANGE: key s[i] is written at index next[s[i]] - 1, its place. */
  lemma RearrangeStep(s: seq<int>, range: nat, less: seq<int>, next: seq<int>, sorted: seq<int>, i: int, key: int)
    requires KeysIn(s, range) && 0 <= i < |s| && |sorted| == |s| && key == s[i]
    requires |less| == range && forall j :: 0 <= j < range ==> less[j] == Sum(Counts(s, range)[..j])
    requires Rearranged(s, range, less, next, sorted, i)
    ensures 0 <= key < |next| && next[key] - 1 == Place(s, range, i) && 1 <= next[key] <= |sorted|
    ensures Rearranged(s, range, less, next[key := next[key] + 1], sorted[next[key] - 1 := key], i + 1)
  {
    var pl := Place(s, range, i);
    assert next[key] - 1 == pl;
    NextAdvanced(s, range, less, next, i);
    SortedAdvanced(s, range, sorted, i);
    assert sorted[next[key] - 1 := key] == sorted[pl := s[i]];
  }

  /** The counter of key s[i] moves on by one: next keeps counting the copies placed. */
  lemma NextAdvanced(s: seq<int>, range: nat, less: seq<int>, next: seq<int>, i: int)
    requires KeysIn(s, range) && 0 <= i < |s| && |less| == range && |next| == range
    requires forall j :: 0 <= j < range ==> next[j] == less[j] + 1 + Occurrences(s[..i], j)
    ensures var next' := next[s[i] := next[s[i]] + 1];
      forall j :: 0 <= j < range ==> next'[j] == less[j] + 1 + Occurrences(s[..i + 1], j)
  {
    forall j | 0 <= j < range
      ensures Occurrences(s[..i + 1], j) == Occurrences(s[..i], j) + (if s[i] == j then 1 else 0)
    {
      OccurrencesStep(s, i, j);
    }
  }

  /** Writing s[i] at its place keeps the keys before i at theirs, since places differ. */
  lemma SortedAdvanced(s: seq<int>, range: nat, sorted: seq<int>, i: int)
    requires KeysIn(s, range) && 0 <= i < |s| && |sorted| == |s|
    requires forall k :: 0 <= k < i ==> sorted[Place(s, range, k)] == s[k]
    ensures var sorted' := sorted[Place(s, range, i) := s[i]];
      forall k :: 0 <= k < i + 1 ==> sorted'[Place(s, range, k)] == s[k]
  {
    forall k | 0 <= k < i
      ensures Place(s, range, k) != Place(s, range, i)
    {
      PlacesOrdered(s, range, k, i);
    }
  }

  /** The body of REARRANGE's second loop: key is written at next[key] - 1, which then moves on. */
  method PlaceKey(sorted: array<int>, next: array<int>, key: int, ghost s: seq<int>, range: nat,
                  ghost less: seq<int>, i: int)
    requires sorted != next && KeysIn(s, range) && 0 <= i < |s| && sorted.Length == |s| && key == s[i]
    requires |less| == range && forall j :: 0 <= j < range ==> less[j] == Sum(Counts(s, range)[..j])
    requires Rearranged(s, range, less, next[..], sorted[..], i)
    modifies sorted, next
    ensures Rearranged(s, range, less, next[..], sorted[..], i + 1)
  {
    RearrangeStep(s, range, less, next[..], sorted[..], i, key);
    Put(sorted, next, key);
  }

  /** sorted[next[key] - 1] := key; next[key] += 1. */
  method Put(sorted: array<int>, next: array<int>, key: int)
    requires sorted != next && 0 <= key < next.Length && 1 <= next[key] <= sorted.Length
    modifies sorted, next
    ensures sorted[..] == old(sorted[..])[old(next[..])[key] - 1 := key]
    ensures next[..] == old(next[..])[key := old(next[..])[key] + 1]
  {
    var index := next[key];
    sorted[index - 1] := key;
    next[key] := next[key] + 1;
  }

  /**
   * REARRANGE: given less from the counts, every key a[i] is written to sorted at its
   * place, so the result is Expand of the counts.
   */
  method Rearrange(a: array<int>, less: array<int>, size: nat, range: nat) returns (sorted: array<int>)
    requires size <= a.Length && KeysIn(a[..size], range) && less.Length == range
    requires forall j :: 0 <= j < range ==> less[j] == Sum(Counts(a[..size], range)[..j])
    ensures fresh(sorted) && sorted.Length == size
    ensures forall i :: 0 <= i < size ==> sorted[Place(a[..size], range, i)] == a[i]
    ensures sorted[..] == Expand(Counts(a[..size], range))
  {
    ghost var s := a[..size];
    sorted := new int[size];
    var next := FirstPositions(less);
    ghost var lessSeq := less[..];
    for i := 0 to size
      invariant Rearranged(s, range, lessSeq, next[..], sorted[..], i)
    {
      PlaceKey(sorted, next, a[i], s, range, lessSeq, i);
    }
    RearrangedAll(s, range, lessSeq, next[..], sorted[..]);
  }

  /** Once every key is placed, the output is the expansion of the counts. */
  lemma RearrangedAll(s: seq<int>, range: nat, less: seq<int>, next: seq<int>, sorted: seq<int>)
    requires KeysIn(s, range) && |sorted| == |s| && Rearranged(s, range, less, next, sorted, |s|)
    ensures forall i :: 0 <= i < |s| ==> sorted[Place(s, range, i)] == s[i]
    ensures sorted == Expand(Counts(s, range))
  {
    Covered(s, range, sorted);
  }

  /** The first loop of the rearrangement: next[j] = less[j] + 1, the 1-based place of the first key j. */
  method FirstPositions(less: array<int>) returns (next: array<int>)
    ensures fresh(next) && next.Length == less.Length
    ensures forall k :: 0 <= k < less.Length ==> next[k] == less[k] + 1
  {
    next := new int[less.Length];
    for j := 0 to less.Length
      invariant forall k :: 0 <= k < j ==> next[k] == less[k] + 1
    {
      next[j] := less[j] + 1;
    }
  }

  /**
   * The counting sort: a new array holding a[0 .. size) sorted, a permutation of it,
   * with every key at its place (equal keys in their original order).
   */
  method Count(a: array<int>, size: nat, range: nat) returns (sorted: array<int>)
    requires size <= a.Length && 1 <= range && KeysIn(a[..size], range)
    ensures fresh(sorted) && sorted.Length == size && sorted[..] == Expand(Counts(a[..size], range))
    ensures SortedRange(sorted[..], 0, size) && multiset(sorted[..]) == multiset(a[..size])
    ensures forall i :: 0 <= i < size ==> sorted[Place(a[..size], range, i)] == a[i]
  {
    var equal := CountKeysEqual(a, size, range);
    var less := CountKeysLess(equal, range);
    sorted := Rearrange(a, less, size, range);
    CountingSortCorrect(a[..size], range);
  }
}
