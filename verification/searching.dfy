/**
 * The searching procedures over the first `size` elements of an array: linear search
 * (last match), the early-exit and sentinel variants (first match), the recursive linear
 * search, iterative and recursive binary search, NOT-FOUND and a 32-bit factorial.
 * Elements are specialised to int.
 */
module Searches {
  import opened Arithmetic
  import opened Wrappers

  /** The special value NOT-FOUND: an index no array has. */
  function NotFound(): (r: int)
    ensures r < 0
  {
    -1
  }

  predicate Sorted(s: seq<int>) {
    forall i, j :: 0 <= i < j < |s| ==> s[i] <= s[j]
  }

  /**
   * The recursive linear search from index i: the first index k of [i, size) with
   * a[k] == key, or NOT-FOUND when there is none.
   */
  function RecursiveLinearSearch(a: array<int>, size: int, key: int, i: nat): (r: int)
    reads a
    requires size <= a.Length
    ensures r == NotFound() || i <= r < size
    ensures r == NotFound() <==> forall k :: i <= k < size ==> a[k] != key
    ensures r != NotFound() ==> a[r] == key && forall k :: i <= k < r ==> a[k] != key
    decreases size - i
  {
    if i >= size then NotFound()
    else if a[i] == key then i
    else RecursiveLinearSearch(a, size, key, i + 1)
  }

  /** The traditional linear search: it keeps scanning, so it answers the last matching index. */
  method LinearSearch(a: array<int>, size: int, key: int) returns (answer: int)
    requires size <= a.Length
    ensures answer == NotFound() || 0 <= answer < size
    ensures answer == NotFound() <==> forall k :: 0 <= k < size ==> a[k] != key
    ensures answer != NotFound() ==> a[answer] == key && forall k :: answer < k < size ==> a[k] != key
  {
    answer := NotFound();
    var i := 0;
    while i < size
      invariant 0 <= i <= if size < 0 then 0 else size
      invariant answer == NotFound() || 0 <= answer < i
      invariant answer == NotFound() <==> forall k :: 0 <= k < i ==> a[k] != key
      invariant answer != NotFound() ==> a[answer] == key && forall k :: answer < k < i ==> a[k] != key
    {
      if a[i] == key {
        answer := i;
      }
      i := i + 1;
    }
  }

  /** The early-exit linear search returns what the recursive search from index 0 returns. */
  method BetterLinearSearch(a: array<int>, size: int, key: int) returns (r: int)
    requires size <= a.Length
    ensures r == RecursiveLinearSearch(a, size, key, 0)
  {
    var i := 0;
    while i < size
      invariant 0 <= i <= if size < 0 then 0 else size
      invariant forall k :: 0 <= k < i ==> a[k] != key
    {
      if a[i] == key {
        FirstMatchUnique(a, size, key, 0, i);
        return i;
      }
      i := i + 1;
    }
    return NotFound();
  }

  /** Whatever index satisfies the first-match description is the recursive search's answer. */
  lemma FirstMatchUnique(a: array<int>, size: int, key: int, i: nat, k: int)
    requires size <= a.Length && i <= k < size && a[k] == key
    requires forall j :: i <= j < k ==> a[j] != key
    ensures RecursiveLinearSearch(a, size, key, i) == k
  {
    var r := RecursiveLinearSearch(a, size, key, i);
    assert r != NotFound();
  }

  /**
   * The sentinel search stores key in the last slot so that the scan needs no bound
   * check, restores that slot and answers the early-exit search's result.
   */
  method SentinelLinearSearch(a: array<int>, size: int, key: int) returns (r: int)
    requires 1 <= size <= a.Length
    modifies a
    ensures a[..] == old(a[..])
    ensures r == RecursiveLinearSearch(a, size, key, 0)
  {
    var last := a[size - 1];
    a[size - 1] := key;
    var i := 0;
    while a[i] != key
      invariant 0 <= i <= size - 1
      invariant a[size - 1] == key
      invariant forall k :: 0 <= k < i ==> a[k] != key
      invariant forall k :: 0 <= k < a.Length && k != size - 1 ==> a[k] == old(a[k])
      decreases size - 1 - i
    {
      i := i + 1;
    }
    a[size - 1] := last;
    assert a[..] == old(a[..]);
    if i < size - 1 || a[size - 1] == key {
      FirstMatchUnique(a, size, key, 0, i);
      return i;
    }
    return NotFound();
  }

  /**
   * Iterative binary search over a[0 .. size-1]. A found index holds key; on a
   * sorted prefix NOT-FOUND means key is absent.
   */
  method BinarySearch(a: array<int>, size: int, key: int) returns (r: int)
    requires size <= a.Length
    ensures r == NotFound() || (0 <= r < size && a[r] == key)
    ensures Sorted(a[..if size < 0 then 0 else size]) ==>
      (r == NotFound() <==> forall k :: 0 <= k < size ==> a[k] != key)
  {
    var p, q, hi := 0, 0, size - 1;
    ghost var sorted := Sorted(a[..if size < 0 then 0 else size]);
    while p <= hi
      invariant 0 <= p && hi < size
      invariant sorted ==> forall k :: 0 <= k < size && a[k] == key ==> p <= k <= hi
      decreases hi - p
    {
      q := (p + hi) / 2;
      if a[q] == key {
        return q;
      } else if a[q] > key {
        if sorted {
          forall k | q <= k < size
            ensures a[k] != key
          {
            assert a[..size][q] == a[q] && a[..size][k] == a[k];
          }
        }
        hi := q - 1;
      } else {
        if sorted {
          forall k | 0 <= k <= q
            ensures a[k] != key
          {
            assert a[..size][q] == a[q] && a[..size][k] == a[k];
          }
        }
        p := q + 1;
      }
    }
    return NotFound();
  }

  /**
   * Recursive binary search over the inclusive range [p, r]. A found index lies in the
   * range and holds key; on a sorted range NOT-FOUND means key is absent from it.
   */
  function RecursiveBinarySearch(a: array<int>, p: int, r: int, key: int): (q: int)
    reads a
    requires 0 <= p && r < a.Length
    ensures q == NotFound() || (p <= q <= r && a[q] == key)
    ensures (forall i, j :: p <= i < j <= r ==> a[i] <= a[j]) ==>
      (q == NotFound() <==> forall k :: p <= k <= r ==> a[k] != key)
    decreases r - p
  {
    if p > r then NotFound()
    else
      var q := (p + r) / 2;
      if a[q] == key then q
      else if a[q] > key then RecursiveBinarySearch(a, p, q - 1, key)
      else RecursiveBinarySearch(a, q + 1, r, key)
  }

  /**
   * The recursive binary search as written, which also admits the documented first
   * call with r equal to the array size. None stands for the read of a[a.Length], which
   * throws.
   */
  function RecursiveBinarySearchAsWritten(a: array<int>, p: int, r: int, key: int): (res: Option<int>)
    reads a
    requires 0 <= p && r <= a.Length
    ensures res.Some? ==>
      res.value == NotFound() || (p <= res.value <= r && res.value < a.Length && a[res.value] == key)
    decreases r - p
  {
    if p > r then Some(NotFound())
    else
      var q := (p + r) / 2;
      if q == a.Length then None
      else if a[q] == key then Some(q)
      else if a[q] > key then RecursiveBinarySearchAsWritten(a, p, q - 1, key)
      else RecursiveBinarySearchAsWritten(a, q + 1, r, key)
  }

  /** Below the last index the as-written search never throws and is the corrected one. */
  lemma {:induction false} AsWrittenAgrees(a: array<int>, p: int, r: int, key: int)
    requires 0 <= p && r < a.Length
    ensures RecursiveBinarySearchAsWritten(a, p, r, key) == Some(RecursiveBinarySearch(a, p, r, key))
    decreases r - p
  {
    if p <= r {
      var q := (p + r) / 2;
      if a[q] > key {
        AsWrittenAgrees(a, p, q - 1, key);
        assert RecursiveBinarySearchAsWritten(a, p, r, key) == RecursiveBinarySearchAsWritten(a, p, q - 1, key);
        assert RecursiveBinarySearch(a, p, r, key) == RecursiveBinarySearch(a, p, q - 1, key);
      } else if a[q] < key {
        AsWrittenAgrees(a, q + 1, r, key);
        assert RecursiveBinarySearchAsWritten(a, p, r, key) == RecursiveBinarySearchAsWritten(a, q + 1, r, key);
        assert RecursiveBinarySearch(a, p, r, key) == RecursiveBinarySearch(a, q + 1, r, key);
      }
    }
  }

  /** On a sorted array, a probe below key puts every element up to it below key. */
  lemma BelowUpTo(a: array<int>, p: int, q: int, key: int)
    requires 0 <= p <= q < a.Length && a[q] < key
    requires forall i, j :: p <= i < j < a.Length ==> a[i] <= a[j]
    ensures forall k :: p <= k <= q ==> a[k] < key
  {
    forall k | p <= k <= q
      ensures a[k] < key
    {
      if k < q {
        assert a[k] <= a[q];
      }
    }
  }

  /** On a sorted array, a probe above key puts every element from it on above key. */
  lemma AboveFrom(a: array<int>, p: int, q: int, key: int)
    requires 0 <= p <= q < a.Length && a[q] > key
    requires forall i, j :: p <= i < j < a.Length ==> a[i] <= a[j]
    ensures forall k :: q <= k < a.Length ==> a[k] > key
  {
    forall k | q <= k < a.Length
      ensures a[k] > key
    {
      if q < k {
        assert a[q] <= a[k];
      }
    }
  }

  /**
   * On a sorted array the as-written search throws exactly when r is the array size
   * and every element from p on is below key.
   */
  lemma {:induction false} AsWrittenOverrun(a: array<int>, p: int, r: int, key: int)
    requires 0 <= p && r <= a.Length
    requires forall i, j :: p <= i < j < a.Length ==> a[i] <= a[j]
    ensures RecursiveBinarySearchAsWritten(a, p, r, key).None? <==>
      r == a.Length && p <= r && forall k :: p <= k < a.Length ==> a[k] < key
    decreases r - p, 1
  {
    if p <= r && (p + r) / 2 < a.Length {
      var q := (p + r) / 2;
      if a[q] < key {
        OverrunRight(a, p, r, key);
      } else if a[q] > key {
        assert RecursiveBinarySearchAsWritten(a, p, r, key) == RecursiveBinarySearchAsWritten(a, p, q - 1, key);
        AsWrittenAgrees(a, p, q - 1, key);
      }
    }
  }

  /** The step of AsWrittenOverrun where the probe is below key. */
  lemma {:induction false} OverrunRight(a: array<int>, p: int, r: int, key: int)
    requires 0 <= p <= r <= a.Length && (p + r) / 2 < a.Length && a[(p + r) / 2] < key
    requires forall i, j :: p <= i < j < a.Length ==> a[i] <= a[j]
    ensures RecursiveBinarySearchAsWritten(a, p, r, key).None? <==>
      r == a.Length && p <= r && forall k :: p <= k < a.Length ==> a[k] < key
    decreases r - p, 0
  {
    var q := (p + r) / 2;
    assert RecursiveBinarySearchAsWritten(a, p, r, key) == RecursiveBinarySearchAsWritten(a, q + 1, r, key);
    AsWrittenOverrun(a, q + 1, r, key);
    BelowUpTo(a, p, q, key);
  }

  /** When the as-written search answers on a sorted array, NOT-FOUND means key is absent. */
  lemma {:induction false} AsWrittenNotFound(a: array<int>, p: int, r: int, key: int)
    requires 0 <= p && r <= a.Length
    requires forall i, j :: p <= i < j < a.Length ==> a[i] <= a[j]
    ensures var res := RecursiveBinarySearchAsWritten(a, p, r, key);
      res.Some? ==> (res.value == NotFound() <==> forall k :: p <= k <= r && k < a.Length ==> a[k] != key)
    decreases r - p, 1
  {
    if p <= r && (p + r) / 2 < a.Length {
      var q := (p + r) / 2;
      if a[q] < key {
        NotFoundRight(a, p, r, key);
      } else if a[q] > key {
        NotFoundLeft(a, p, r, key);
      }
    }
  }

  /** The step of AsWrittenNotFound where the probe is below key. */
  lemma {:induction false} NotFoundRight(a: array<int>, p: int, r: int, key: int)
    requires 0 <= p <= r <= a.Length && (p + r) / 2 < a.Length && a[(p + r) / 2] < key
    requires forall i, j :: p <= i < j < a.Length ==> a[i] <= a[j]
    ensures var res := RecursiveBinarySearchAsWritten(a, p, r, key);
      res.Some? ==> (res.value == NotFound() <==> forall k :: p <= k <= r && k < a.Length ==> a[k] != key)
    decreases r - p, 0
  {
    var q := (p + r) / 2;
    assert RecursiveBinarySearchAsWritten(a, p, r, key) == RecursiveBinarySearchAsWritten(a, q + 1, r, key);
    AsWrittenNotFound(a, q + 1, r, key);
    BelowUpTo(a, p, q, key);
  }

  /** The step of AsWrittenNotFound where the probe is above key. */
  lemma {:induction false} NotFoundLeft(a: array<int>, p: int, r: int, key: int)
    requires 0 <= p <= r <= a.Length && (p + r) / 2 < a.Length && a[(p + r) / 2] > key
    requires forall i, j :: p <= i < j < a.Length ==> a[i] <= a[j]
    ensures var res := RecursiveBinarySearchAsWritten(a, p, r, key);
      res.Some? ==> (res.value == NotFound() <==> forall k :: p <= k <= r && k < a.Length ==> a[k] != key)
    decreases r - p, 0
  {
    var q := (p + r) / 2;
    assert RecursiveBinarySearchAsWritten(a, p, r, key) == RecursiveBinarySearchAsWritten(a, p, q - 1, key);
    AsWrittenNotFound(a, p, q - 1, key);
    AboveFrom(a, p, q, key);
  }

  /** The documented call on [1] with size 1 and key 2 reads past the end. */
  lemma RecursiveOverrunExample(a: array<int>)
    requires a.Length == 1 && a[0] == 1
    ensures RecursiveBinarySearchAsWritten(a, 0, 1, 2).None?
    ensures RecursiveBinarySearchAsWritten(a, 0, 0, 2) == Some(NotFound())
  {
  }

  /** A 32-bit unsigned integer. */
  newtype uint32 = x: int | 0 <= x < 0x1_0000_0000

  /** n! over the integers. */
  function Fact(n: nat): nat {
    if n == 0 then 1 else n * Fact(n - 1)
  }

  /** The recursive factorial over uint: every product wraps modulo 2^32. */
  function Factorial(n: uint32): (r: uint32)
    ensures r as int == Fact(n as nat) % 0x1_0000_0000
    decreases n
  {
    if n <= 0 then 1
    else
      var f := Factorial(n - 1);
      ProductMod(n as int, Fact(n as nat - 1), 0x1_0000_0000);
      ((n as int * f as int) % 0x1_0000_0000) as uint32
  }
}
