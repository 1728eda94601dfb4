/**
 * Heap sort through the binary min-heap priority queue: every element of the array is
 * inserted, then `size` minimums are extracted in turn into a new array.
 */
module HeapSorts {
  import opened PriorityQueues
  import opened Sorts

  /**
   * HeapSort inserts all of a (not just its first size elements) into heap and extracts
   * size minimums. The result is ascending, holds size elements of what the queue then
   * held, and none of them exceeds an element left in the queue: with an initially empty
   * queue, b holds the size smallest elements of a.
   */
  method HeapSort(a: array<int>, size: nat, heap: PriorityQueue) returns (b: array<int>)
    requires heap.Valid() && size <= heap.Count() + a.Length
    modifies heap
    ensures fresh(b) && b.Length == size && heap.Valid()
    ensures SortedRange(b[..], 0, size)
    ensures multiset(b[..]) + multiset(heap.data) == multiset(old(heap.data)) + multiset(a[..])
    ensures forall k, x :: 0 <= k < size && x in heap.data ==> b[k] <= x
  {
    InsertAll(a, heap);
    b := new int[size];
    ghost var total := multiset(old(heap.data)) + multiset(a[..]);
    for i := 0 to size
      invariant heap.Valid() && heap.Count() + i == |old(heap.data)| + a.Length
      invariant Drained(b[..], i, heap.data, total)
    {
      TakeMin(b, i, heap, total);
    }
    assert b[..size] == b[..];
  }

  /** The first loop of HeapSort: every element of a goes into the queue. */
  method InsertAll(a: array<int>, heap: PriorityQueue)
    requires heap.Valid()
    modifies heap
    ensures heap.Valid() && multiset(heap.data) == multiset(old(heap.data)) + multiset(a[..])
    ensures heap.Count() == old(heap.Count()) + a.Length
  {
    for i := 0 to a.Length
      invariant heap.Valid() && multiset(heap.data) == multiset(old(heap.data)) + multiset(a[..i])
      invariant heap.Count() == old(heap.Count()) + i
    {
      assert a[..i + 1] == a[..i] + [a[i]];
      heap.Insert(a[i]);
    }
    assert a[..a.Length] == a[..];
  }

  /**
   * The extraction loop's state after i steps: b[0 .. i) is ascending, it and the queue
   * together hold total, and nothing extracted exceeds what is still queued.
   */
  ghost predicate Drained(b: seq<int>, i: int, rest: seq<int>, total: multiset<int>)
    requires 0 <= i <= |b|
  {
    && SortedRange(b, 0, i)
    && multiset(b[..i]) + multiset(rest) == total
    && forall k, x :: 0 <= k < i && x in rest ==> b[k] <= x
  }

  /** The body of the extraction loop: b[i] receives the queue's minimum. */
  method TakeMin(b: array<int>, i: int, heap: PriorityQueue, ghost total: multiset<int>)
    requires 0 <= i < b.Length && heap.Valid() && heap.Count() > 0 && Drained(b[..], i, heap.data, total)
    modifies b, heap
    ensures heap.Valid() && heap.Count() == old(heap.Count()) - 1 && Drained(b[..], i + 1, heap.data, total)
  {
    ghost var before := heap.data;
    var m := heap.ExtractMin();
    b[i] := m;
    assert b[..i + 1] == b[..i] + [m];
    forall x | x in heap.data
      ensures x in before
    {
      assert x in multiset(heap.data);
    }
  }

  /**
   * When all of the array is extracted from a queue that started empty, the result
   * is a permutation of the array and the queue is left empty.
   */
  lemma WholeArraySorted(b: seq<int>, rest: seq<int>, s: seq<int>)
    requires |b| == |s| && multiset(b) + multiset(rest) == multiset(s)
    ensures rest == [] && multiset(b) == multiset(s)
  {
    assert |multiset(b) + multiset(rest)| == |b| + |rest|;
  }
}
