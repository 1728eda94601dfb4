/** A binary min-heap over a growable list, specialised to integer elements. */
module PriorityQueues {

  /** The parent of position k > 0. */
  function Parent(k: int): int {
    (k + 1) / 2 - 1
  }

  /** The parent of k > 0 lies before it, and the children of i are 2i+1 and 2i+2. */
  lemma ParentFacts(k: int)
    ensures k > 0 ==> 0 <= Parent(k) < k && (k == 2 * Parent(k) + 1 || k == 2 * Parent(k) + 2)
    ensures k >= 0 ==> Parent(2 * k + 1) == k && Parent(2 * k + 2) == k
  {
  }

  /** Position p is at most position c, if c is in the list. */
  ghost predicate Ordered(s: seq<int>, p: int, c: int)
    requires 0 <= p < |s| && 0 <= c
  {
    c < |s| ==> s[p] <= s[c]
  }

  /** Position p is at most both children of position x. */
  ghost predicate BelowChildren(s: seq<int>, p: int, x: int)
    requires 0 <= p < |s| && 0 <= x
  {
    Ordered(s, p, 2 * x + 1) && Ordered(s, p, 2 * x + 2)
  }

  /** Every parent is at most its children (the children of i are 2i+1 and 2i+2). */
  ghost predicate IsHeap(s: seq<int>) {
    forall i :: 0 <= i < |s| ==> BelowChildren(s, i, i)
  }

  /**
   * The heap order holds except between position x and its children, and x's parent
   * is at most x's children: what sift-down from x needs.
   */
  ghost predicate HeapExceptAt(s: seq<int>, x: int)
    requires 0 <= x
  {
    && (forall i :: 0 <= i < |s| && i != x ==> BelowChildren(s, i, i))
    && (0 < x < |s| ==> 0 <= Parent(x) < x && BelowChildren(s, Parent(x), x))
  }

  /**
   * The heap order holds except between position x and its parent, and x's parent
   * is at most x's children: what sift-up from x needs.
   */
  ghost predicate HeapExceptAbove(s: seq<int>, x: int)
    requires 0 <= x
  {
    && (forall p :: 0 <= p < |s| ==>
          (2 * p + 1 != x ==> Ordered(s, p, 2 * p + 1)) && (2 * p + 2 != x ==> Ordered(s, p, 2 * p + 2)))
    && (0 < x < |s| ==> 0 <= Parent(x) < x && BelowChildren(s, Parent(x), x))
  }

  /** Exchanging positions i and j. */
  function Swap(s: seq<int>, i: int, j: int): (r: seq<int>)
    requires 0 <= i < |s| && 0 <= j < |s|
    ensures |r| == |s| && multiset(r) == multiset(s)
    ensures r[i] == s[j] && r[j] == s[i]
    ensures forall k :: 0 <= k < |s| && k != i && k != j ==> r[k] == s[k]
  {
    s[i := s[j]][j := s[i]]
  }

  /** One step of sift-up: swapping x with its larger parent moves the defect one level up. */
  lemma SiftUpStep(s: seq<int>, x: int)
    requires 0 < x < |s| && HeapExceptAbove(s, x)
    requires s[Parent(x)] > s[x]
    ensures HeapExceptAbove(Swap(s, x, Parent(x)), Parent(x))
  {
    var j := Parent(x);
    ParentFacts(x);
    ParentFacts(j);
    var t := Swap(s, x, j);
    forall p | 0 <= p < |t|
      ensures (2 * p + 1 != j ==> Ordered(t, p, 2 * p + 1)) && (2 * p + 2 != j ==> Ordered(t, p, 2 * p + 2))
    {
      if p == j {
        assert Ordered(s, j, 2 * j + 1) || 2 * j + 1 == x;
        assert Ordered(s, j, 2 * j + 2) || 2 * j + 2 == x;
      } else if p == x {
        assert BelowChildren(s, j, x);
      } else {
        assert (2 * p + 1 != j ==> Ordered(s, p, 2 * p + 1)) && (2 * p + 2 != j ==> Ordered(s, p, 2 * p + 2));
      }
    }
    if 0 < j {
      assert Ordered(s, Parent(j), j);
      assert Ordered(s, j, 2 * j + 1) || 2 * j + 1 == x;
      assert Ordered(s, j, 2 * j + 2) || 2 * j + 2 == x;
    }
  }

  /** One step of sift-down: swapping x with its smaller child c moves the defect to c. */
  lemma SiftDownStep(s: seq<int>, x: int, c: int)
    requires 0 <= x < |s| && HeapExceptAt(s, x)
    requires c == 2 * x + 1 || c == 2 * x + 2
    requires c < |s| && s[c] < s[x] && BelowChildren(s, c, x)
    ensures HeapExceptAt(Swap(s, x, c), c)
  {
    ParentFacts(x);
    ParentFacts(c);
    var t := Swap(s, x, c);
    forall i | 0 <= i < |t| && i != c
      ensures BelowChildren(t, i, i)
    {
      if i == x {
      } else if 0 < x && i == Parent(x) {
        assert BelowChildren(s, i, i);
        assert BelowChildren(s, Parent(x), x);
      } else {
        assert BelowChildren(s, i, i);
      }
    }
    assert BelowChildren(s, c, c);
  }

  /** A heap with a defect at x whose x is at most its children is a heap. */
  lemma HeapExceptAtIsHeap(s: seq<int>, x: int)
    requires 0 <= x && HeapExceptAt(s, x)
    requires x < |s| ==> BelowChildren(s, x, x)
    ensures IsHeap(s)
  {
  }

  /** Appending to a heap leaves a defect only above the new last position. */
  lemma AppendedHeap(s: seq<int>, o: int)
    requires IsHeap(s)
    ensures HeapExceptAbove(s + [o], |s|)
  {
    var t := s + [o];
    ParentFacts(|s|);
    forall p | 0 <= p < |t|
      ensures (2 * p + 1 != |s| ==> Ordered(t, p, 2 * p + 1)) && (2 * p + 2 != |s| ==> Ordered(t, p, 2 * p + 2))
    {
      if p < |s| {
        assert BelowChildren(s, p, p);
      }
    }
  }

  /** A sift-up defect at x is no defect once x's parent is at most x. */
  lemma HeapExceptAboveIsHeap(s: seq<int>, x: int)
    requires 0 <= x < |s| && HeapExceptAbove(s, x)
    requires x > 0 ==> s[Parent(x)] <= s[x]
    ensures IsHeap(s)
  {
    ParentFacts(x);
    forall i | 0 <= i < |s|
      ensures BelowChildren(s, i, i)
    {
      assert (2 * i + 1 != x ==> Ordered(s, i, 2 * i + 1)) && (2 * i + 2 != x ==> Ordered(s, i, 2 * i + 2));
    }
  }

  /** Moving the last element of a heap to the root leaves a defect only at the root. */
  lemma RootReplaced(s: seq<int>)
    requires IsHeap(s) && |s| > 0
    ensures HeapExceptAt(s[0 := s[|s| - 1]][..|s| - 1], 0)
  {
    var t := s[0 := s[|s| - 1]][..|s| - 1];
    forall i | 0 <= i < |t| && i != 0
      ensures BelowChildren(t, i, i)
    {
      assert BelowChildren(s, i, i);
    }
  }

  /** A heap has no defect anywhere. */
  lemma HeapIsHeapExceptAt(s: seq<int>, x: int)
    requires 0 <= x && IsHeap(s)
    ensures HeapExceptAt(s, x)
  {
    if 0 < x < |s| {
      ParentFacts(x);
      assert BelowChildren(s, Parent(x), Parent(x));
      assert BelowChildren(s, x, x);
    }
  }

  /** Position k lies in the subtree rooted at position i. */
  predicate InSubtree(k: int, i: int)
    decreases k
  {
    k == i || (k > i && k > 0 && InSubtree(Parent(k), i))
  }

  /** The root of a heap is at most every element. */
  lemma HeapRootIsMin(s: seq<int>)
    requires IsHeap(s) && |s| > 0
    ensures forall k :: 0 <= k < |s| ==> s[0] <= s[k]
  {
    forall k | 0 <= k < |s|
      ensures s[0] <= s[k]
    {
      RootBelow(s, k);
    }
  }

  lemma {:induction false} RootBelow(s: seq<int>, k: int)
    requires IsHeap(s) && 0 <= k < |s|
    ensures s[0] <= s[k]
    decreases k
  {
    if k > 0 {
      ParentFacts(k);
      RootBelow(s, Parent(k));
      assert BelowChildren(s, Parent(k), Parent(k));
    }
  }

  lemma {:induction false} SubtreeOfChild(k: int, c: int, i: int)
    requires c > 0 && Parent(c) == i && InSubtree(k, c)
    ensures InSubtree(k, i)
    decreases k
  {
    if k != c {
      SubtreeOfChild(Parent(k), c, i);
    }
  }

  class PriorityQueue {
    var data: seq<int>

    ghost predicate Valid()
      reads this
    {
      IsHeap(data)
    }

    constructor ()
      ensures Valid() && data == []
    {
      data := [];
    }

    function Count(): nat
      reads this
    {
      |data|
    }

    /** Appends o and sifts it up while it is smaller than its parent. */
    method Insert(o: int)
      requires Valid()
      modifies this
      ensures Valid()
      ensures multiset(data) == multiset(old(data)) + multiset{o}
      ensures Count() == old(Count()) + 1
    {
      AppendedHeap(data, o);
      data := data + [o];
      var i := |data| - 1;
      while i > 0
        invariant 0 <= i < |data|
        invariant multiset(data) == multiset(old(data)) + multiset{o}
        invariant |data| == |old(data)| + 1
        invariant HeapExceptAbove(data, i)
      {
        var j := (i + 1) / 2 - 1;
        ParentFacts(i);
        var v := data[j];
        if v < data[i] || v == data[i] {
          HeapExceptAboveIsHeap(data, i);
          break;
        }
        SiftUpStep(data, i);
        data := Swap(data, i, j);
        i := j;
      }
    }

    /** Removes and returns the root: the last element moves to the root and is sifted down. */
    method ExtractMin() returns (min: int)
      requires Valid() && Count() > 0
      modifies this
      ensures Valid()
      ensures min in old(data) && forall x :: x in old(data) ==> min <= x
      ensures multiset(data) == multiset(old(data)) - multiset{min}
      ensures Count() == old(Count()) - 1
    {
      HeapRootIsMin(data);
      RootReplaced(data);
      min := data[0];
      var last := |data| - 1;
      ghost var before := data;
      data := data[0 := data[last]];
      data := data[..last];
      LastToRoot(before);
      MinHeapify(0);
    }

    /** Moving the last element to the root and dropping the last place removes one copy of the root. */
    static lemma LastToRoot(s: seq<int>)
      requires |s| > 0
      ensures multiset(s[0 := s[|s| - 1]][..|s| - 1]) == multiset(s) - multiset{s[0]}
    {
      var last := |s| - 1;
      if last > 0 {
        assert s == [s[0]] + s[1..last] + [s[last]];
        assert s[0 := s[last]][..last] == [s[last]] + s[1..last];
      }
    }

    /** The root, which is the minimum; the queue is left as it is. */
    function Peek(): (r: int)
      reads this
      requires Valid() && Count() > 0
      ensures r in data && forall x :: x in data ==> r <= x
    {
      HeapRootIsMin(data);
      data[0]
    }

    /** Sift-down from position index; on a valid heap it changes nothing. */
    method DecreaseKey(index: int)
      requires Valid() && index >= 0
      modifies this
      ensures data == old(data)
    {
      HeapIsHeapExceptAt(data, index);
      MinHeapify(index);
    }

    /** Swaps position i with its smaller child while that child is smaller, then recurses there. */
    method MinHeapify(i: int)
      requires 0 <= i && HeapExceptAt(data, i)
      modifies this
      ensures Valid()
      ensures multiset(data) == multiset(old(data)) && |data| == |old(data)|
      ensures forall k :: 0 <= k < |data| && !InSubtree(k, i) ==> data[k] == old(data)[k]
      ensures IsHeap(old(data)) ==> data == old(data)
      decreases |data| - i
    {
      var smallest;
      var l := 2 * (i + 1) - 1;
      var r := 2 * (i + 1) - 1 + 1;
      if l < |data| && data[l] < data[i] {
        smallest := l;
      } else {
        smallest := i;
      }
      if r < |data| && data[r] < data[smallest] {
        smallest := r;
      }
      if IsHeap(data) && i < |data| {
        assert BelowChildren(data, i, i);
      }
      if smallest == i {
        HeapExceptAtIsHeap(data, i);
      } else {
        ghost var before := data;
        ParentFacts(i);
        SiftDownStep(data, i, smallest);
        data := Swap(data, i, smallest);
        MinHeapify(smallest);
        forall k | 0 <= k < |data| && !InSubtree(k, i)
          ensures data[k] == before[k]
        {
          if InSubtree(k, smallest) {
            SubtreeOfChild(k, smallest, i);
          }
        }
      }
    }
  }
}
