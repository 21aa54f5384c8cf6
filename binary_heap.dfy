/**
 * The binary heap engine: a min-heap (under its comparator) stored in a
 * growable array, with parent (i - 1) / 2 and children 2i + 1, 2i + 2.
 *
 * The pure functions SiftedDown, SiftedUp, Pushed, Popped and Built follow the
 * loops of the class methods step by step; each method's postcondition says
 * that it leaves the array exactly as its function describes, and the lemmas
 * prove what the engine promises about those functions.
 */
module BinaryHeaps {
  import opened Common

  // ---------------------------------------------------------------------------
  // Index arithmetic

  /** Math.floor((index - 1) / 2); -1 for the root, so sift-up stops there. */
  function ParentIndex(index: int): (p: int)
    ensures index == 0 ==> p == -1
    ensures index > 0 ==> 0 <= p < index
    ensures index > 0 ==> index == LeftChildIndex(p) || index == RightChildIndex(p)
  {
    (index - 1) / 2
  }

  function LeftChildIndex(index: int): int {
    2 * index + 1
  }

  function RightChildIndex(index: int): int {
    2 * index + 2
  }

  /** Both children of a node name that node as their parent. */
  lemma ParentOfChildren(index: nat)
    ensures ParentIndex(LeftChildIndex(index)) == index
    ensures ParentIndex(RightChildIndex(index)) == index
    ensures LeftChildIndex(index) > index && RightChildIndex(index) == LeftChildIndex(index) + 1
  {
  }

  // ---------------------------------------------------------------------------
  // Heap order

  /** The heap property: no element is ordered strictly before its parent. */
  ghost predicate IsHeap<T>(a: seq<T>, cmp: Comparator<T>) {
    forall i :: 0 < i < |a| ==> cmp(a[ParentIndex(i)], a[i]) <= 0
  }

  /** Heap order on every parent-child pair whose parent is at lo or beyond. */
  ghost predicate HeapFrom<T>(a: seq<T>, cmp: Comparator<T>, lo: int) {
    forall i :: 0 < i < |a| && lo <= ParentIndex(i) ==> cmp(a[ParentIndex(i)], a[i]) <= 0
  }

  /** HeapFrom, except possibly between k and its children. */
  ghost predicate HeapFromExcept<T>(a: seq<T>, cmp: Comparator<T>, lo: int, k: int) {
    forall i :: 0 < i < |a| && lo <= ParentIndex(i) && ParentIndex(i) != k ==>
      cmp(a[ParentIndex(i)], a[i]) <= 0
  }

  /** When k's parent is in range, it is ordered before k's children too. */
  ghost predicate ParentAboveChildren<T>(a: seq<T>, cmp: Comparator<T>, lo: int, k: int) {
    k < |a| && 0 <= lo <= ParentIndex(k) ==>
      forall i :: 0 < i < |a| && ParentIndex(i) == k ==> cmp(a[ParentIndex(k)], a[i]) <= 0
  }

  /** Heap order everywhere except between k and its parent (sift-up). */
  ghost predicate HeapExceptAt<T>(a: seq<T>, cmp: Comparator<T>, k: int) {
    forall i :: 0 < i < |a| && i != k ==> cmp(a[ParentIndex(i)], a[i]) <= 0
  }

  /** While k moves up, k's parent is also ordered before k's children. */
  ghost predicate GrandparentBridge<T>(a: seq<T>, cmp: Comparator<T>, k: int) {
    0 < k < |a| ==>
      forall i :: 0 < i < |a| && ParentIndex(i) == k ==> cmp(a[ParentIndex(k)], a[i]) <= 0
  }

  lemma HeapFromZero<T>(a: seq<T>, cmp: Comparator<T>)
    ensures HeapFrom(a, cmp, 0) <==> IsHeap(a, cmp)
  {
  }

  // ---------------------------------------------------------------------------
  // The algorithms as functions

  /**
   * siftDown(index): while the node has a child that is not ordered strictly
   * after it, exchange it with its first-ordered child (the right one on a tie);
   * a single child is a leaf, so one exchange with it ends the loop.
   */
  function SiftedDown<T>(a: seq<T>, cmp: Comparator<T>, index: nat): (r: seq<T>)
    ensures |r| == |a| && multiset(r) == multiset(a)
    ensures forall i :: 0 <= i < index && i < |a| ==> r[i] == a[i]
    decreases |a| - index
  {
    var left := LeftChildIndex(index);
    var right := RightChildIndex(index);
    if left >= |a| then a
    else if right >= |a| then
      if cmp(a[index], a[left]) < 0 then a else Swap(a, index, left)
    else
      var smallest := if cmp(a[left], a[right]) < 0 then left else right;
      if cmp(a[index], a[smallest]) < 0 then a
      else SiftedDown(Swap(a, index, smallest), cmp, smallest)
  }

  /** siftUp(index): exchange with the parent while the parent is ordered strictly after. */
  function SiftedUp<T>(a: seq<T>, cmp: Comparator<T>, index: nat): (r: seq<T>)
    requires index < |a|
    ensures |r| == |a| && multiset(r) == multiset(a)
    decreases index
  {
    var parent := ParentIndex(index);
    if parent >= 0 && cmp(a[parent], a[index]) > 0 then SiftedUp(Swap(a, index, parent), cmp, parent)
    else a
  }

  /** push(item): append, then sift the new last slot up. */
  function Pushed<T>(a: seq<T>, cmp: Comparator<T>, item: T): (r: seq<T>)
    ensures |r| == |a| + 1
    ensures multiset(r) == multiset(a) + multiset{item}
  {
    SiftedUp(a + [item], cmp, |a|)
  }

  /**
   * pop(): nothing on an empty array; otherwise exchange the root with the last
   * slot, remove the last slot and return it, and sift the new root down.
   */
  function Popped<T>(a: seq<T>, cmp: Comparator<T>): (r: (Option<T>, seq<T>))
    ensures a == [] ==> r == (None, a)
    ensures a != [] ==> r.0 == Some(a[0])
    ensures a != [] ==> |r.1| == |a| - 1 && multiset(r.1) == multiset(a) - multiset{a[0]}
  {
    if |a| == 0 then (None, a)
    else
      var swapped := Swap(a, 0, |a| - 1);
      var value := swapped[|a| - 1];
      assert swapped == swapped[..|a| - 1] + [value];
      (Some(value), SiftedDown(swapped[..|a| - 1], cmp, 0))
  }

  /** The body of from: sift down index i, then i - 1, ..., down to 0. */
  function Built<T>(a: seq<T>, cmp: Comparator<T>, i: int): (r: seq<T>)
    ensures |r| == |a| && multiset(r) == multiset(a)
    decreases i + 1
  {
    if i < 0 then a else Built(SiftedDown(a, cmp, i), cmp, i - 1)
  }

  /** from(array): the loop starts at Math.floor(length / 2) - 1, with the default comparator. */
  function Heapified(a: seq<int>): seq<int> {
    Built(a, NumericCompare, |a| / 2 - 1)
  }

  /** Pop until empty: the values in the order they come out. */
  function Drained<T>(a: seq<T>, cmp: Comparator<T>): (r: seq<T>)
    ensures |r| == |a| && multiset(r) == multiset(a)
    decreases |a|
  {
    if a == [] then [] else [a[0]] + Drained(Popped(a, cmp).1, cmp)
  }

  /** Push every item of items, in order. */
  function PushedAll<T>(a: seq<T>, cmp: Comparator<T>, items: seq<T>): (r: seq<T>)
    ensures multiset(r) == multiset(a) + multiset(items)
    decreases |items|
  {
    if items == [] then a
    else
      assert items == [items[0]] + items[1..];
      PushedAll(Pushed(a, cmp, items[0]), cmp, items[1..])
  }

  // ---------------------------------------------------------------------------
  // What the algorithms guarantee

  /** In a heap the root is ordered before or equal to every element. */
  lemma {:induction false} RootIsMinimal<T(!new)>(a: seq<T>, cmp: Comparator<T>, i: nat)
    requires IsTotalPreorder(cmp) && IsHeap(a, cmp)
    requires i < |a|
    ensures cmp(a[0], a[i]) <= 0
    decreases i
  {
    if i == 0 {
      Reflexive(cmp, a[0]);
    } else {
      RootIsMinimal(a, cmp, ParentIndex(i));
    }
  }

  /** A node ordered before all its children completes HeapFromExcept to HeapFrom. */
  lemma SettledNode<T>(a: seq<T>, cmp: Comparator<T>, lo: int, k: int)
    requires HeapFromExcept(a, cmp, lo, k)
    requires forall i :: 0 < i < |a| && ParentIndex(i) == k ==> cmp(a[k], a[i]) <= 0
    ensures HeapFrom(a, cmp, lo)
  {
  }

  /**
   * Exchanging k with a child c that is ordered before k and before all of k's
   * children moves the gap in heap order from k down to c.
   */
  lemma SwapDownStep<T(!new)>(a: seq<T>, cmp: Comparator<T>, lo: nat, k: nat, c: nat)
    requires IsTotalPreorder(cmp)
    requires lo <= k < c < |a| && ParentIndex(c) == k
    requires forall i :: 0 < i < |a| && ParentIndex(i) == k ==> cmp(a[c], a[i]) <= 0
    requires cmp(a[c], a[k]) <= 0
    requires HeapFromExcept(a, cmp, lo, k) && ParentAboveChildren(a, cmp, lo, k)
    ensures HeapFromExcept(Swap(a, k, c), cmp, lo, c) && ParentAboveChildren(Swap(a, k, c), cmp, lo, c)
  {
    var b := Swap(a, k, c);
    forall i | 0 < i < |b| && lo <= ParentIndex(i) && ParentIndex(i) != c
      ensures cmp(b[ParentIndex(i)], b[i]) <= 0
    {
      if i == k {
        assert cmp(a[ParentIndex(k)], a[c]) <= 0;
      } else if i == c {
        assert b[ParentIndex(i)] == a[c] && b[i] == a[k];
      } else if ParentIndex(i) == k {
        assert b[ParentIndex(i)] == a[c] && b[i] == a[i];
      } else {
        assert ParentIndex(i) != c;
      }
    }
    forall i | 0 < i < |b| && ParentIndex(i) == c
      ensures cmp(b[ParentIndex(c)], b[i]) <= 0
    {
      assert i != c && i != k && b[i] == a[i] && b[k] == a[c];
    }
  }

  /**
   * Sifting k down restores heap order from lo on, when it held there except
   * between k and its children and k's parent (when in range) is ordered
   * before those children.
   */
  lemma {:induction false} SiftDownRestoresHeap<T(!new)>(a: seq<T>, cmp: Comparator<T>, lo: nat, k: nat)
    requires IsTotalPreorder(cmp)
    requires lo <= k
    requires HeapFromExcept(a, cmp, lo, k) && ParentAboveChildren(a, cmp, lo, k)
    ensures HeapFrom(SiftedDown(a, cmp, k), cmp, lo)
    decreases |a| - k
  {
    var left := LeftChildIndex(k);
    var right := RightChildIndex(k);
    ParentOfChildren(k);
    if left >= |a| {
      SettledNode(a, cmp, lo, k);
    } else if right >= |a| {
      if cmp(a[k], a[left]) < 0 {
        SettledNode(a, cmp, lo, k);
      } else {
        Reflexive(cmp, a[left]);
        SwapDownStep(a, cmp, lo, k, left);
        SettledNode(Swap(a, k, left), cmp, lo, left);
      }
    } else {
      var smallest := if cmp(a[left], a[right]) < 0 then left else right;
      Reflexive(cmp, a[smallest]);
      assert cmp(a[smallest], a[left]) <= 0 && cmp(a[smallest], a[right]) <= 0;
      if cmp(a[k], a[smallest]) < 0 {
        SettledNode(a, cmp, lo, k);
      } else {
        SwapDownStep(a, cmp, lo, k, smallest);
        SiftDownRestoresHeap(Swap(a, k, smallest), cmp, lo, smallest);
      }
    }
  }

  /**
   * Sifting k up restores the heap property when it held everywhere except
   * between k and its parent, and k's parent is ordered before k's children.
   */
  lemma {:induction false} SiftUpRestoresHeap<T(!new)>(a: seq<T>, cmp: Comparator<T>, k: nat)
    requires IsTotalPreorder(cmp)
    requires k < |a|
    requires HeapExceptAt(a, cmp, k) && GrandparentBridge(a, cmp, k)
    ensures IsHeap(SiftedUp(a, cmp, k), cmp)
    decreases k
  {
    var parent := ParentIndex(k);
    if parent >= 0 && cmp(a[parent], a[k]) > 0 {
      var b := Swap(a, k, parent);
      assert cmp(a[k], a[parent]) < 0;
      assert HeapExceptAt(b, cmp, parent) by {
        forall i | 0 < i < |b| && i != parent
          ensures cmp(b[ParentIndex(i)], b[i]) <= 0
        {
          if ParentIndex(i) == parent && i != k {
            assert cmp(a[parent], a[i]) <= 0;
          }
        }
      }
      assert GrandparentBridge(b, cmp, parent) by {
        if 0 < parent {
          forall i | 0 < i < |b| && ParentIndex(i) == parent
            ensures cmp(b[ParentIndex(parent)], b[i]) <= 0
          {
            assert cmp(a[ParentIndex(parent)], a[parent]) <= 0;
            if i != k {
              assert cmp(a[parent], a[i]) <= 0;
            }
          }
        }
      }
      SiftUpRestoresHeap(b, cmp, parent);
    }
  }

  /** push keeps the heap property. */
  lemma PushKeepsHeap<T(!new)>(a: seq<T>, cmp: Comparator<T>, item: T)
    requires IsTotalPreorder(cmp) && IsHeap(a, cmp)
    ensures IsHeap(Pushed(a, cmp, item), cmp)
  {
    var b := a + [item];
    assert HeapExceptAt(b, cmp, |a|);
    SiftUpRestoresHeap(b, cmp, |a|);
  }

  /** pop on a heap returns a minimal element and keeps the heap property. */
  lemma PopKeepsHeap<T(!new)>(a: seq<T>, cmp: Comparator<T>)
    requires IsTotalPreorder(cmp) && IsHeap(a, cmp)
    ensures IsHeap(Popped(a, cmp).1, cmp)
    ensures forall y :: y in a ==> cmp(Popped(a, cmp).0.value, y) <= 0
  {
    if a != [] {
      forall y | y in a ensures cmp(a[0], y) <= 0 {
        var i :| 0 <= i < |a| && a[i] == y;
        RootIsMinimal(a, cmp, i);
      }
      var swapped := Swap(a, 0, |a| - 1);
      var rest := swapped[..|a| - 1];
      assert HeapFromExcept(rest, cmp, 0, 0) by {
        forall i | 0 < i < |rest| && 0 <= ParentIndex(i) && ParentIndex(i) != 0
          ensures cmp(rest[ParentIndex(i)], rest[i]) <= 0
        {
          assert rest[i] == a[i] && rest[ParentIndex(i)] == a[ParentIndex(i)];
        }
      }
      SiftDownRestoresHeap(rest, cmp, 0, 0);
    }
  }

  /** The from loop: once every node past i is settled, sifting i..0 down yields a heap. */
  lemma {:induction false} BuiltIsHeap<T(!new)>(a: seq<T>, cmp: Comparator<T>, i: int)
    requires IsTotalPreorder(cmp)
    requires HeapFrom(a, cmp, i + 1)
    ensures IsHeap(Built(a, cmp, i), cmp)
    decreases i + 1
  {
    if i < 0 {
      HeapFromZero(a, cmp);
    } else {
      SiftDownRestoresHeap(a, cmp, i, i);
      BuiltIsHeap(SiftedDown(a, cmp, i), cmp, i - 1);
    }
  }

  /**
   * from(array) returns a heap holding exactly the array's elements: nodes at
   * Math.floor(length / 2) and beyond have no children, so the loop covers
   * every internal node.
   */
  lemma HeapifiedIsHeap(a: seq<int>)
    ensures IsHeap(Heapified(a), NumericCompare)
    ensures multiset(Heapified(a)) == multiset(a)
  {
    NumericCompareIsTotalPreorder();
    assert HeapFrom(a, NumericCompare, |a| / 2);
    BuiltIsHeap(a, NumericCompare, |a| / 2 - 1);
  }

  /** Popping a heap until it is empty yields its elements in sorted order. */
  lemma {:induction false} DrainedIsSorted<T(!new)>(a: seq<T>, cmp: Comparator<T>)
    requires IsTotalPreorder(cmp) && IsHeap(a, cmp)
    ensures Sorted(Drained(a, cmp), cmp)
    decreases |a|
  {
    if a != [] {
      var rest := Popped(a, cmp).1;
      PopKeepsHeap(a, cmp);
      DrainedIsSorted(rest, cmp);
      var d := Drained(a, cmp);
      assert d == [a[0]] + Drained(rest, cmp);
      forall i, j | 0 <= i < j < |d| ensures cmp(d[i], d[j]) <= 0 {
        if i == 0 {
          assert d[j] in multiset(Drained(rest, cmp));
          assert d[j] in multiset(a);
        }
      }
    }
  }

  /** Pushing onto a heap, item after item, keeps it a heap. */
  lemma {:induction false} PushedAllIsHeap<T(!new)>(a: seq<T>, cmp: Comparator<T>, items: seq<T>)
    requires IsTotalPreorder(cmp) && IsHeap(a, cmp)
    ensures IsHeap(PushedAll(a, cmp, items), cmp)
    decreases |items|
  {
    if items != [] {
      PushKeepsHeap(a, cmp, items[0]);
      PushedAllIsHeap(Pushed(a, cmp, items[0]), cmp, items[1..]);
    }
  }

  /**
   * Pushing items onto an empty heap and popping them all gives them back in
   * sorted order; with the default comparator this is the same output as
   * from(items) followed by popping them all.
   */
  lemma PushThenDrainIsSorted<T(!new)>(cmp: Comparator<T>, items: seq<T>)
    requires IsTotalPreorder(cmp)
    ensures Sorted(Drained(PushedAll([], cmp, items), cmp), cmp)
    ensures multiset(Drained(PushedAll([], cmp, items), cmp)) == multiset(items)
  {
    PushedAllIsHeap([], cmp, items);
    DrainedIsSorted(PushedAll([], cmp, items), cmp);
  }

  /** Bulk build and one-by-one pushes pop the same numbers in the same order. */
  lemma HeapifiedDrainsLikePushes(items: seq<int>)
    ensures Drained(Heapified(items), NumericCompare) == Drained(PushedAll([], NumericCompare, items), NumericCompare)
  {
    NumericCompareIsTotalPreorder();
    HeapifiedIsHeap(items);
    DrainedIsSorted(Heapified(items), NumericCompare);
    PushThenDrainIsSorted(NumericCompare, items);
    SortedNumbersUnique(Drained(Heapified(items), NumericCompare), Drained(PushedAll([], NumericCompare, items), NumericCompare));
  }

  // ---------------------------------------------------------------------------
  // The class

  /** A binary heap: the array is the tree, the comparator fixed at construction. */
  class BinaryHeap<T(!new)> {
    var elements: seq<T>
    const comparator: Comparator<T>

    /** The comparator keeps its contract and the array is in heap order. */
    ghost predicate Valid()
      reads this
    {
      IsTotalPreorder(comparator) && IsHeap(elements, comparator)
    }

    constructor (comparator: Comparator<T>)
      ensures elements == [] && this.comparator == comparator
      ensures IsTotalPreorder(comparator) ==> Valid()
    {
      elements := [];
      this.comparator := comparator;
    }

    /** #swap: exchange two slots of the elements. */
    method SwapSlots(index1: nat, index2: nat)
      requires index1 < |elements| && index2 < |elements|
      modifies this
      ensures elements == Swap(old(elements), index1, index2)
    {
      elements := Swap(elements, index1, index2);
    }

    /** #compare: the comparator applied to two slots of the elements. */
    function Compare(index1: nat, index2: nat): int
      reads this
      requires index1 < |elements| && index2 < |elements|
    {
      comparator(elements[index1], elements[index2])
    }

    method SiftDown(index: nat)
      modifies this
      ensures elements == SiftedDown(old(elements), comparator, index)
      ensures multiset(elements) == multiset(old(elements)) && |elements| == |old(elements)|
    {
      var i: nat := index;
      while true
        invariant |elements| == |old(elements)|
        invariant SiftedDown(elements, comparator, i) == SiftedDown(old(elements), comparator, index)
        decreases |elements| - i
      {
        var left := LeftChildIndex(i);
        var right := RightChildIndex(i);
        if left >= |elements| {
          return;
        }
        if right >= |elements| {
          if Compare(i, left) < 0 {
            return;
          }
          SwapSlots(i, left);
          return;
        }
        var smallestIndex := if Compare(left, right) < 0 then left else right;
        if Compare(i, smallestIndex) < 0 {
          return;
        }
        SwapSlots(i, smallestIndex);
        i := smallestIndex;
      }
    }

    method SiftUp(index: nat)
      requires index < |elements|
      modifies this
      ensures elements == SiftedUp(old(elements), comparator, index)
      ensures multiset(elements) == multiset(old(elements)) && |elements| == |old(elements)|
    {
      var i: nat := index;
      var parentIndex := ParentIndex(i);
      while parentIndex >= 0 && Compare(parentIndex, i) > 0
        invariant i < |elements| == |old(elements)|
        invariant parentIndex == ParentIndex(i)
        invariant SiftedUp(elements, comparator, i) == SiftedUp(old(elements), comparator, index)
        decreases i
      {
        SwapSlots(i, parentIndex);
        i := parentIndex;
        parentIndex := ParentIndex(i);
      }
    }

    /**
     * Removes and returns the first-ordered element; None, with nothing
     * changed, when the heap is empty.
     */
    method Pop() returns (value: Option<T>)
      modifies this
      ensures (value, elements) == Popped(old(elements), comparator)
      ensures old(elements) == [] ==> value == None && elements == []
      ensures old(elements) != [] ==> value == Some(old(elements[0])) && |elements| == |old(elements)| - 1
      ensures old(elements) != [] ==> multiset(elements) == multiset(old(elements)) - multiset{value.value}
      ensures old(Valid()) ==> Valid()
      ensures old(Valid()) && value.Some? ==> forall y :: y in old(elements) ==> comparator(value.value, y) <= 0
    {
      if |elements| == 0 {
        return None;
      }
      ghost var before := elements;
      SwapSlots(0, |elements| - 1);
      value := Some(elements[|elements| - 1]);
      elements := elements[..|elements| - 1];
      SiftDown(0);
      assert (value, elements) == Popped(before, comparator);
      if IsTotalPreorder(comparator) && IsHeap(before, comparator) {
        PopKeepsHeap(before, comparator);
      }
    }

    /** Adds item, keeping heap order. */
    method Push(item: T)
      modifies this
      ensures elements == Pushed(old(elements), comparator, item)
      ensures |elements| == |old(elements)| + 1
      ensures multiset(elements) == multiset(old(elements)) + multiset{item}
      ensures old(Valid()) ==> Valid()
    {
      ghost var before := elements;
      elements := elements + [item];
      SiftUp(|elements| - 1);
      if IsTotalPreorder(comparator) && IsHeap(before, comparator) {
        PushKeepsHeap(before, comparator, item);
      }
    }

    /** The first-ordered element without removing it; None when empty. */
    method Peek() returns (value: Option<T>)
      ensures elements == [] ==> value == None
      ensures elements != [] ==> value == Some(elements[0])
      ensures Valid() && value.Some? ==> forall y :: y in elements ==> comparator(value.value, y) <= 0
    {
      if |elements| == 0 {
        return None;
      }
      value := Some(elements[0]);
      if Valid() {
        forall y | y in elements ensures comparator(elements[0], y) <= 0 {
          var i :| 0 <= i < |elements| && elements[i] == y;
          RootIsMinimal(elements, comparator, i);
        }
      }
    }
  }

  /** new BinaryHeap(): an empty heap with the default comparator (a, b) => a - b. */
  method NewDefault() returns (heap: BinaryHeap<int>)
    ensures fresh(heap) && heap.elements == [] && heap.comparator == NumericCompare
    ensures heap.Valid()
  {
    NumericCompareIsTotalPreorder();
    heap := new BinaryHeap(NumericCompare);
  }

  /**
   * BinaryHeap.from(array): takes the array over and sifts down
   * Math.floor(length / 2) - 1, ..., 0, always with the default comparator.
   */
  method From(items: seq<int>) returns (heap: BinaryHeap<int>)
    ensures fresh(heap) && heap.comparator == NumericCompare
    ensures heap.elements == Heapified(items)
    ensures multiset(heap.elements) == multiset(items) && heap.Valid()
  {
    heap := new BinaryHeap(NumericCompare);
    heap.elements := items;
    var i := |items| / 2 - 1;
    while i >= 0
      invariant -1 <= i
      invariant Built(heap.elements, NumericCompare, i) == Heapified(items)
      decreases i + 1
    {
      heap.SiftDown(i);
      i := i - 1;
    }
    HeapifiedIsHeap(items);
    NumericCompareIsTotalPreorder();
  }
}
