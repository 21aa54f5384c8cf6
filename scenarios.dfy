/**
 * The scenarios the repository's tests exercise, stated over the engines'
 * functions: pop orders after bulk builds and after pushes, and the root after
 * a long run of pushes.
 */
module HeapScenarios {
  import opened Common
  import BinaryHeaps
  import DAryHeaps

  /** Array.from(Array(count).keys()): 0, 1, ..., count - 1. */
  function Range(count: nat): seq<int>
  {
    seq(count, i => i)
  }

  /** count, count - 1, ..., 1: the pushes of the "worst case" test. */
  function Countdown(count: nat): seq<int>
  {
    seq(count, i => count - i)
  }

  lemma RangeIsSorted(count: nat)
    ensures Sorted(Range(count), NumericCompare)
  {
  }

  /** A binary heap built by from pops its numbers in ascending order. */
  lemma BinaryFromPopsAscending(items: seq<int>, expected: seq<int>)
    requires Sorted(expected, NumericCompare) && multiset(items) == multiset(expected)
    ensures BinaryHeaps.Drained(BinaryHeaps.Heapified(items), NumericCompare) == expected
  {
    NumericCompareIsTotalPreorder();
    var h := BinaryHeaps.Heapified(items);
    BinaryHeaps.HeapifiedIsHeap(items);
    BinaryHeaps.DrainedIsSorted(h, NumericCompare);
    SortedNumbersUnique(BinaryHeaps.Drained(h, NumericCompare), expected);
  }

  /** Numbers pushed onto an empty binary heap pop in ascending order. */
  lemma BinaryPushesPopAscending(items: seq<int>, expected: seq<int>)
    requires Sorted(expected, NumericCompare) && multiset(items) == multiset(expected)
    ensures BinaryHeaps.Drained(BinaryHeaps.PushedAll([], NumericCompare, items), NumericCompare) == expected
  {
    NumericCompareIsTotalPreorder();
    BinaryHeaps.PushThenDrainIsSorted(NumericCompare, items);
    SortedNumbersUnique(BinaryHeaps.Drained(BinaryHeaps.PushedAll([], NumericCompare, items), NumericCompare), expected);
  }

  /** A d-ary heap built by from pops its numbers in ascending order when from covers every parent. */
  lemma DAryFromPopsAscending(items: seq<int>, n: int, expected: seq<int>)
    requires n >= 1 && (n <= 2 || |items| % n < 2)
    requires Sorted(expected, NumericCompare) && multiset(items) == multiset(expected)
    ensures DAryHeaps.Drained(DAryHeaps.Heapified(items, NumericCompare, n), NumericCompare, n) == expected
  {
    NumericCompareIsTotalPreorder();
    var h := DAryHeaps.Heapified(items, NumericCompare, n);
    DAryHeaps.HeapifiedIsHeap(items, NumericCompare, n);
    DAryHeaps.DrainedIsSorted(h, NumericCompare, n);
    SortedNumbersUnique(DAryHeaps.Drained(h, NumericCompare, n), expected);
  }

  /** Numbers pushed onto an empty d-ary heap pop in ascending order, for every arity. */
  lemma DAryPushesPopAscending(items: seq<int>, n: int, expected: seq<int>)
    requires n >= 1
    requires Sorted(expected, NumericCompare) && multiset(items) == multiset(expected)
    ensures DAryHeaps.Drained(DAryHeaps.PushedAll([], NumericCompare, n, items), NumericCompare, n) == expected
  {
    NumericCompareIsTotalPreorder();
    DAryHeaps.PushThenDrainIsSorted(NumericCompare, n, items);
    SortedNumbersUnique(DAryHeaps.Drained(DAryHeaps.PushedAll([], NumericCompare, n, items), NumericCompare, n), expected);
  }

  /** BinaryHeap.from([3, 2, 1]) pops 1, 2, 3. */
  lemma BinaryFromTestOrder()
    ensures BinaryHeaps.Drained(BinaryHeaps.Heapified([3, 2, 1]), NumericCompare) == [1, 2, 3]
  {
    BinaryFromPopsAscending([3, 2, 1], [1, 2, 3]);
  }

  /** Pushing 1, 3, 2 onto an empty binary heap pops 1, 2, 3. */
  lemma BinaryPushTestOrder()
    ensures BinaryHeaps.Drained(BinaryHeaps.PushedAll([], NumericCompare, [1, 3, 2]), NumericCompare) == [1, 2, 3]
  {
    BinaryPushesPopAscending([1, 3, 2], [1, 2, 3]);
  }

  /** Pushing 1, 3, 2 onto an empty 3-ary heap pops 1, 2, 3. */
  lemma DAryPushTestOrder()
    ensures DAryHeaps.Drained(DAryHeaps.PushedAll([], NumericCompare, 3, [1, 3, 2]), NumericCompare, 3) == [1, 2, 3]
  {
    DAryPushesPopAscending([1, 3, 2], 3, [1, 2, 3]);
  }

  /** DAryHeap.from([4, 3, 2, 1], 3) pops 1, 2, 3, 4. */
  lemma DAryFromTestOrder()
    ensures DAryHeaps.Drained(DAryHeaps.Heapified([4, 3, 2, 1], NumericCompare, 3), NumericCompare, 3) == [1, 2, 3, 4]
  {
    DAryFromPopsAscending([4, 3, 2, 1], 3, [1, 2, 3, 4]);
  }

  /** DAryHeap.from(0..9, 1) pops 0, 1, ..., 9. */
  lemma UnaryHeapTestOrder()
    ensures DAryHeaps.Drained(DAryHeaps.Heapified(Range(10), NumericCompare, 1), NumericCompare, 1) == Range(10)
  {
    RangeIsSorted(10);
    DAryFromPopsAscending(Range(10), 1, Range(10));
  }

  /** DAryHeap.from(0..99, 10) pops 0, 1, ..., 99. */
  lemma TenAryHeapTestOrder()
    ensures DAryHeaps.Drained(DAryHeaps.Heapified(Range(100), NumericCompare, 10), NumericCompare, 10) == Range(100)
  {
    RangeIsSorted(100);
    DAryFromPopsAscending(Range(100), 10, Range(100));
  }

  /** The custom comparator of the d-ary test: longer names first. */
  function LongerNameFirst(a: string, b: string): int {
    |b| - |a|
  }

  /** A sequence holding exactly one x is [x]. */
  lemma SingletonOf<T>(s: seq<T>, x: T)
    requires multiset(s) == multiset{x}
    ensures s == [x]
  {
    assert |s| == 1 by { assert |multiset(s)| == 1; }
    assert s[0] in multiset(s);
  }

  /**
   * DAryHeap.from([dog1, dog2], 3, longer name first) pops dog1 ("woofer"),
   * then dog2 ("goof"): from's loop starts below 0 for two elements, so the
   * array stays as given, and each pop takes the root.
   */
  lemma DAryCustomComparatorOrder(dogs: seq<string>)
    requires dogs == ["woofer", "goof"]
    ensures DAryHeaps.Drained(DAryHeaps.Heapified(dogs, LongerNameFirst, 3), LongerNameFirst, 3) == dogs
  {
    assert DAryHeaps.Heapified(dogs, LongerNameFirst, 3) == dogs;
    var rest := DAryHeaps.Popped(dogs, LongerNameFirst, 3).1;
    assert multiset(rest) == multiset{"goof"} by {
      assert multiset(dogs) == multiset{"woofer", "goof"};
    }
    SingletonOf(rest, "goof");
    assert DAryHeaps.Popped(rest, LongerNameFirst, 3).1 == [];
  }

  /** After pushing count, count - 1, ..., 1 onto an empty binary heap, its root is 1. */
  lemma BinaryCountdownRootIsOne(count: nat)
    requires count >= 1
    ensures BinaryHeaps.PushedAll([], NumericCompare, Countdown(count))[0] == 1
  {
    NumericCompareIsTotalPreorder();
    var h := BinaryHeaps.PushedAll([], NumericCompare, Countdown(count));
    BinaryHeaps.PushedAllIsHeap([], NumericCompare, Countdown(count));
    assert multiset(h) == multiset(Countdown(count));
    assert |h| == count by { assert |multiset(h)| == |multiset(Countdown(count))|; }
    assert h[0] in multiset(Countdown(count));
    assert 1 in multiset(h) by { assert Countdown(count)[count - 1] == 1; }
    var j :| 0 <= j < |h| && h[j] == 1;
    BinaryHeaps.RootIsMinimal(h, NumericCompare, j);
  }

  /** After pushing count, count - 1, ..., 1 onto an empty 3-ary heap, its root is 1. */
  lemma DAryCountdownRootIsOne(count: nat)
    requires count >= 1
    ensures DAryHeaps.PushedAll([], NumericCompare, 3, Countdown(count))[0] == 1
  {
    NumericCompareIsTotalPreorder();
    var h := DAryHeaps.PushedAll([], NumericCompare, 3, Countdown(count));
    DAryHeaps.PushedAllIsHeap([], NumericCompare, 3, Countdown(count));
    assert multiset(h) == multiset(Countdown(count));
    assert |h| == count by { assert |multiset(h)| == |multiset(Countdown(count))|; }
    assert h[0] in multiset(Countdown(count));
    assert 1 in multiset(h) by { assert Countdown(count)[count - 1] == 1; }
    var j :| 0 <= j < |h| && h[j] == 1;
    DAryHeaps.RootIsMinimal(h, NumericCompare, 3, j);
  }
}
