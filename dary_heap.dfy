/**
 * The d-ary heap engine: the same min-heap as the binary engine, but every
 * node has up to `arity` children: parent (i - 1) / arity (rounded down) and
 * j-th child arity * i + j for j in 1..arity.
 *
 * As in the binary engine, the functions SiftedDown, SiftedUp, Pushed, Popped
 * and Built follow the loops of the class methods step by step, the methods
 * are proved to leave the array exactly as those functions say, and the
 * lemmas prove what the engine promises about the functions.
 */
module DAryHeaps {
  import opened Common

  // ---------------------------------------------------------------------------
  // Index arithmetic

  /** 1 <= m makes n * m at least n. */
  lemma MulAtLeast(n: int, m: int)
    requires n >= 1 && m >= 1
    ensures n * m >= n
  {
    assert n * m == n * (m - 1) + n;
    assert n * (m - 1) >= 0;
  }

  /** Rounded-down division by a positive n is pinned down by its bounds. */
  lemma DivIsFloor(x: int, n: int, q: int)
    requires n >= 1
    ensures x / n == q <==> n * q <= x < n * q + n
  {
    var d := x / n;
    assert x == n * d + x % n && 0 <= x % n < n;
    if d < q {
      MulAtLeast(n, q - d);
    } else if d > q {
      MulAtLeast(n, d - q);
    }
  }

  /** The parent computed below lies before its child, and the root has none. */
  lemma ParentBelow(n: int, index: int)
    requires n >= 1
    ensures index > 0 ==> 0 <= (index - 1) / n < index
    ensures index == 0 ==> (index - 1) / n == -1
  {
    DivIsFloor(index - 1, n, -1);
    if index > 0 {
      var d := (index - 1) / n;
      DivIsFloor(index - 1, n, d);
      if d > 0 {
        MulAtLeast(d, n);
      }
    }
  }

  /** Math.floor((index - 1) / n); -1 for the root, so sift-up stops there. */
  function ParentIndex(n: int, index: int): (p: int)
    requires n >= 1
    ensures index > 0 ==> 0 <= p < index
    ensures index == 0 ==> p == -1
  {
    ParentBelow(n, index);
    (index - 1) / n
  }

  /** The nth (1-based) of the arity children of index. */
  function NthChildIndex(nth: int, arity: int, index: int): int {
    arity * index + nth
  }

  /** The nodes whose parent is k are exactly k's arity children. */
  lemma ParentIndexIff(n: int, i: int, k: int)
    requires n >= 1
    ensures ParentIndex(n, i) == k <==> NthChildIndex(1, n, k) <= i <= NthChildIndex(n, n, k)
  {
    DivIsFloor(i - 1, n, k);
  }

  /** Every child of a node names that node as its parent. */
  lemma ParentOfNthChild(n: int, nth: int, index: int)
    requires n >= 1 && 1 <= nth <= n
    ensures ParentIndex(n, NthChildIndex(nth, n, index)) == index
  {
    ParentIndexIff(n, NthChildIndex(nth, n, index), index);
  }

  /** The first child of a node lies beyond it. */
  lemma FirstChildBeyond(n: int, index: nat)
    requires n >= 1
    ensures NthChildIndex(1, n, index) > index
  {
    if index > 0 {
      MulAtLeast(index, n);
    }
  }

  /** The filter in siftDown keeps children below the length: they end here. */
  function ChildrenEnd(len: nat, arity: int, index: nat): int {
    var first := NthChildIndex(1, arity, index);
    if first + arity <= len then first + arity else len
  }

  /**
   * The reduce in siftDown, (a, b) => (cmp(a, b) < 0 ? a : b), over the
   * in-bounds children first..end - 1: a left fold, so the last step compares
   * the winner of the prefix with the last child, and a tie goes to the later
   * child.
   */
  function SmallestChild<T(!new)>(a: seq<T>, cmp: Comparator<T>, first: nat, end: nat): (r: nat)
    requires first < end <= |a|
    ensures first <= r < end
    ensures IsTotalPreorder(cmp) ==> forall j :: first <= j < end ==> cmp(a[r], a[j]) <= 0
    ensures IsTotalPreorder(cmp) ==> forall j :: r < j < end ==> cmp(a[r], a[j]) < 0
    decreases end - first
  {
    if end == first + 1 then
      first
    else
      var best := SmallestChild(a, cmp, first, end - 1);
      if cmp(a[best], a[end - 1]) < 0 then best else end - 1
  }

  // ---------------------------------------------------------------------------
  // Heap order

  /** The heap property: no element is ordered strictly before its parent. */
  ghost predicate IsHeap<T>(a: seq<T>, cmp: Comparator<T>, n: int)
    requires n >= 1
  {
    forall i :: 0 < i < |a| ==> cmp(a[ParentIndex(n, i)], a[i]) <= 0
  }

  /** Heap order on every parent-child pair whose parent is at lo or beyond. */
  ghost predicate HeapFrom<T>(a: seq<T>, cmp: Comparator<T>, n: int, lo: int)
    requires n >= 1
  {
    forall i :: 0 < i < |a| && lo <= ParentIndex(n, i) ==> cmp(a[ParentIndex(n, i)], a[i]) <= 0
  }

  /** HeapFrom, except possibly between k and its children. */
  ghost predicate HeapFromExcept<T>(a: seq<T>, cmp: Comparator<T>, n: int, lo: int, k: int)
    requires n >= 1
  {
    forall i :: 0 < i < |a| && lo <= ParentIndex(n, i) && ParentIndex(n, i) != k ==>
      cmp(a[ParentIndex(n, i)], a[i]) <= 0
  }

  /** When k's parent is in range, it is ordered before k's children too. */
  ghost predicate ParentAboveChildren<T>(a: seq<T>, cmp: Comparator<T>, n: int, lo: int, k: int)
    requires n >= 1
  {
    k < |a| && 0 <= lo <= ParentIndex(n, k) ==>
      forall i :: 0 < i < |a| && ParentIndex(n, i) == k ==> cmp(a[ParentIndex(n, k)], a[i]) <= 0
  }

  /** Heap order everywhere except between k and its parent (sift-up). */
  ghost predicate HeapExceptAt<T>(a: seq<T>, cmp: Comparator<T>, n: int, k: int)
    requires n >= 1
  {
    forall i :: 0 < i < |a| && i != k ==> cmp(a[ParentIndex(n, i)], a[i]) <= 0
  }

  /** While k moves up, k's parent is also ordered before k's children. */
  ghost predicate GrandparentBridge<T>(a: seq<T>, cmp: Comparator<T>, n: int, k: int)
    requires n >= 1
  {
    0 < k < |a| ==>
      forall i :: 0 < i < |a| && ParentIndex(n, i) == k ==> cmp(a[ParentIndex(n, k)], a[i]) <= 0
  }

  lemma HeapFromZero<T>(a: seq<T>, cmp: Comparator<T>, n: int)
    requires n >= 1
    ensures HeapFrom(a, cmp, n, 0) <==> IsHeap(a, cmp, n)
  {
  }

  // ---------------------------------------------------------------------------
  // The algorithms as functions

  /**
   * siftDown(index): while the node has children, pick the first-ordered
   * in-bounds child (the last one on a tie); stop if the node is ordered
   * strictly before it, otherwise exchange the two and continue from there.
   */
  function SiftedDown<T(!new)>(a: seq<T>, cmp: Comparator<T>, n: int, index: nat): (r: seq<T>)
    requires n >= 1
    ensures |r| == |a| && multiset(r) == multiset(a)
    ensures forall i :: 0 <= i < index && i < |a| ==> r[i] == a[i]
    decreases |a| - index
  {
    var first := NthChildIndex(1, n, index);
    FirstChildBeyond(n, index);
    if first >= |a| then a
    else
      var smallest := SmallestChild(a, cmp, first, ChildrenEnd(|a|, n, index));
      if cmp(a[index], a[smallest]) < 0 then a
      else SiftedDown(Swap(a, smallest, index), cmp, n, smallest)
  }

  /** siftUp(index): exchange with the parent while the parent is ordered strictly after. */
  function SiftedUp<T>(a: seq<T>, cmp: Comparator<T>, n: int, index: nat): (r: seq<T>)
    requires n >= 1 && index < |a|
    ensures |r| == |a| && multiset(r) == multiset(a)
    decreases index
  {
    var parent := ParentIndex(n, index);
    if parent >= 0 && cmp(a[parent], a[index]) > 0 then SiftedUp(Swap(a, index, parent), cmp, n, parent)
    else a
  }

  /** push(item): append, then sift the new last slot up. */
  function Pushed<T>(a: seq<T>, cmp: Comparator<T>, n: int, item: T): (r: seq<T>)
    requires n >= 1
    ensures |r| == |a| + 1
    ensures multiset(r) == multiset(a) + multiset{item}
  {
    SiftedUp(a + [item], cmp, n, |a|)
  }

  /**
   * pop(): nothing on an empty array; otherwise exchange the root with the last
   * slot, remove the last slot and return it, and sift the new root down.
   */
  function Popped<T(!new)>(a: seq<T>, cmp: Comparator<T>, n: int): (r: (Option<T>, seq<T>))
    requires n >= 1
    ensures a == [] ==> r == (None, a)
    ensures a != [] ==> r.0 == Some(a[0])
    ensures a != [] ==> |r.1| == |a| - 1 && multiset(r.1) == multiset(a) - multiset{a[0]}
  {
    if |a| == 0 then (None, a)
    else
      var swapped := Swap(a, 0, |a| - 1);
      var value := swapped[|a| - 1];
      assert swapped == swapped[..|a| - 1] + [value];
      (Some(value), SiftedDown(swapped[..|a| - 1], cmp, n, 0))
  }

  /** The body of from: sift down index i, then i - 1, ..., down to 0. */
  function Built<T(!new)>(a: seq<T>, cmp: Comparator<T>, n: int, i: int): (r: seq<T>)
    requires n >= 1
    ensures |r| == |a| && multiset(r) == multiset(a)
    decreases i + 1
  {
    if i < 0 then a else Built(SiftedDown(a, cmp, n, i), cmp, n, i - 1)
  }

  /** from(array, n, comparator): the loop starts at Math.floor(length / n) - 1. */
  function Heapified<T(!new)>(a: seq<T>, cmp: Comparator<T>, n: int): (r: seq<T>)
    requires n >= 1
  {
    Built(a, cmp, n, |a| / n - 1)
  }

  /** Pop until empty: the values in the order they come out. */
  function Drained<T(!new)>(a: seq<T>, cmp: Comparator<T>, n: int): (r: seq<T>)
    requires n >= 1
    ensures |r| == |a| && multiset(r) == multiset(a)
    decreases |a|
  {
    if a == [] then [] else [a[0]] + Drained(Popped(a, cmp, n).1, cmp, n)
  }

  /** Push every item of items, in order. */
  function PushedAll<T>(a: seq<T>, cmp: Comparator<T>, n: int, items: seq<T>): (r: seq<T>)
    requires n >= 1
    ensures multiset(r) == multiset(a) + multiset(items)
    decreases |items|
  {
    if items == [] then a
    else
      assert items == [items[0]] + items[1..];
      PushedAll(Pushed(a, cmp, n, items[0]), cmp, n, items[1..])
  }

  // ---------------------------------------------------------------------------
  // What the algorithms guarantee

  /** The in-bounds children of k are exactly the slots first..end - 1 that siftDown reduces over. */
  lemma InBoundsChildren(n: int, len: nat, k: nat, i: int)
    requires n >= 1
    ensures 0 < i < len && ParentIndex(n, i) == k <==> NthChildIndex(1, n, k) <= i < ChildrenEnd(len, n, k)
  {
    ParentIndexIff(n, i, k);
    FirstChildBeyond(n, k);
  }

  /**
   * The child siftDown picks: an in-bounds child, ordered before or equal to
   * every in-bounds child, and strictly before every later one, so that of
   * several first-ordered children the last is picked.
   */
  lemma SmallestChildIsLastMinimal<T(!new)>(a: seq<T>, cmp: Comparator<T>, n: int, k: nat)
    requires n >= 1 && IsTotalPreorder(cmp)
    requires NthChildIndex(1, n, k) < |a|
    ensures var c := SmallestChild(a, cmp, NthChildIndex(1, n, k), ChildrenEnd(|a|, n, k));
      && 0 < c < |a| && ParentIndex(n, c) == k
      && c < NthChildIndex(1, n, k) + n
      && (forall i :: 0 < i < |a| && ParentIndex(n, i) == k ==> cmp(a[c], a[i]) <= 0)
      && (forall i :: c < i < |a| && ParentIndex(n, i) == k ==> cmp(a[c], a[i]) < 0)
  {
    var first, end := NthChildIndex(1, n, k), ChildrenEnd(|a|, n, k);
    var c := SmallestChild(a, cmp, first, end);
    FirstChildBeyond(n, k);
    InBoundsChildren(n, |a|, k, c);
    forall i | 0 < i < |a| && ParentIndex(n, i) == k ensures first <= i < end {
      InBoundsChildren(n, |a|, k, i);
    }
  }

  /** In a heap the root is ordered before or equal to every element. */
  lemma {:induction false} RootIsMinimal<T(!new)>(a: seq<T>, cmp: Comparator<T>, n: int, i: nat)
    requires n >= 1 && IsTotalPreorder(cmp) && IsHeap(a, cmp, n)
    requires i < |a|
    ensures cmp(a[0], a[i]) <= 0
    decreases i
  {
    if i == 0 {
      Reflexive(cmp, a[0]);
    } else {
      RootIsMinimal(a, cmp, n, ParentIndex(n, i));
    }
  }

  /** A node ordered before all its children completes HeapFromExcept to HeapFrom. */
  lemma SettledNode<T>(a: seq<T>, cmp: Comparator<T>, n: int, lo: int, k: int)
    requires n >= 1
    requires HeapFromExcept(a, cmp, n, lo, k)
    requires forall i :: 0 < i < |a| && ParentIndex(n, i) == k ==> cmp(a[k], a[i]) <= 0
    ensures HeapFrom(a, cmp, n, lo)
  {
  }

  /**
   * Exchanging k with a child c that is ordered before k and before all of k's
   * children moves the gap in heap order from k down to c.
   */
  lemma SwapDownStep<T(!new)>(a: seq<T>, cmp: Comparator<T>, n: int, lo: nat, k: nat, c: nat)
    requires n >= 1 && IsTotalPreorder(cmp)
    requires lo <= k < c < |a| && ParentIndex(n, c) == k
    requires forall i :: 0 < i < |a| && ParentIndex(n, i) == k ==> cmp(a[c], a[i]) <= 0
    requires cmp(a[c], a[k]) <= 0
    requires HeapFromExcept(a, cmp, n, lo, k) && ParentAboveChildren(a, cmp, n, lo, k)
    ensures HeapFromExcept(Swap(a, c, k), cmp, n, lo, c) && ParentAboveChildren(Swap(a, c, k), cmp, n, lo, c)
  {
    var b := Swap(a, c, k);
    forall i | 0 < i < |b| && lo <= ParentIndex(n, i) && ParentIndex(n, i) != c
      ensures cmp(b[ParentIndex(n, i)], b[i]) <= 0
    {
      if i == k {
        assert cmp(a[ParentIndex(n, k)], a[c]) <= 0;
      } else if i == c {
        assert b[ParentIndex(n, i)] == a[c] && b[i] == a[k];
      } else if ParentIndex(n, i) == k {
        assert b[ParentIndex(n, i)] == a[c] && b[i] == a[i];
      } else {
        assert ParentIndex(n, i) != c;
      }
    }
    forall i | 0 < i < |b| && ParentIndex(n, i) == c
      ensures cmp(b[ParentIndex(n, c)], b[i]) <= 0
    {
      assert i != c && i != k && b[i] == a[i] && b[k] == a[c];
    }
  }

  /**
   * Sifting k down restores heap order from lo on, when it held there except
   * between k and its children and k's parent (when in range) is ordered
   * before those children.
   */
  lemma {:induction false} SiftDownRestoresHeap<T(!new)>(a: seq<T>, cmp: Comparator<T>, n: int, lo: nat, k: nat)
    requires n >= 1 && IsTotalPreorder(cmp)
    requires lo <= k
    requires HeapFromExcept(a, cmp, n, lo, k) && ParentAboveChildren(a, cmp, n, lo, k)
    ensures HeapFrom(SiftedDown(a, cmp, n, k), cmp, n, lo)
    decreases |a| - k
  {
    var first := NthChildIndex(1, n, k);
    if first >= |a| {
      forall i | 0 < i < |a| ensures ParentIndex(n, i) != k {
        InBoundsChildren(n, |a|, k, i);
      }
      SettledNode(a, cmp, n, lo, k);
    } else {
      var smallest := SmallestChild(a, cmp, first, ChildrenEnd(|a|, n, k));
      SmallestChildIsLastMinimal(a, cmp, n, k);
      if cmp(a[k], a[smallest]) < 0 {
        SettledNode(a, cmp, n, lo, k);
      } else {
        SwapDownStep(a, cmp, n, lo, k, smallest);
        SiftDownRestoresHeap(Swap(a, smallest, k), cmp, n, lo, smallest);
      }
    }
  }

  /**
   * Sifting k up restores the heap property when it held everywhere except
   * between k and its parent, and k's parent is ordered before k's children.
   */
  lemma {:induction false} SiftUpRestoresHeap<T(!new)>(a: seq<T>, cmp: Comparator<T>, n: int, k: nat)
    requires n >= 1 && IsTotalPreorder(cmp)
    requires k < |a|
    requires HeapExceptAt(a, cmp, n, k) && GrandparentBridge(a, cmp, n, k)
    ensures IsHeap(SiftedUp(a, cmp, n, k), cmp, n)
    decreases k
  {
    var parent := ParentIndex(n, k);
    if parent >= 0 && cmp(a[parent], a[k]) > 0 {
      var b := Swap(a, k, parent);
      assert cmp(a[k], a[parent]) < 0;
      assert HeapExceptAt(b, cmp, n, parent) by {
        forall i | 0 < i < |b| && i != parent
          ensures cmp(b[ParentIndex(n, i)], b[i]) <= 0
        {
          if ParentIndex(n, i) == parent && i != k {
            assert cmp(a[parent], a[i]) <= 0;
          }
        }
      }
      assert GrandparentBridge(b, cmp, n, parent) by {
        if 0 < parent {
          forall i | 0 < i < |b| && ParentIndex(n, i) == parent
            ensures cmp(b[ParentIndex(n, parent)], b[i]) <= 0
          {
            assert cmp(a[ParentIndex(n, parent)], a[parent]) <= 0;
            if i != k {
              assert cmp(a[parent], a[i]) <= 0;
            }
          }
        }
      }
      SiftUpRestoresHeap(b, cmp, n, parent);
    }
  }

  /** push keeps the heap property, for every arity. */
  lemma PushKeepsHeap<T(!new)>(a: seq<T>, cmp: Comparator<T>, n: int, item: T)
    requires n >= 1 && IsTotalPreorder(cmp) && IsHeap(a, cmp, n)
    ensures IsHeap(Pushed(a, cmp, n, item), cmp, n)
  {
    var b := a + [item];
    assert HeapExceptAt(b, cmp, n, |a|);
    SiftUpRestoresHeap(b, cmp, n, |a|);
  }

  /** pop on a heap returns a minimal element and keeps the heap property. */
  lemma PopKeepsHeap<T(!new)>(a: seq<T>, cmp: Comparator<T>, n: int)
    requires n >= 1 && IsTotalPreorder(cmp) && IsHeap(a, cmp, n)
    ensures IsHeap(Popped(a, cmp, n).1, cmp, n)
    ensures forall y :: y in a ==> cmp(Popped(a, cmp, n).0.value, y) <= 0
  {
    if a != [] {
      forall y | y in a ensures cmp(a[0], y) <= 0 {
        var i :| 0 <= i < |a| && a[i] == y;
        RootIsMinimal(a, cmp, n, i);
      }
      var swapped := Swap(a, 0, |a| - 1);
      var rest := swapped[..|a| - 1];
      assert HeapFromExcept(rest, cmp, n, 0, 0) by {
        forall i | 0 < i < |rest| && 0 <= ParentIndex(n, i) && ParentIndex(n, i) != 0
          ensures cmp(rest[ParentIndex(n, i)], rest[i]) <= 0
        {
          assert rest[i] == a[i] && rest[ParentIndex(n, i)] == a[ParentIndex(n, i)];
        }
      }
      SiftDownRestoresHeap(rest, cmp, n, 0, 0);
    }
  }

  /** The from loop: once every node past i is settled, sifting i..0 down yields a heap. */
  lemma {:induction false} BuiltIsHeap<T(!new)>(a: seq<T>, cmp: Comparator<T>, n: int, i: int)
    requires n >= 1 && IsTotalPreorder(cmp)
    requires HeapFrom(a, cmp, n, i + 1)
    ensures IsHeap(Built(a, cmp, n, i), cmp, n)
    decreases i + 1
  {
    if i < 0 {
      HeapFromZero(a, cmp, n);
    } else {
      SiftDownRestoresHeap(a, cmp, n, i, i);
      BuiltIsHeap(SiftedDown(a, cmp, n, i), cmp, n, i - 1);
    }
  }

  // ---------------------------------------------------------------------------
  // Where from starts its loop

  /** Multiplying by a positive n keeps order in both directions. */
  lemma MulCancel(n: int, x: int, y: int)
    requires n >= 1
    ensures n * x <= n * y ==> x <= y
  {
    if x > y {
      MulAtLeast(n, x - y);
    }
  }

  /** Division by a positive n is monotone. */
  lemma DivMonotone(x: int, y: int, n: int)
    requires n >= 1 && x <= y
    ensures x / n <= y / n
  {
    var p, q := x / n, y / n;
    DivIsFloor(x, n, p);
    DivIsFloor(y, n, q);
    if p > q {
      MulAtLeast(n, p - q);
    }
  }

  /**
   * from starts at Math.floor(len / n) - 1. That covers every node with a child
   * exactly when n <= 2 or len % n < 2; otherwise node Math.floor(len / n) has
   * a child (its first, at n * Math.floor(len / n) + 1) but is never sifted.
   */
  lemma FromStartCoversParents(len: nat, n: int)
    requires n >= 1
    ensures (n <= 2 || len % n < 2) <==> forall i :: 0 < i < len ==> ParentIndex(n, i) < len / n
  {
    var q := len / n;
    assert len == n * q + len % n && 0 <= len % n < n;
    if n <= 2 || len % n < 2 {
      forall i | 0 < i < len ensures ParentIndex(n, i) < q {
        var p := ParentIndex(n, i);
        ParentIndexIff(n, i, p);
        MulCancel(n, p, q);
      }
    } else {
      var i := NthChildIndex(1, n, q);
      ParentIndexIff(n, i, q);
      assert 0 < i < len && ParentIndex(n, i) == q;
    }
  }

  /** from(array, n, comparator) returns a heap when its loop covers every node with a child. */
  lemma HeapifiedIsHeap<T(!new)>(a: seq<T>, cmp: Comparator<T>, n: int)
    requires n >= 1 && IsTotalPreorder(cmp)
    requires n <= 2 || |a| % n < 2
    ensures IsHeap(Heapified(a, cmp, n), cmp, n)
    ensures multiset(Heapified(a, cmp, n)) == multiset(a)
  {
    FromStartCoversParents(|a|, n);
    assert HeapFrom(a, cmp, n, |a| / n);
    BuiltIsHeap(a, cmp, n, |a| / n - 1);
  }

  /** from([0, 5, 1, 2, 3], 3) sifts only the root and leaves 5 above its child 3. */
  lemma HeapifiedCounterexample()
    ensures Heapified([0, 5, 1, 2, 3], NumericCompare, 3) == [0, 5, 1, 2, 3]
    ensures !IsHeap(Heapified([0, 5, 1, 2, 3], NumericCompare, 3), NumericCompare, 3)
  {
    var a := [0, 5, 1, 2, 3];
    CounterexampleRootStays(a);
    assert Heapified(a, NumericCompare, 3) == Built(a, NumericCompare, 3, 0);
    assert Built(a, NumericCompare, 3, 0) == Built(SiftedDown(a, NumericCompare, 3, 0), NumericCompare, 3, -1);
    ParentIndexIff(3, 4, 1);
    assert ParentIndex(3, 4) == 1 && NumericCompare(a[1], a[4]) > 0;
  }

  /** In [0, 5, 1, 2, 3] with arity 3, the root's first-ordered child is 1 at slot 2, after the root. */
  lemma CounterexampleRootStays(a: seq<int>)
    requires a == [0, 5, 1, 2, 3]
    ensures SiftedDown(a, NumericCompare, 3, 0) == a
  {
    assert NthChildIndex(1, 3, 0) == 1 && ChildrenEnd(5, 3, 0) == 4;
    var c := SmallestChild(a, NumericCompare, 1, 4);
    assert SmallestChild(a, NumericCompare, 1, 2) == 1;
    assert SmallestChild(a, NumericCompare, 1, 3) == 2;
    assert c == 2;
    assert NumericCompare(a[0], a[c]) < 0;
  }

  /**
   * The evident intent of from: start at the parent of the last slot, the last
   * node that has a child.
   */
  function HeapifiedFromLastParent<T(!new)>(a: seq<T>, cmp: Comparator<T>, n: int): (r: seq<T>)
    requires n >= 1
  {
    Built(a, cmp, n, ParentIndex(n, |a| - 1))
  }

  /** Starting at the last parent yields a heap for every array and every arity. */
  lemma HeapifiedFromLastParentIsHeap<T(!new)>(a: seq<T>, cmp: Comparator<T>, n: int)
    requires n >= 1 && IsTotalPreorder(cmp)
    ensures IsHeap(HeapifiedFromLastParent(a, cmp, n), cmp, n)
    ensures multiset(HeapifiedFromLastParent(a, cmp, n)) == multiset(a)
  {
    forall i | 0 < i < |a| ensures ParentIndex(n, i) <= ParentIndex(n, |a| - 1) {
      DivMonotone(i - 1, |a| - 2, n);
    }
    assert HeapFrom(a, cmp, n, ParentIndex(n, |a| - 1) + 1);
    BuiltIsHeap(a, cmp, n, ParentIndex(n, |a| - 1));
  }

  // ---------------------------------------------------------------------------
  // Repeated pops

  /** Popping a heap until it is empty yields its elements in sorted order. */
  lemma {:induction false} DrainedIsSorted<T(!new)>(a: seq<T>, cmp: Comparator<T>, n: int)
    requires n >= 1 && IsTotalPreorder(cmp) && IsHeap(a, cmp, n)
    ensures Sorted(Drained(a, cmp, n), cmp)
    decreases |a|
  {
    if a != [] {
      var rest := Popped(a, cmp, n).1;
      PopKeepsHeap(a, cmp, n);
      DrainedIsSorted(rest, cmp, n);
      var d := Drained(a, cmp, n);
      assert d == [a[0]] + Drained(rest, cmp, n);
      forall i, j | 0 <= i < j < |d| ensures cmp(d[i], d[j]) <= 0 {
        if i == 0 {
          assert d[j] in multiset(Drained(rest, cmp, n));
          assert d[j] in multiset(a);
        }
      }
    }
  }

  /** Pushing onto a heap, item after item, keeps it a heap. */
  lemma {:induction false} PushedAllIsHeap<T(!new)>(a: seq<T>, cmp: Comparator<T>, n: int, items: seq<T>)
    requires n >= 1 && IsTotalPreorder(cmp) && IsHeap(a, cmp, n)
    ensures IsHeap(PushedAll(a, cmp, n, items), cmp, n)
    decreases |items|
  {
    if items != [] {
      PushKeepsHeap(a, cmp, n, items[0]);
      PushedAllIsHeap(Pushed(a, cmp, n, items[0]), cmp, n, items[1..]);
    }
  }

  /** Pushing items onto an empty heap and popping them all gives them back sorted. */
  lemma PushThenDrainIsSorted<T(!new)>(cmp: Comparator<T>, n: int, items: seq<T>)
    requires n >= 1 && IsTotalPreorder(cmp)
    ensures Sorted(Drained(PushedAll([], cmp, n, items), cmp, n), cmp)
    ensures multiset(Drained(PushedAll([], cmp, n, items), cmp, n)) == multiset(items)
  {
    PushedAllIsHeap([], cmp, n, items);
    DrainedIsSorted(PushedAll([], cmp, n, items), cmp, n);
  }

  /**
   * With the default comparator, bulk build and one-by-one pushes pop the
   * same numbers in the same order, whenever from's loop covers every parent.
   */
  lemma HeapifiedDrainsLikePushes(items: seq<int>, n: int)
    requires n >= 1 && (n <= 2 || |items| % n < 2)
    ensures Drained(Heapified(items, NumericCompare, n), NumericCompare, n)
         == Drained(PushedAll([], NumericCompare, n, items), NumericCompare, n)
  {
    NumericCompareIsTotalPreorder();
    HeapifiedIsHeap(items, NumericCompare, n);
    DrainedIsSorted(Heapified(items, NumericCompare, n), NumericCompare, n);
    PushThenDrainIsSorted(NumericCompare, n, items);
    SortedNumbersUnique(Drained(Heapified(items, NumericCompare, n), NumericCompare, n),
                        Drained(PushedAll([], NumericCompare, n, items), NumericCompare, n));
  }

  // ---------------------------------------------------------------------------
  // The class

  /** The arity of a d-ary heap; the engine does not check it, callers must give at least 1. */
  type Arity = n: int | n >= 1 witness 1

  /** A d-ary heap: the array is the tree, arity and comparator fixed at construction. */
  class DAryHeap<T(!new)> {
    const arity: Arity
    var elements: seq<T>
    const comparator: Comparator<T>

    /** The comparator keeps its contract and the array is in heap order. */
    ghost predicate Valid()
      reads this
    {
      IsTotalPreorder(comparator) && IsHeap(elements, comparator, arity)
    }

    constructor (n: int, comparator: Comparator<T>)
      requires n >= 1
      ensures arity == n && elements == [] && this.comparator == comparator
      ensures IsTotalPreorder(comparator) ==> Valid()
    {
      arity := n;
      elements := [];
      this.comparator := comparator;
    }

    /** #swap: exchange two slots of the array. */
    method SwapSlots(index1: nat, index2: nat)
      requires index1 < |elements| && index2 < |elements|
      modifies this
      ensures elements == Swap(old(elements), index1, index2)
    {
      elements := Swap(elements, index1, index2);
    }

    /** #compare: the comparator applied to two slots of the array. */
    function Compare(index1: nat, index2: nat): int
      reads this
      requires index1 < |elements| && index2 < |elements|
    {
      comparator(elements[index1], elements[index2])
    }

    method SiftDown(index: nat)
      modifies this
      ensures elements == SiftedDown(old(elements), comparator, arity, index)
      ensures multiset(elements) == multiset(old(elements)) && |elements| == |old(elements)|
    {
      var i: nat := index;
      while true
        invariant |elements| == |old(elements)|
        invariant SiftedDown(elements, comparator, arity, i) == SiftedDown(old(elements), comparator, arity, index)
        decreases |elements| - i
      {
        var firstChildIndex := NthChildIndex(1, arity, i);
        FirstChildBeyond(arity, i);
        if firstChildIndex >= |elements| {
          return;
        }
        var smallestChildIndex :=
          SmallestChild(elements, comparator, firstChildIndex, ChildrenEnd(|elements|, arity, i));
        if Compare(i, smallestChildIndex) < 0 {
          return;
        }
        SwapSlots(smallestChildIndex, i);
        i := smallestChildIndex;
      }
    }

    method SiftUp(index: nat)
      requires index < |elements|
      modifies this
      ensures elements == SiftedUp(old(elements), comparator, arity, index)
      ensures multiset(elements) == multiset(old(elements)) && |elements| == |old(elements)|
    {
      var i: nat := index;
      var parentIndex := ParentIndex(arity, i);
      while parentIndex >= 0 && Compare(parentIndex, i) > 0
        invariant i < |elements| == |old(elements)|
        invariant parentIndex == ParentIndex(arity, i)
        invariant SiftedUp(elements, comparator, arity, i) == SiftedUp(old(elements), comparator, arity, index)
        decreases i
      {
        SwapSlots(i, parentIndex);
        i := parentIndex;
        parentIndex := ParentIndex(arity, i);
      }
    }

    /**
     * Removes and returns the first-ordered element; None, with nothing
     * changed, when the heap is empty.
     */
    method Pop() returns (value: Option<T>)
      modifies this
      ensures (value, elements) == Popped(old(elements), comparator, arity)
      ensures old(elements) == [] ==> value == None && elements == []
      ensures old(elements) != [] ==> value == Some(old(elements[0])) && |elements| == |old(elements)| - 1
      ensures old(elements) != [] ==> multiset(elements) == multiset(old(elements)) - multiset{value.value}
      ensures old(Valid()) ==> Valid()
      ensures old(Valid()) && value.Some? ==> forall y :: y in old(elements) ==> comparator(value.value, y) <= 0
    {
      if |elements| == 0 {
        return None;
      }
      ghost var before := elements;
      SwapSlots(0, |elements| - 1);
      value := Some(elements[|elements| - 1]);
      elements := elements[..|elements| - 1];
      SiftDown(0);
      assert (value, elements) == Popped(before, comparator, arity);
      if IsTotalPreorder(comparator) && IsHeap(before, comparator, arity) {
        PopKeepsHeap(before, comparator, arity);
      }
    }

    /** Adds item, keeping heap order. */
    method Push(item: T)
      modifies this
      ensures elements == Pushed(old(elements), comparator, arity, item)
      ensures |elements| == |old(elements)| + 1
      ensures multiset(elements) == multiset(old(elements)) + multiset{item}
      ensures old(Valid()) ==> Valid()
    {
      ghost var before := elements;
      elements := elements + [item];
      SiftUp(|elements| - 1);
      if IsTotalPreorder(comparator) && IsHeap(before, comparator, arity) {
        PushKeepsHeap(before, comparator, arity, item);
      }
    }

    /** The first-ordered element without removing it; None when empty. */
    method Peek() returns (value: Option<T>)
      ensures elements == [] ==> value == None
      ensures elements != [] ==> value == Some(elements[0])
      ensures Valid() && value.Some? ==> forall y :: y in elements ==> comparator(value.value, y) <= 0
    {
      if |elements| == 0 {
        return None;
      }
      value := Some(elements[0]);
      if Valid() {
        forall y | y in elements ensures comparator(elements[0], y) <= 0 {
          var i :| 0 <= i < |elements| && elements[i] == y;
          RootIsMinimal(elements, comparator, arity, i);
        }
      }
    }
  }

  /** new DAryHeap(n): an empty heap with the default comparator (a, b) => a - b. */
  method NewDefault(n: int) returns (heap: DAryHeap<int>)
    requires n >= 1
    ensures fresh(heap) && heap.arity == n && heap.elements == [] && heap.comparator == NumericCompare
    ensures heap.Valid()
  {
    NumericCompareIsTotalPreorder();
    heap := new DAryHeap(n, NumericCompare);
  }

  /**
   * DAryHeap.from(array, n, comparator): takes the array over and sifts down
   * Math.floor(length / n) - 1, ..., 0. The result is a heap when that start
   * covers every node with a child (n <= 2 or length % n < 2).
   */
  method From<T(!new)>(items: seq<T>, n: int, comparator: Comparator<T>) returns (heap: DAryHeap<T>)
    requires n >= 1
    ensures fresh(heap) && heap.arity == n && heap.comparator == comparator
    ensures heap.elements == Heapified(items, comparator, n)
    ensures multiset(heap.elements) == multiset(items)
    ensures IsTotalPreorder(comparator) && (n <= 2 || |items| % n < 2) ==> heap.Valid()
  {
    heap := new DAryHeap(n, comparator);
    heap.elements := items;
    var i := |items| / n - 1;
    while i >= 0
      invariant -1 <= i
      invariant Built(heap.elements, comparator, n, i) == Heapified(items, comparator, n)
      decreases i + 1
    {
      heap.SiftDown(i);
      i := i - 1;
    }
    if IsTotalPreorder(comparator) && (n <= 2 || |items| % n < 2) {
      HeapifiedIsHeap(items, comparator, n);
    }
  }
}
