/**
 * What both heap engines share: the comparator contract, the "no value"
 * result of pop and peek, and the swap of two slots of the backing array.
 */
module Common {

  /** A comparator: negative means "item1 before item2", zero means equal order. */
  type Comparator<!T> = (T, T) -> int

  /**
   * The contract every comparator is expected to keep: the sign flips when the
   * arguments are exchanged, and "not after" (cmp(x, y) <= 0) is transitive.
   * Together these make "not after" a total preorder.
   */
  ghost predicate IsTotalPreorder<T(!new)>(cmp: Comparator<T>) {
    && (forall x, y :: cmp(x, y) < 0 <==> cmp(y, x) > 0)
    && (forall x, y, z :: cmp(x, y) <= 0 && cmp(y, z) <= 0 ==> cmp(x, z) <= 0)
  }

  /** The default comparator of both engines, `(a, b) => a - b`: ascending numbers. */
  function NumericCompare(a: int, b: int): (r: int)
    ensures r < 0 <==> a < b
    ensures r == 0 <==> a == b
  {
    a - b
  }

  lemma NumericCompareIsTotalPreorder()
    ensures IsTotalPreorder(NumericCompare)
  {
  }

  /** A comparator that keeps the contract orders every element "not after" itself. */
  lemma Reflexive<T(!new)>(cmp: Comparator<T>, x: T)
    requires IsTotalPreorder(cmp)
    ensures cmp(x, x) == 0
  {
    assert cmp(x, x) < 0 <==> cmp(x, x) > 0;
  }

  /** `T | undefined`: the result of pop and peek on an empty heap is None. */
  datatype Option<T> = None | Some(value: T)

  /** The two slots i and j exchanged, as `#swap` does on the backing array. */
  function Swap<T>(s: seq<T>, i: nat, j: nat): (r: seq<T>)
    requires i < |s| && j < |s|
    ensures |r| == |s| && r[i] == s[j] && r[j] == s[i]
    ensures forall k :: 0 <= k < |s| && k != i && k != j ==> r[k] == s[k]
    ensures multiset(r) == multiset(s)
  {
    s[i := s[j]][j := s[i]]
  }

  /** s is in non-decreasing order under cmp. */
  ghost predicate Sorted<T>(s: seq<T>, cmp: Comparator<T>) {
    forall i, j :: 0 <= i < j < |s| ==> cmp(s[i], s[j]) <= 0
  }

  /** The first element of a sequence sorted by the default comparator is its least. */
  lemma SortedHeadIsLeast(s: seq<int>, x: int)
    requires Sorted(s, NumericCompare) && x in s
    ensures s[0] <= x
  {
    var j :| 0 <= j < |s| && s[j] == x;
    if j > 0 {
      assert NumericCompare(s[0], s[j]) <= 0;
    }
  }

  lemma MultisetOfTail<T>(s: seq<T>)
    requires s != []
    ensures multiset(s[1..]) == multiset(s) - multiset{s[0]}
  {
    assert s == [s[0]] + s[1..];
  }

  lemma SortedTail<T>(s: seq<T>, cmp: Comparator<T>)
    requires Sorted(s, cmp) && s != []
    ensures Sorted(s[1..], cmp)
  {
    forall i, j | 0 <= i < j < |s| - 1 ensures cmp(s[1..][i], s[1..][j]) <= 0 {
      assert s[1..][i] == s[i + 1] && s[1..][j] == s[j + 1];
    }
  }

  /**
   * Under the default comparator a sorted arrangement of a multiset of numbers
   * is unique: two sorted sequences with the same elements are equal.
   */
  lemma {:induction false} SortedNumbersUnique(s: seq<int>, t: seq<int>)
    requires Sorted(s, NumericCompare) && Sorted(t, NumericCompare)
    requires multiset(s) == multiset(t)
    ensures s == t
    decreases |s|
  {
    assert |t| == |s| by { assert |multiset(t)| == |multiset(s)|; }
    if s != [] {
      assert s[0] in multiset(t) && t[0] in multiset(s);
      SortedHeadIsLeast(t, s[0]);
      SortedHeadIsLeast(s, t[0]);
      MultisetOfTail(s);
      MultisetOfTail(t);
      SortedTail(s, NumericCompare);
      SortedTail(t, NumericCompare);
      SortedNumbersUnique(s[1..], t[1..]);
    }
  }
}
