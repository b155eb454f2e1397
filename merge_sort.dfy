/**
 * Merge sort (Sorting.java:137-189): out of place, stable.  The array is copied into a left
 * half of `length / 2` elements and a right half holding the rest, both halves are sorted
 * recursively and then merged back, taking from the left half on equal keys.
 */
module MergeSort {
  import opened SortSpec

  /**
   * The merge of two sequences as the source's loop performs it: repeatedly take the front
   * of `left` when its key is at most that of the front of `right`, otherwise the front of
   * `right`; once one side is exhausted, the rest of the other.
   */
  function Merged<T>(left: seq<T>, right: seq<T>, key: T -> int): (r: seq<T>)
    ensures |r| == |left| + |right|
    decreases |left| + |right|
  {
    if left == [] then right
    else if right == [] then left
    else if key(left[0]) <= key(right[0]) then [left[0]] + Merged(left[1..], right, key)
    else [right[0]] + Merged(left, right[1..], key)
  }

  /** Every key of the merge is bounded below by any common lower bound of the halves. */
  lemma {:induction false} MergedLowerBound<T>(left: seq<T>, right: seq<T>, key: T -> int, b: int)
    requires forall t :: 0 <= t < |left| ==> b <= key(left[t])
    requires forall t :: 0 <= t < |right| ==> b <= key(right[t])
    ensures forall t :: 0 <= t < |Merged(left, right, key)| ==> b <= key(Merged(left, right, key)[t])
    decreases |left| + |right|
  {
    if left != [] && right != [] {
      if key(left[0]) <= key(right[0]) {
        MergedLowerBound(left[1..], right, key, b);
      } else {
        MergedLowerBound(left, right[1..], key, b);
      }
    }
  }

  /** The merge of two sorted sequences is sorted. */
  lemma {:induction false} MergedIsSorted<T>(left: seq<T>, right: seq<T>, key: T -> int)
    requires SortedBy(left, key) && SortedBy(right, key)
    ensures SortedBy(Merged(left, right, key), key)
    decreases |left| + |right|
  {
    if left != [] && right != [] {
      var m := Merged(left, right, key);
      if key(left[0]) <= key(right[0]) {
        MergedIsSorted(left[1..], right, key);
        MergedLowerBound(left[1..], right, key, key(left[0]));
        assert m == [left[0]] + Merged(left[1..], right, key);
      } else {
        MergedIsSorted(left, right[1..], key);
        MergedLowerBound(left, right[1..], key, key(right[0]));
        assert m == [right[0]] + Merged(left, right[1..], key);
      }
    }
  }

  /**
   * The merge of two sorted sequences is stable: for each key, the elements of that key from
   * `left` come first, then those from `right`, each in its own order.
   */
  lemma {:induction false} MergedIsStable<T>(left: seq<T>, right: seq<T>, key: T -> int, v: int)
    requires SortedBy(left, key) && SortedBy(right, key)
    ensures WithKey(Merged(left, right, key), key, v) == WithKey(left, key, v) + WithKey(right, key, v)
    decreases |left| + |right|
  {
    if left == [] {
      assert WithKey(left, key, v) == [];
    } else if right == [] {
      assert WithKey(right, key, v) == [];
    } else if key(left[0]) <= key(right[0]) {
      SortedTail(left, key);
      MergedIsStable(left[1..], right, key, v);
      assert left == [left[0]] + left[1..];
      StableTakeLeft(Merged(left, right, key), Merged(left[1..], right, key), left, left[1..], right,
                     left[0], key, v);
    } else {
      SortedTail(right, key);
      MergedIsStable(left, right[1..], key, v);
      if key(right[0]) == v {
        SortedAboveNone(left, key, v);
      }
      assert right == [right[0]] + right[1..];
      StableTakeRight(Merged(left, right, key), Merged(left, right[1..], key), left, right, right[1..],
                      right[0], key, v);
    }
  }

  /** One step of `MergedIsStable` when the merge takes the front of `left`. */
  lemma StableTakeLeft<T>(m: seq<T>, m': seq<T>, left: seq<T>, left': seq<T>, right: seq<T>,
                          x: T, key: T -> int, v: int)
    requires m == [x] + m' && left == [x] + left'
    requires WithKey(m', key, v) == WithKey(left', key, v) + WithKey(right, key, v)
    ensures WithKey(m, key, v) == WithKey(left, key, v) + WithKey(right, key, v)
  {
    WithKeyCons(m, m', x, key, v);
    WithKeyCons(left, left', x, key, v);
    if key(x) == v {
      ConcatAssoc([x], WithKey(left', key, v), WithKey(right, key, v));
      assert WithKey(m, key, v) == WithKey(left, key, v) + WithKey(right, key, v);
    } else {
      assert WithKey(m, key, v) == WithKey(left, key, v) + WithKey(right, key, v);
    }
  }

  /**
   * One step of `MergedIsStable` when the merge takes the front of `right`, whose key is then
   * strictly below every key of `left`.
   */
  lemma StableTakeRight<T>(m: seq<T>, m': seq<T>, left: seq<T>, right: seq<T>, right': seq<T>,
                           x: T, key: T -> int, v: int)
    requires m == [x] + m' && right == [x] + right'
    requires WithKey(m', key, v) == WithKey(left, key, v) + WithKey(right', key, v)
    requires key(x) == v ==> WithKey(left, key, v) == []
    ensures WithKey(m, key, v) == WithKey(left, key, v) + WithKey(right, key, v)
  {
    WithKeyCons(m, m', x, key, v);
    WithKeyCons(right, right', x, key, v);
    if key(x) == v {
      ConcatEmpty(WithKey(left, key, v), WithKey(right', key, v));
      ConcatEmpty(WithKey(left, key, v), WithKey(right, key, v));
    }
  }

  /** A sorted sequence whose first key exceeds `v` has no element of key `v`. */
  lemma SortedAboveNone<T>(s: seq<T>, key: T -> int, v: int)
    requires SortedBy(s, key) && s != [] && v < key(s[0])
    ensures WithKey(s, key, v) == []
  {
    assert forall t :: 0 <= t < |s| ==> key(s[0]) <= key(s[t]);
    NoneWithKey(s, key, v);
  }

  method MergeSort<T(0)>(a: array<T>, key: T -> int)
    modifies a
    ensures SortedBy(a[..], key)
    ensures StableOf(a[..], old(a[..]), key)
    ensures multiset(a[..]) == multiset(old(a[..]))
    decreases a.Length
  {
    ghost var s0 := a[..];
    if a.Length > 1 {
      var middle := a.Length / 2;
      var left := new T[middle];
      var right := new T[a.Length - middle];
      for i := 0 to middle
        invariant left[..i] == s0[..i] && a[..] == s0
      {
        left[i] := a[i];
      }
      for i := middle to a.Length
        invariant right[..i - middle] == s0[middle..i] && a[..] == s0 && left[..] == s0[..middle]
      {
        right[i - middle] := a[i];
      }
      assert left[..] == s0[..middle];
      assert right[..] == right[..a.Length - middle] == s0[middle..a.Length] == s0[middle..];
      MergeSort(left, key);
      MergeSort(right, key);
      Merge(a, key, left, right);
      MergedHalvesAreSorted(left[..], right[..], s0, middle, key);
    } else {
      assert SortedBy(a[..], key);
    }
    StableIsPermutation(a[..], s0, key);
  }

  /** Merging stable sorts of the two halves of `s` gives a stable sort of `s`. */
  lemma MergedHalvesAreSorted<T>(left: seq<T>, right: seq<T>, s: seq<T>, middle: int, key: T -> int)
    requires 0 <= middle <= |s|
    requires SortedBy(left, key) && StableOf(left, s[..middle], key)
    requires SortedBy(right, key) && StableOf(right, s[middle..], key)
    ensures SortedBy(Merged(left, right, key), key)
    ensures StableOf(Merged(left, right, key), s, key)
  {
    MergedIsSorted(left, right, key);
    assert s == s[..middle] + s[middle..];
    forall v
      ensures WithKey(Merged(left, right, key), key, v) == WithKey(s, key, v)
    {
      MergedIsStable(left, right, key, v);
      WithKeyAppend(s[..middle], s[middle..], key, v);
    }
  }

  /**
   * Sorting.java:168-189: merges two sorted arrays into `a`; for every key, the left half's
   * elements of that key come first, each half in its own order.
   */
  method Merge<T>(a: array<T>, key: T -> int, left: array<T>, right: array<T>)
    requires a.Length == left.Length + right.Length && a != left && a != right
    modifies a
    ensures a[..] == Merged(left[..], right[..], key)
  {
    ghost var l, r := left[..], right[..];
    ghost var m := Merged(l, r, key);
    var leftLen := left.Length;
    var rightLen := right.Length;
    var i, j, k := 0, 0, 0;
    while i < leftLen && j < rightLen
      invariant 0 <= i <= leftLen && 0 <= j <= rightLen && k == i + j
      invariant forall t :: 0 <= t < k ==> a[t] == m[t]
      invariant m[k..] == Merged(l[i..], r[j..], key)
    {
      if key(left[i]) <= key(right[j]) {
        TakeLeft(m, l, r, i, j, k, key);
        a[k] := left[i];
        k, i := k + 1, i + 1;
      } else {
        TakeRight(m, l, r, i, j, k, key);
        a[k] := right[j];
        k, j := k + 1, j + 1;
      }
    }
    MergeRest(a, key, left, right, i, j, k, m);
  }

  /**
   * Sorting.java:182-187: the two trailing loops of the merge, which copy what is left of
   * either half once the other is used up; `a` agrees with the merge `m` up to `k0` on entry
   * and wholly on exit.
   */
  method MergeRest<T>(a: array<T>, key: T -> int, left: array<T>, right: array<T>,
                      i0: int, j0: int, k0: int, ghost m: seq<T>)
    requires a != left && a != right && |m| == a.Length
    requires 0 <= i0 <= left.Length && 0 <= j0 <= right.Length && (i0 == left.Length || j0 == right.Length)
    requires 0 <= k0 <= |m| && m[k0..] == Merged(left[i0..], right[j0..], key)
    requires forall t :: 0 <= t < k0 ==> a[t] == m[t]
    modifies a
    ensures a[..] == m
  {
    MergedRest(m, left[..], right[..], i0, j0, k0, key);
    var leftLen := left.Length;
    var rightLen := right.Length;
    var i, j, k := i0, j0, k0;
    while i < leftLen
      invariant i0 <= i <= leftLen && k == k0 + i - i0
      invariant forall t :: 0 <= t < k ==> a[t] == m[t]
    {
      a[k] := left[i];
      k, i := k + 1, i + 1;
    }
    while j < rightLen
      invariant j0 <= j <= rightLen && k == k0 + leftLen - i0 + j - j0
      invariant forall t :: 0 <= t < k ==> a[t] == m[t]
    {
      a[k] := right[j];
      k, j := k + 1, j + 1;
    }
  }

  /**
   * The merge loop's step that takes the next left element: it is the front of the merge of
   * what remains, because the right half is used up or its next key is larger.
   */
  lemma TakeLeft<T>(m: seq<T>, left: seq<T>, right: seq<T>, i: int, j: int, k: int, key: T -> int)
    requires 0 <= i < |left| && 0 <= j <= |right| && 0 <= k <= |m|
    requires j < |right| ==> key(left[i]) <= key(right[j])
    requires m[k..] == Merged(left[i..], right[j..], key)
    ensures k < |m| && m[k] == left[i] && m[k + 1..] == Merged(left[i + 1..], right[j..], key)
  {
    assert left[i..][1..] == left[i + 1..];
    if j == |right| {
      assert right[j..] == [];
      assert left[i..] == [left[i]] + left[i + 1..];
    }
    assert m[k..] == [left[i]] + Merged(left[i + 1..], right[j..], key);
    assert m[k + 1..] == m[k..][1..];
  }

  /**
   * The merge loop's step that takes the next right element: the left half is used up or its
   * next key is strictly larger.
   */
  lemma TakeRight<T>(m: seq<T>, left: seq<T>, right: seq<T>, i: int, j: int, k: int, key: T -> int)
    requires 0 <= i <= |left| && 0 <= j < |right| && 0 <= k <= |m|
    requires i < |left| ==> key(right[j]) < key(left[i])
    requires m[k..] == Merged(left[i..], right[j..], key)
    ensures k < |m| && m[k] == right[j] && m[k + 1..] == Merged(left[i..], right[j + 1..], key)
  {
    assert right[j..][1..] == right[j + 1..];
    if i == |left| {
      assert left[i..] == [];
      assert right[j..] == [right[j]] + right[j + 1..];
    }
    assert m[k..] == [right[j]] + Merged(left[i..], right[j + 1..], key);
    assert m[k + 1..] == m[k..][1..];
  }

  /**
   * Once one half is used up, the rest of the merge is the rest of the other half: first what
   * remains of `left`, then what remains of `right`, one of them empty.
   */
  lemma MergedRest<T>(m: seq<T>, left: seq<T>, right: seq<T>, i: int, j: int, k: int, key: T -> int)
    requires 0 <= i <= |left| && 0 <= j <= |right| && (i == |left| || j == |right|)
    requires 0 <= k <= |m| && m[k..] == Merged(left[i..], right[j..], key)
    ensures k + |left| - i + |right| - j == |m|
    ensures forall t :: i <= t < |left| ==> m[k + t - i] == left[t]
    ensures forall t :: j <= t < |right| ==> m[k + |left| - i + t - j] == right[t]
  {
    if i == |left| {
      assert left[i..] == [];
      forall t | j <= t < |right|
        ensures m[k + |left| - i + t - j] == right[t]
      {
        assert m[k..][t - j] == right[j..][t - j];
      }
    } else {
      assert right[j..] == [];
      forall t | i <= t < |left|
        ensures m[k + t - i] == left[t]
      {
        assert m[k..][t - i] == left[i..][t - i];
      }
    }
  }
}
