/** Insertion sort (Sorting.java:36-50): in place, stable. */
module InsertionSort {
  import opened SortSpec

  /**
   * After the outer loop has handled `i` elements: the first `i` slots are a sorted, stable
   * arrangement of the first `i` input elements, and the rest is untouched.
   */
  ghost predicate SortedPrefix<T>(s: seq<T>, s0: seq<T>, i: int, key: T -> int)
  {
    |s| == |s0| && 1 <= i <= |s| &&
    SortedBy(s[..i], key) && StableOf(s[..i], s0[..i], key) && s[i..] == s0[i..]
  }

  /**
   * The inner loop's state, relative to the array `p` before it: slots up to `j` are as they
   * were, the elements formerly at `j+1 .. i-1` have each moved one slot right, and all of them
   * have a key greater than that of `curr`, which waits to be put into the hole at `j + 1`.
   */
  ghost predicate Shifted<T>(s: seq<T>, p: seq<T>, i: int, j: int, curr: T, key: T -> int)
  {
    |s| == |p| && -1 <= j < i < |s| &&
    (forall t :: 0 <= t <= j ==> s[t] == p[t]) &&
    (forall t :: j + 2 <= t <= i ==> s[t] == p[t - 1]) &&
    (forall t :: i < t < |s| ==> s[t] == p[t]) &&
    (forall t :: j + 1 <= t < i ==> key(curr) < key(p[t]))
  }

  /** The array once `curr` is in the hole at `j + 1`: `p` with `curr` moved from `i` to `j + 1`. */
  ghost predicate Inserted<T>(s: seq<T>, p: seq<T>, i: int, j: int, curr: T)
  {
    |s| == |p| && -1 <= j < i < |s| &&
    (forall t :: 0 <= t <= j ==> s[t] == p[t]) &&
    s[j + 1] == curr &&
    (forall t :: j + 2 <= t <= i ==> s[t] == p[t - 1]) &&
    (forall t :: i < t < |s| ==> s[t] == p[t])
  }

  method InsertionSort<T>(a: array<T>, key: T -> int)
    modifies a
    ensures SortedBy(a[..], key)
    ensures StableOf(a[..], old(a[..]), key)
    ensures multiset(a[..]) == multiset(old(a[..]))
  {
    ghost var s0 := a[..];
    var i := 1;
    while i < a.Length
      invariant 1 <= i && (a.Length == 0 || i <= a.Length)
      invariant a.Length == 0 || SortedPrefix(a[..], s0, i, key)
    {
      var curr := a[i];
      var j := i - 1;
      ghost var p := a[..];
      while j >= 0 && key(curr) < key(a[j])
        invariant Shifted(a[..], p, i, j, curr, key)
      {
        a[j + 1] := a[j];
        j := j - 1;
      }
      assert j >= 0 ==> key(p[j]) <= key(curr);
      ghost var h := a[..];
      a[j + 1] := curr;
      assert a[..] == h[j + 1 := curr];
      assert Inserted(a[..], p, i, j, curr);
      ghost var i0 := i;
      i := i + 1;
      FinishInsert(a[..], p, s0, i0, j, curr, i, key);
    }
    if a.Length == 0 {
      assert a[..] == s0;
    } else {
      assert a[..] == a[..i] && s0 == s0[..i];
    }
    StableIsPermutation(a[..], s0, key);
  }

  /** Putting `curr` into the hole completes one step of the outer loop. */
  lemma FinishInsert<T>(s: seq<T>, p: seq<T>, s0: seq<T>, i: int, j: int, curr: T, next: int, key: T -> int)
    requires SortedPrefix(p, s0, i, key) && i < |p| && p[i] == curr && next == i + 1
    requires Inserted(s, p, i, j, curr)
    requires j >= 0 ==> key(p[j]) <= key(curr)
    requires forall t :: j + 1 <= t < i ==> key(curr) < key(p[t])
    ensures SortedPrefix(s, s0, next, key)
  {
    FinishSorted(s, p, i, j, curr, key);
    assert p[i..][0] == s0[i..][0];
    FinishStable(s, p, s0, i, j, curr, key);
    InsertedLayout(s, p, i, j, curr);
    assert p[i + 1..] == p[i..][1..] && s0[i + 1..] == s0[i..][1..];
  }

  /** The first `i + 1` slots are sorted once `curr` is in the hole. */
  lemma FinishSorted<T>(s: seq<T>, p: seq<T>, i: int, j: int, curr: T, key: T -> int)
    requires Inserted(s, p, i, j, curr) && SortedBy(p[..i], key)
    requires j >= 0 ==> key(p[j]) <= key(curr)
    requires forall t :: j + 1 <= t < i ==> key(curr) < key(p[t])
    ensures SortedBy(s[..i + 1], key)
  {
    var q := p[..i];
    var u := s[..i + 1];
    assert forall t :: 0 <= t <= j ==> u[t] == q[t];
    assert forall t :: j + 1 < t < |u| ==> u[t] == q[t - 1];
    assert forall t :: j < t < |q| ==> key(curr) < key(q[t]);
    InsertIntoSortedIsSorted(q, u, j, curr, key);
  }

  /** The first `i + 1` slots are a stable arrangement of the first `i + 1` input elements. */
  lemma FinishStable<T>(s: seq<T>, p: seq<T>, s0: seq<T>, i: int, j: int, curr: T, key: T -> int)
    requires Inserted(s, p, i, j, curr) && |s0| == |p|
    requires StableOf(p[..i], s0[..i], key) && s0[i] == curr
    requires forall t :: j + 1 <= t < i ==> key(curr) < key(p[t])
    ensures StableOf(s[..i + 1], s0[..i + 1], key)
  {
    InsertedLayout(s, p, i, j, curr);
    assert s0[..i + 1] == s0[..i] + [curr];
    assert p[..i] == p[..j + 1] + p[j + 1..i];
    var q2 := p[j + 1..i];
    assert forall t :: 0 <= t < |q2| ==> key(curr) < key(q2[t]);
    InsertIntoSortedIsStable(p[..j + 1], q2, s0[..i], curr, key);
  }

  /** The first `i + 1` slots after the insertion, as a concatenation. */
  lemma InsertedLayout<T>(s: seq<T>, p: seq<T>, i: int, j: int, curr: T)
    requires Inserted(s, p, i, j, curr)
    ensures s[..i + 1] == p[..j + 1] + [curr] + p[j + 1..i]
    ensures s[i + 1..] == p[i + 1..]
  {
    var u := p[..j + 1] + [curr] + p[j + 1..i];
    assert |u| == i + 1;
    forall t | 0 <= t <= i
      ensures s[t] == u[t]
    {
      if t <= j {
      } else if t == j + 1 {
      } else {
        assert u[t] == p[t - 1];
      }
    }
  }

  /**
   * Placing `x` after exactly the elements of key at most its own (`u` is `q` with `x` put in
   * at `j + 1`) keeps a sequence sorted.
   */
  lemma InsertIntoSortedIsSorted<T>(q: seq<T>, u: seq<T>, j: int, x: T, key: T -> int)
    requires SortedBy(q, key) && -1 <= j < |q| && |u| == |q| + 1
    requires forall t :: 0 <= t <= j ==> u[t] == q[t]
    requires u[j + 1] == x
    requires forall t :: j + 1 < t < |u| ==> u[t] == q[t - 1]
    requires j >= 0 ==> key(q[j]) <= key(x)
    requires forall t :: j < t < |q| ==> key(x) < key(q[t])
    ensures SortedBy(u, key)
  {
    forall a, b | 0 <= a < b < |u|
      ensures key(u[a]) <= key(u[b])
    {
      if b <= j {
      } else if a <= j && b == j + 1 {
        assert key(q[a]) <= key(q[j]);
      } else if a <= j {
        assert key(q[a]) <= key(q[b - 1]);
      } else if a == j + 1 {
        assert key(x) < key(q[b - 1]);
      } else {
        assert key(q[a - 1]) <= key(q[b - 1]);
      }
    }
  }

  /**
   * Putting `x` between `q1` and `q2`, where every element of `q2` has a larger key, keeps a
   * stable arrangement of the input extended by `x`: the elements of key `key(x)` before it
   * are exactly the earlier ones.
   */
  lemma InsertIntoSortedIsStable<T>(q1: seq<T>, q2: seq<T>, r: seq<T>, x: T, key: T -> int)
    requires StableOf(q1 + q2, r, key)
    requires forall t :: 0 <= t < |q2| ==> key(x) < key(q2[t])
    ensures StableOf(q1 + [x] + q2, r + [x], key)
  {
    forall v
      ensures WithKey(q1 + [x] + q2, key, v) == WithKey(r + [x], key, v)
    {
      WithKeyAppend(q1 + [x], q2, key, v);
      WithKeyAppend(q1, [x], key, v);
      WithKeyAppend(q1, q2, key, v);
      WithKeyAppend(r, [x], key, v);
      if key(x) == v {
        NoneWithKey(q2, key, v);
      }
    }
  }
}
