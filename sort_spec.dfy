/**
 * What the sorts of Sorting.java promise.  A `Comparator<T>` is modelled by an integer key:
 * `comparator.compare(x, y) < 0` is `key(x) < key(y)`, so two elements compare equal exactly
 * when their keys are equal, and equal elements may still be distinguishable (which is what
 * makes stability meaningful).
 */
module SortSpec {

  /** Every element's key is at most the key of every later element. */
  ghost predicate SortedBy<T>(s: seq<T>, key: T -> int)
  {
    forall i, j :: 0 <= i < j < |s| ==> key(s[i]) <= key(s[j])
  }

  /** The elements of `s` whose key is `v`, in their order in `s`. */
  function WithKey<T>(s: seq<T>, key: T -> int, v: int): (r: seq<T>)
    ensures |r| <= |s|
  {
    if s == [] then []
    else
      (if key(s[0]) == v then [s[0]] else []) + WithKey(s[1..], key, v)
  }

  /**
   * `t` is a stable rearrangement of `s`: for every key, the elements with that key appear in
   * `t` in exactly the order they have in `s`.  (This also makes `t` a permutation of `s`.)
   */
  ghost predicate StableOf<T>(t: seq<T>, s: seq<T>, key: T -> int)
  {
    forall v :: WithKey(t, key, v) == WithKey(s, key, v)
  }

  lemma {:induction false} WithKeyAppend<T>(s: seq<T>, t: seq<T>, key: T -> int, v: int)
    ensures WithKey(s + t, key, v) == WithKey(s, key, v) + WithKey(t, key, v)
    decreases |s|
  {
    if s == [] {
      assert s + t == t;
      ConcatEmpty(WithKey(s, key, v), WithKey(t, key, v));
    } else {
      var x := s[0];
      assert s + t == [x] + (s[1..] + t);
      assert s == [x] + s[1..];
      WithKeyCons(s + t, s[1..] + t, x, key, v);
      WithKeyCons(s, s[1..], x, key, v);
      WithKeyAppend(s[1..], t, key, v);
      if key(x) == v {
        ConcatAssoc([x], WithKey(s[1..], key, v), WithKey(t, key, v));
        assert WithKey(s + t, key, v) == WithKey(s, key, v) + WithKey(t, key, v);
      } else {
        assert WithKey(s + t, key, v) == WithKey(s, key, v) + WithKey(t, key, v);
      }
    }
  }

  /** A sequence sorted by key with, for each key, the same elements in the same order. */
  lemma {:induction false} StableIsPermutation<T>(t: seq<T>, s: seq<T>, key: T -> int)
    requires StableOf(t, s, key)
    ensures multiset(t) == multiset(s)
  {
    forall x
      ensures multiset(t)[x] == multiset(s)[x]
    {
      CountInWithKey(t, key, x);
      CountInWithKey(s, key, x);
      assert WithKey(t, key, key(x)) == WithKey(s, key, key(x));
    }
  }

  lemma {:induction false} CountInWithKey<T>(s: seq<T>, key: T -> int, x: T)
    ensures multiset(WithKey(s, key, key(x)))[x] == multiset(s)[x]
    decreases |s|
  {
    if s != [] {
      assert s == [s[0]] + s[1..];
      CountInWithKey(s[1..], key, x);
      WithKeyAppend([s[0]], s[1..], key, key(x));
    }
  }

  /**
   * Sortedness together with stability pins the result down: two stable sorts of the same
   * input are equal.
   */
  lemma StableSortIsUnique<T>(t1: seq<T>, t2: seq<T>, s: seq<T>, key: T -> int)
    requires SortedBy(t1, key) && StableOf(t1, s, key)
    requires SortedBy(t2, key) && StableOf(t2, s, key)
    ensures t1 == t2
  {
    assert StableOf(t1, t2, key);
    SortedStableAgree(t1, t2, key);
  }

  lemma {:induction false} SortedStableAgree<T>(t1: seq<T>, t2: seq<T>, key: T -> int)
    requires SortedBy(t1, key) && SortedBy(t2, key) && StableOf(t1, t2, key)
    ensures t1 == t2
    decreases |t1|
  {
    StableIsPermutation(t1, t2, key);
    assert |t1| == |multiset(t1)| == |multiset(t2)| == |t2|;
    if t1 != [] {
      SameLeastKey(t1, t2, key);
      var v := key(t1[0]);
      assert WithKey(t1, key, v) == WithKey(t2, key, v);
      assert WithKey(t1, key, v)[0] == t1[0];
      assert WithKey(t2, key, v)[0] == t2[0];
      DropCommonHead(t1, t2, key);
      SortedTail(t1, key);
      SortedTail(t2, key);
      SortedStableAgree(t1[1..], t2[1..], key);
    }
  }

  lemma SortedTail<T>(t: seq<T>, key: T -> int)
    requires SortedBy(t, key) && t != []
    ensures SortedBy(t[1..], key)
  {
  }

  /** Two sorted permutations of each other start with the same key. */
  lemma SameLeastKey<T>(t1: seq<T>, t2: seq<T>, key: T -> int)
    requires SortedBy(t1, key) && SortedBy(t2, key) && multiset(t1) == multiset(t2) && t1 != []
    ensures t2 != [] && key(t1[0]) == key(t2[0])
  {
    assert t1[0] in multiset(t2);
    assert t2[0] in multiset(t1);
    var k1 :| 0 <= k1 < |t2| && t2[k1] == t1[0];
    var k2 :| 0 <= k2 < |t1| && t1[k2] == t2[0];
    assert key(t2[0]) <= key(t2[k1]);
    assert key(t1[0]) <= key(t1[k2]);
  }

  /** Dropping a common first element keeps the two sequences stable arrangements of each other. */
  lemma DropCommonHead<T>(t1: seq<T>, t2: seq<T>, key: T -> int)
    requires t1 != [] && t2 != [] && t1[0] == t2[0]
    requires forall v :: WithKey(t1, key, v) == WithKey(t2, key, v)
    ensures StableOf(t1[1..], t2[1..], key)
  {
    forall v
      ensures WithKey(t1[1..], key, v) == WithKey(t2[1..], key, v)
    {
      var h := if key(t1[0]) == v then [t1[0]] else [];
      assert WithKey(t1, key, v) == h + WithKey(t1[1..], key, v);
      assert WithKey(t2, key, v) == h + WithKey(t2[1..], key, v);
      assert WithKey(t1[1..], key, v) == WithKey(t1, key, v)[|h|..];
      assert WithKey(t2[1..], key, v) == WithKey(t2, key, v)[|h|..];
    }
  }

  /** Slots `lo .. hi-1` (clipped to the sequence) are in key order. */
  ghost predicate SortedRange<T>(s: seq<T>, lo: int, hi: int, key: T -> int)
  {
    forall p, q :: 0 <= lo <= p < q < hi && q < |s| ==> key(s[p]) <= key(s[q])
  }

  /** No element before slot `k` has a larger key than an element from slot `k` on. */
  ghost predicate Split<T>(s: seq<T>, k: int, key: T -> int)
  {
    forall p, q :: 0 <= p < k <= q < |s| ==> key(s[p]) <= key(s[q])
  }

  lemma SortedRangeIsSorted<T>(s: seq<T>, key: T -> int)
    requires SortedRange(s, 0, |s|, key)
    ensures SortedBy(s, key)
  {
    assert forall i, j :: 0 <= i < j < |s| ==> key(s[i]) <= key(s[j]);
  }

  /** Sorting.java:289-293: exchanges two slots. */
  method Swap<T>(a: array<T>, i: int, j: int)
    requires 0 <= i < a.Length && 0 <= j < a.Length
    modifies a
    ensures a[..] == old(a[..])[i := old(a[j])][j := old(a[i])]
    ensures multiset(a[..]) == multiset(old(a[..]))
  {
    var temp := a[i];
    a[i] := a[j];
    a[j] := temp;
  }

  /**
   * Exchanging two neighbours of different keys changes no key's subsequence, so the
   * rearrangement stays stable; this is why the exchange sorts only swap strictly out-of-order
   * neighbours.
   */
  lemma SwapNeighboursIsStable<T>(s: seq<T>, s0: seq<T>, i: int, key: T -> int)
    requires 0 <= i < |s| - 1 && key(s[i]) != key(s[i + 1])
    requires StableOf(s, s0, key)
    ensures StableOf(s[i := s[i + 1]][i + 1 := s[i]], s0, key)
  {
    var t := s[i := s[i + 1]][i + 1 := s[i]];
    assert s == s[..i] + [s[i], s[i + 1]] + s[i + 2..];
    assert t == s[..i] + [s[i + 1], s[i]] + s[i + 2..];
    forall v
      ensures WithKey(t, key, v) == WithKey(s, key, v)
    {
      WithKeyAppend(s[..i] + [s[i], s[i + 1]], s[i + 2..], key, v);
      WithKeyAppend(s[..i], [s[i], s[i + 1]], key, v);
      WithKeyAppend(s[..i] + [s[i + 1], s[i]], s[i + 2..], key, v);
      WithKeyAppend(s[..i], [s[i + 1], s[i]], key, v);
      assert [s[i], s[i + 1]][1..] == [s[i + 1]];
      assert [s[i + 1], s[i]][1..] == [s[i]];
    }
  }

  /** No element of key `v` gives nothing. */
  lemma {:induction false} NoneWithKey<T>(s: seq<T>, key: T -> int, v: int)
    requires forall t :: 0 <= t < |s| ==> key(s[t]) != v
    ensures WithKey(s, key, v) == []
    decreases |s|
  {
    if s != [] {
      NoneWithKey(s[1..], key, v);
    }
  }

  /** The subsequence of key `v` of a sequence that starts with `x`. */
  lemma WithKeyCons<T>(s: seq<T>, tail: seq<T>, x: T, key: T -> int, v: int)
    requires s == [x] + tail
    ensures key(x) == v ==> WithKey(s, key, v) == [x] + WithKey(tail, key, v)
    ensures key(x) != v ==> WithKey(s, key, v) == WithKey(tail, key, v)
  {
    assert s[1..] == tail;
    assert [] + WithKey(tail, key, v) == WithKey(tail, key, v);
  }

  lemma ConcatAssoc<T>(a: seq<T>, b: seq<T>, c: seq<T>)
    ensures a + (b + c) == (a + b) + c
  {
  }

  lemma ConcatEmpty<T>(a: seq<T>, b: seq<T>)
    requires a == []
    ensures a + b == b && b + a == b
  {
  }
}
