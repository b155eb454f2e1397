/**
 * Quicksort (Sorting.java:227-279): in place, not stable.  Each call partitions the range
 * `first .. last` (inclusive) around a randomly chosen pivot, Lomuto style with the pivot parked
 * in the last slot, and recurses on the parts before and after the pivot's final slot.
 */
module QuickSort {
  import opened SortSpec

  /**
   * `t` is `s` with only the slots `lo .. hi-1` rearranged among themselves: everything outside
   * is unchanged and both hold the same elements.
   */
  ghost predicate Rearranged<T>(t: seq<T>, s: seq<T>, lo: int, hi: int)
  {
    |t| == |s| && 0 <= lo <= hi <= |s| &&
    (forall k :: 0 <= k < |s| && (k < lo || hi <= k) ==> t[k] == s[k]) &&
    multiset(t) == multiset(s)
  }

  lemma RearrangedRefl<T>(s: seq<T>, lo: int, hi: int)
    requires 0 <= lo <= hi <= |s|
    ensures Rearranged(s, s, lo, hi)
  {
  }

  lemma RearrangedTrans<T>(u: seq<T>, t: seq<T>, s: seq<T>, lo: int, hi: int)
    requires Rearranged(u, t, lo, hi) && Rearranged(t, s, lo, hi)
    ensures Rearranged(u, s, lo, hi)
  {
  }

  /** A rearrangement of a range is also one of any range around it. */
  lemma RearrangedWiden<T>(t: seq<T>, s: seq<T>, lo: int, hi: int, lo': int, hi': int)
    requires Rearranged(t, s, lo, hi) && 0 <= lo' <= lo && hi <= hi' <= |s|
    ensures Rearranged(t, s, lo', hi')
  {
  }

  /** The range itself holds the same elements before and after. */
  lemma RearrangedRange<T>(t: seq<T>, s: seq<T>, lo: int, hi: int)
    requires Rearranged(t, s, lo, hi)
    ensures multiset(t[lo..hi]) == multiset(s[lo..hi])
  {
    assert t[..lo] == s[..lo];
    assert t[hi..] == s[hi..];
    SplitThree(t, lo, hi);
    SplitThree(s, lo, hi);
    Cancel(multiset(t[lo..hi]), multiset(s[lo..hi]), multiset(s[..lo]) + multiset(s[hi..]));
  }

  lemma SplitThree<T>(s: seq<T>, lo: int, hi: int)
    requires 0 <= lo <= hi <= |s|
    ensures multiset(s) == multiset(s[..lo]) + multiset(s[hi..]) + multiset(s[lo..hi])
  {
    assert s == s[..lo] + s[lo..hi] + s[hi..];
  }

  lemma Cancel<T>(x: multiset<T>, y: multiset<T>, out: multiset<T>)
    requires out + x == out + y
    ensures x == y
  {
    forall e
      ensures x[e] == y[e]
    {
      assert (out + x)[e] == out[e] + x[e];
      assert (out + y)[e] == out[e] + y[e];
    }
  }

  /** Exchanging two slots of a range rearranges that range. */
  lemma SwapIsRearranged<T>(s: seq<T>, t: seq<T>, lo: int, hi: int, i: int, j: int)
    requires 0 <= lo <= i < hi <= |s| && lo <= j < hi
    requires t == s[i := s[j]][j := s[i]]
    ensures Rearranged(t, s, lo, hi)
  {
    assert multiset(t) == multiset(s);
  }

  /** Rearranging a range keeps any bound that held for every key in it. */
  lemma RearrangedKeepsBounds<T>(t: seq<T>, s: seq<T>, lo: int, hi: int, key: T -> int, b: int)
    requires Rearranged(t, s, lo, hi)
    ensures (forall p :: lo <= p < hi ==> key(s[p]) <= b) ==> forall p :: lo <= p < hi ==> key(t[p]) <= b
    ensures (forall p :: lo <= p < hi ==> b < key(s[p])) ==> forall p :: lo <= p < hi ==> b < key(t[p])
  {
    RearrangedRange(t, s, lo, hi);
    forall p | lo <= p < hi
      ensures exists q :: lo <= q < hi && t[p] == s[q]
    {
      assert t[p] == t[lo..hi][p - lo];
      assert t[p] in multiset(s[lo..hi]);
      var q' :| 0 <= q' < hi - lo && s[lo..hi][q'] == t[p];
      assert s[lo + q'] == t[p];
    }
  }

  /**
   * The partition loop's state before it looks at slot `i`: the pivot waits in slot `last`,
   * slots `first .. id-1` have keys at most the pivot's, slots `id .. i-1` keys above it, and
   * the range is a rearrangement of what it held on entry.
   */
  ghost predicate Partitioning<T>(s: seq<T>, s0: seq<T>, first: int, last: int, id: int, i: int,
                                  pivot: T, key: T -> int)
  {
    Rearranged(s, s0, first, last + 1) && first <= id <= i <= last && s[last] == pivot &&
    (forall t :: first <= t < id ==> key(s[t]) <= key(pivot)) &&
    (forall t :: id <= t < i ==> key(pivot) < key(s[t]))
  }

  /**
   * Sorting.java:266-279: moves the element at `index` to its final slot `id` in the sorted
   * order of the range `first .. last`, with keys at most its own before it and larger keys
   * after it.
   */
  method Partition<T>(a: array<T>, first: int, last: int, index: int, key: T -> int) returns (id: int)
    requires 0 <= first <= index <= last < a.Length
    modifies a
    ensures first <= id <= last && a[id] == old(a[index])
    ensures forall t :: first <= t < id ==> key(a[t]) <= key(a[id])
    ensures forall t :: id < t <= last ==> key(a[id]) < key(a[t])
    ensures Rearranged(a[..], old(a[..]), first, last + 1)
  {
    ghost var s0 := a[..];
    var pivot := a[index];
    ghost var s := a[..];
    Swap(a, index, last);
    SwapIsRearranged(s, a[..], first, last + 1, index, last);
    id := first;
    var i := first;
    while i < last
      invariant Partitioning(a[..], s0, first, last, id, i, pivot, key)
    {
      if key(a[i]) <= key(pivot) {
        ghost var s := a[..];
        Swap(a, id, i);
        ghost var id0, i0 := id, i;
        id, i := id + 1, i + 1;
        PartitionTake(s, a[..], s0, first, last, id0, i0, pivot, key, id, i);
      } else {
        ghost var i0 := i;
        i := i + 1;
        PartitionSkip(a[..], s0, first, last, id, i0, pivot, key, i);
      }
    }
    ghost var s1 := a[..];
    Swap(a, last, id);
    PartitionDone(s1, a[..], s0, first, last, id, pivot, key);
  }

  lemma PartitionTake<T>(s: seq<T>, t: seq<T>, s0: seq<T>, first: int, last: int, id: int, i: int,
                         pivot: T, key: T -> int, id': int, i': int)
    requires Partitioning(s, s0, first, last, id, i, pivot, key) && i < last
    requires key(s[i]) <= key(pivot)
    requires t == s[id := s[i]][i := s[id]] && id' == id + 1 && i' == i + 1
    ensures Partitioning(t, s0, first, last, id', i', pivot, key)
  {
    SwapIsRearranged(s, t, first, last + 1, id, i);
    RearrangedTrans(t, s, s0, first, last + 1);
    assert t[last] == pivot;
    forall k | first <= k < id'
      ensures key(t[k]) <= key(pivot)
    {
      if k < id {
        assert t[k] == s[k];
      } else {
        assert t[k] == s[i];
      }
    }
    forall k | id' <= k < i'
      ensures key(pivot) < key(t[k])
    {
      if k < i {
        assert t[k] == s[k];
      } else {
        assert t[k] == s[id];
      }
    }
  }

  lemma PartitionSkip<T>(s: seq<T>, s0: seq<T>, first: int, last: int, id: int, i: int,
                         pivot: T, key: T -> int, i': int)
    requires Partitioning(s, s0, first, last, id, i, pivot, key) && i < last
    requires key(pivot) < key(s[i]) && i' == i + 1
    ensures Partitioning(s, s0, first, last, id, i', pivot, key)
  {
  }

  lemma PartitionDone<T>(s: seq<T>, t: seq<T>, s0: seq<T>, first: int, last: int, id: int,
                         pivot: T, key: T -> int)
    requires Partitioning(s, s0, first, last, id, last, pivot, key)
    requires t == s[last := s[id]][id := s[last]]
    ensures t[id] == pivot
    ensures forall p :: first <= p < id ==> key(t[p]) <= key(t[id])
    ensures forall p :: id < p <= last ==> key(t[id]) < key(t[p])
    ensures Rearranged(t, s0, first, last + 1)
  {
    SwapIsRearranged(s, t, first, last + 1, last, id);
    RearrangedTrans(t, s, s0, first, last + 1);
  }

  /**
   * Sorting.java:245-253: sorts the range `first .. last` (inclusive; empty when
   * `last < first`).  The source draws the pivot's slot from `java.util.Random`; here it is
   * any slot of the range.
   */
  method Sort<T>(a: array<T>, first: int, last: int, key: T -> int)
    requires 0 <= first <= last + 1 <= a.Length
    modifies a
    ensures SortedRange(a[..], first, last + 1, key)
    ensures Rearranged(a[..], old(a[..]), first, last + 1)
    decreases last + 1 - first
  {
    ghost var s0 := a[..];
    if last > first {
      var index :| first <= index <= last;
      var pivot := Partition(a, first, last, index, key);
      ghost var s1 := a[..];
      Sort(a, first, pivot - 1, key);
      ghost var s2 := a[..];
      Sort(a, pivot + 1, last, key);
      SortStep(s0, s1, s2, a[..], first, last, pivot, key);
    } else {
      RearrangedRefl(a[..], first, last + 1);
    }
  }

  /** The two recursive calls around the pivot complete the sort of the range. */
  lemma SortStep<T>(s0: seq<T>, s1: seq<T>, s2: seq<T>, s3: seq<T>, first: int, last: int,
                    pivot: int, key: T -> int)
    requires 0 <= first <= pivot <= last < |s0|
    requires Rearranged(s1, s0, first, last + 1)
    requires forall t :: first <= t < pivot ==> key(s1[t]) <= key(s1[pivot])
    requires forall t :: pivot < t <= last ==> key(s1[pivot]) < key(s1[t])
    requires SortedRange(s2, first, pivot, key) && Rearranged(s2, s1, first, pivot)
    requires SortedRange(s3, pivot + 1, last + 1, key) && Rearranged(s3, s2, pivot + 1, last + 1)
    ensures SortedRange(s3, first, last + 1, key)
    ensures Rearranged(s3, s0, first, last + 1)
  {
    var b := key(s1[pivot]);
    RearrangedKeepsBounds(s2, s1, first, pivot, key, b);
    RearrangedKeepsBounds(s3, s2, pivot + 1, last + 1, key, b);
    SortStepFacts(s1, s2, s3, first, last, pivot);
    JoinAroundPivot(s3, first, last, pivot, b, key);
    RearrangedWiden(s2, s1, first, pivot, first, last + 1);
    RearrangedWiden(s3, s2, pivot + 1, last + 1, first, last + 1);
    RearrangedTrans(s2, s1, s0, first, last + 1);
    RearrangedTrans(s3, s2, s0, first, last + 1);
  }

  /** What each recursive call leaves alone: the pivot, and the other call's part. */
  lemma SortStepFacts<T>(s1: seq<T>, s2: seq<T>, s3: seq<T>, first: int, last: int, pivot: int)
    requires 0 <= first <= pivot <= last < |s1|
    requires Rearranged(s2, s1, first, pivot) && Rearranged(s3, s2, pivot + 1, last + 1)
    ensures s3[pivot] == s1[pivot]
    ensures forall t :: first <= t < pivot ==> s3[t] == s2[t]
    ensures forall t :: pivot < t <= last ==> s2[t] == s1[t]
  {
    assert s2[pivot] == s2[pivot..][0] && s1[pivot] == s1[pivot..][0];
    assert s3[pivot] == s3[..pivot + 1][pivot] && s2[pivot] == s2[..pivot + 1][pivot];
    forall t | first <= t < pivot
      ensures s3[t] == s2[t]
    {
      assert s3[t] == s3[..pivot + 1][t] && s2[t] == s2[..pivot + 1][t];
    }
    forall t | pivot < t <= last
      ensures s2[t] == s1[t]
    {
      assert s2[t] == s2[pivot..][t - pivot] && s1[t] == s1[pivot..][t - pivot];
    }
  }

  /**
   * A range is sorted when both sides of a slot are, every key before it is at most its key
   * `b`, and every key after it is larger.
   */
  lemma JoinAroundPivot<T>(s: seq<T>, first: int, last: int, pivot: int, b: int, key: T -> int)
    requires 0 <= first <= pivot <= last < |s| && key(s[pivot]) == b
    requires SortedRange(s, first, pivot, key) && SortedRange(s, pivot + 1, last + 1, key)
    requires forall t :: first <= t < pivot ==> key(s[t]) <= b
    requires forall t :: pivot < t <= last ==> b < key(s[t])
    ensures SortedRange(s, first, last + 1, key)
  {
    forall p, q | first <= p < q < last + 1
      ensures key(s[p]) <= key(s[q])
    {
      if q < pivot {
      } else if p > pivot {
      } else if q == pivot {
      } else if p == pivot {
      } else {
        assert key(s[p]) <= b;
      }
    }
  }

  /** Sorting.java:227-233: sorts the whole array. */
  method QuickSort<T>(a: array<T>, key: T -> int)
    modifies a
    ensures SortedBy(a[..], key)
    ensures multiset(a[..]) == multiset(old(a[..]))
  {
    Sort(a, 0, a.Length - 1, key);
    assert a[..] == a[0..a.Length] && old(a[..]) == old(a[..])[0..a.Length];
    SortedRangeIsSorted(a[..], key);
  }
}
