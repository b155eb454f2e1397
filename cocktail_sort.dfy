/**
 * Cocktail shaker sort (Sorting.java:75-106): alternating forward and backward bubble
 * passes over a shrinking window `start .. end`.  Each pass remembers where it last swapped,
 * and the next pass stops there, since nothing beyond that point moved.
 */
module CocktailSort {
  import opened SortSpec

  /**
   * Between two rounds: everything before `start` and everything after `end` is in its final
   * place, and the array is a stable rearrangement of the input.
   */
  ghost predicate Outer<T>(s: seq<T>, s0: seq<T>, start: int, end: int, key: T -> int)
  {
    |s| == |s0| && 0 <= start <= |s| && -1 <= end < |s| &&
    SortedRange(s, 0, start, key) && Split(s, start, key) &&
    SortedRange(s, end + 1, |s|, key) && Split(s, end + 1, key) &&
    StableOf(s, s0, key)
  }

  /**
   * During the forward pass, before comparing slots `i` and `i + 1`: slot `i` holds the largest
   * key seen so far, the slots after the last swap are in order, and (once a swap has happened)
   * the slot just after the last swap bounds everything before it.
   */
  ghost predicate Forward<T>(s: seq<T>, s0: seq<T>, start: int, end: int, i: int, newEnd: int,
                             swapped: bool, key: T -> int)
  {
    Outer(s, s0, start, end, key) && start <= i &&
    (start <= end ==> i <= end) && (start > end ==> i == start) &&
    (i < |s| ==> forall t :: start <= t <= i ==> key(s[t]) <= key(s[i])) &&
    SortedRange(s, if swapped then newEnd + 1 else start, i + 1, key) &&
    (swapped ==> start <= newEnd < i &&
                 forall t :: start <= t <= newEnd ==> key(s[t]) <= key(s[newEnd + 1])) &&
    (!swapped ==> newEnd == 0)
  }

  /**
   * During the backward pass, before comparing slots `i - 1` and `i`; the mirror image of
   * `Forward`.  When the forward pass swapped nothing the array is already sorted and this
   * pass is empty.
   */
  ghost predicate Backward<T>(s: seq<T>, s0: seq<T>, start: int, end: int, i: int, newStart: int,
                              swappedBack: bool, swappedForward: bool, key: T -> int)
  {
    (!swappedForward ==>
       |s| == |s0| && SortedRange(s, 0, |s|, key) && StableOf(s, s0, key) &&
       !swappedBack && i == 0 && 0 <= start) &&
    (swappedForward ==>
       Outer(s, s0, start, end, key) && start <= i <= end && start <= newStart &&
       (forall t :: i <= t <= end ==> key(s[i]) <= key(s[t])) &&
       SortedRange(s, i, if swappedBack then newStart else end + 1, key) &&
       (swappedBack ==> i < newStart <= end &&
                        forall t :: newStart <= t <= end ==> key(s[newStart - 1]) <= key(s[t])) &&
       (!swappedBack ==> newStart <= |s|))
  }

  method CocktailSort<T>(a: array<T>, key: T -> int)
    modifies a
    ensures SortedBy(a[..], key)
    ensures StableOf(a[..], old(a[..]), key)
    ensures multiset(a[..]) == multiset(old(a[..]))
  {
    ghost var s0 := a[..];
    var start := 0;
    var end := a.Length - 1;
    // `swapped` starts true so that the loop body runs once before the test, as the do-while does.
    var swapped := true;
    while swapped
      invariant swapped ==> Outer(a[..], s0, start, end, key)
      invariant !swapped ==> SortedBy(a[..], key) && StableOf(a[..], s0, key)
      decreases if swapped then (if end - start + 2 > 1 then end - start + 2 else 1) else 0
    {
      var newStart := end;
      var newEnd, swappedForward := ForwardPass(a, key, start, end, s0);
      ghost var oldEnd := end;
      end := newEnd;
      var swappedBack;
      newStart, swappedBack := BackwardPass(a, key, start, end, newStart, swappedForward, s0);
      swapped := swappedForward || swappedBack;
      assert swappedForward ==> start <= end < oldEnd;
      start := newStart;
    }
    StableIsPermutation(a[..], s0, key);
  }

  /**
   * Sorting.java:88-95: bubbles the largest key of the window to its end, recording the
   * position of the last exchange in `newEnd` (0 when there was none).
   */
  method ForwardPass<T>(a: array<T>, key: T -> int, start: int, end: int, ghost s0: seq<T>)
      returns (newEnd: int, swapped: bool)
    requires Outer(a[..], s0, start, end, key)
    modifies a
    ensures Backward(a[..], s0, start, newEnd, newEnd, end, false, swapped, key)
    ensures swapped ==> start <= newEnd < end
  {
    swapped := false;
    newEnd := 0;
    var i := start;
    ForwardStart(a[..], s0, start, end, i, newEnd, swapped, key);
    while i < end
      invariant Forward(a[..], s0, start, end, i, newEnd, swapped, key)
    {
      if key(a[i]) > key(a[i + 1]) {
        ghost var s := a[..];
        Swap(a, i, i + 1);
        ghost var i0, newEnd0, swapped0 := i, newEnd, swapped;
        swapped := true;
        newEnd := i;
        i := i + 1;
        ForwardSwap(s, a[..], s0, start, end, i0, newEnd0, swapped0, i, key);
      } else {
        ghost var i0 := i;
        i := i + 1;
        ForwardKeep(a[..], s0, start, end, i0, newEnd, swapped, i, key);
      }
    }
    ForwardDone(a[..], s0, start, end, i, newEnd, swapped, key);
  }

  /**
   * Sorting.java:98-104: bubbles the smallest key of the window to its start, recording the
   * position of the last exchange in `newStart` (left as given when there was none).
   */
  method BackwardPass<T>(a: array<T>, key: T -> int, start: int, end: int, newStart0: int,
                         swappedForward: bool, ghost s0: seq<T>)
      returns (newStart: int, swappedBack: bool)
    requires Backward(a[..], s0, start, end, end, newStart0, false, swappedForward, key)
    modifies a
    ensures swappedBack ==> swappedForward
    ensures swappedForward ==> Outer(a[..], s0, newStart, end, key) && start <= newStart
    ensures !swappedForward ==> SortedBy(a[..], key) && StableOf(a[..], s0, key)
  {
    newStart := newStart0;
    swappedBack := false;
    var i := end;
    while i > start
      invariant Backward(a[..], s0, start, end, i, newStart, swappedBack, swappedForward, key)
    {
      if key(a[i - 1]) > key(a[i]) {
        ghost var s := a[..];
        Swap(a, i - 1, i);
        ghost var i0, newStart0, swappedBack0 := i, newStart, swappedBack;
        swappedBack := true;
        newStart := i;
        i := i - 1;
        BackwardSwap(s, a[..], s0, start, end, i0, newStart0, swappedBack0, swappedForward, i, key);
      } else {
        ghost var i0 := i;
        i := i - 1;
        BackwardKeep(a[..], s0, start, end, i0, newStart, swappedBack, swappedForward, i, key);
      }
    }
    BackwardDone(a[..], s0, start, end, i, newStart, swappedBack, swappedForward, key);
  }

  lemma ForwardStart<T>(s: seq<T>, s0: seq<T>, start: int, end: int, i: int, newEnd: int,
                        swapped: bool, key: T -> int)
    requires Outer(s, s0, start, end, key) && i == start && newEnd == 0 && !swapped
    ensures Forward(s, s0, start, end, i, newEnd, swapped, key)
  {
  }

  lemma ForwardSwap<T>(s: seq<T>, t: seq<T>, s0: seq<T>, start: int, end: int, i: int, newEnd: int,
                       swapped: bool, next: int, key: T -> int)
    requires Forward(s, s0, start, end, i, newEnd, swapped, key)
    requires i < end && key(s[i]) > key(s[i + 1])
    requires t == s[i := s[i + 1]][i + 1 := s[i]] && next == i + 1
    ensures Forward(t, s0, start, end, next, i, true, key)
  {
    SwapNeighboursIsStable(s, s0, i, key);
    SwapKeepsOuter(s, t, s0, start, end, i, key);
  }

  /** An exchange of two neighbours inside the window keeps the part outside it final. */
  lemma SwapKeepsOuter<T>(s: seq<T>, t: seq<T>, s0: seq<T>, start: int, end: int, i: int, key: T -> int)
    requires Outer(s, s0, start, end, key) && start <= i < end
    requires t == s[i := s[i + 1]][i + 1 := s[i]] && StableOf(t, s0, key)
    ensures Outer(t, s0, start, end, key)
  {
    assert forall p :: 0 <= p < |s| && p != i && p != i + 1 ==> t[p] == s[p];
  }

  lemma ForwardKeep<T>(s: seq<T>, s0: seq<T>, start: int, end: int, i: int, newEnd: int,
                       swapped: bool, next: int, key: T -> int)
    requires Forward(s, s0, start, end, i, newEnd, swapped, key)
    requires i < end && key(s[i]) <= key(s[i + 1]) && next == i + 1
    ensures Forward(s, s0, start, end, next, newEnd, swapped, key)
  {
  }

  /** The window pieces together give a sorted array once the window itself is sorted. */
  lemma Combine<T>(s: seq<T>, start: int, end: int, key: T -> int)
    requires 0 <= start && -1 <= end
    requires SortedRange(s, 0, start, key) && Split(s, start, key)
    requires SortedRange(s, start, end + 1, key)
    requires SortedRange(s, end + 1, |s|, key) && Split(s, end + 1, key)
    ensures SortedRange(s, 0, |s|, key)
  {
    forall p, q | 0 <= p < q < |s|
      ensures key(s[p]) <= key(s[q])
    {
      if q < start {
      } else if p < start {
      } else if q <= end {
      } else if p <= end {
      } else {
      }
    }
  }

  lemma ForwardDone<T>(s: seq<T>, s0: seq<T>, start: int, end: int, i: int, newEnd: int,
                       swapped: bool, key: T -> int)
    requires Forward(s, s0, start, end, i, newEnd, swapped, key) && i >= end
    ensures Backward(s, s0, start, newEnd, newEnd, end, false, swapped, key)
    ensures swapped ==> start <= newEnd < end
  {
    if swapped {
      assert i == end;
      forall p, q | 0 <= p <= newEnd < q < |s|
        ensures key(s[p]) <= key(s[q])
      {
        if p < start {
        } else if q <= end {
          assert key(s[p]) <= key(s[newEnd + 1]);
        }
      }
      assert SortedRange(s, newEnd + 1, |s|, key);
    } else {
      Combine(s, start, end, key);
    }
  }

  lemma BackwardSwap<T>(s: seq<T>, t: seq<T>, s0: seq<T>, start: int, end: int, i: int, newStart: int,
                        swappedBack: bool, swappedForward: bool, next: int, key: T -> int)
    requires Backward(s, s0, start, end, i, newStart, swappedBack, swappedForward, key)
    requires i > start && key(s[i - 1]) > key(s[i])
    requires t == s[i - 1 := s[i]][i := s[i - 1]] && next == i - 1
    ensures swappedForward
    ensures Backward(t, s0, start, end, next, i, true, swappedForward, key)
  {
    assert t == s[i - 1 := s[i - 1 + 1]][i - 1 + 1 := s[i - 1]];
    SwapNeighboursIsStable(s, s0, i - 1, key);
    SwapKeepsOuter(s, t, s0, start, end, i - 1, key);
  }

  lemma BackwardKeep<T>(s: seq<T>, s0: seq<T>, start: int, end: int, i: int, newStart: int,
                        swappedBack: bool, swappedForward: bool, next: int, key: T -> int)
    requires Backward(s, s0, start, end, i, newStart, swappedBack, swappedForward, key)
    requires i > start && key(s[i - 1]) <= key(s[i]) && next == i - 1
    ensures Backward(s, s0, start, end, next, newStart, swappedBack, swappedForward, key)
  {
  }

  lemma BackwardDone<T>(s: seq<T>, s0: seq<T>, start: int, end: int, i: int, newStart: int,
                        swappedBack: bool, swappedForward: bool, key: T -> int)
    requires Backward(s, s0, start, end, i, newStart, swappedBack, swappedForward, key)
    requires i <= start
    ensures swappedForward ==> Outer(s, s0, newStart, end, key) && start <= newStart
    ensures !swappedForward ==> !swappedBack && SortedBy(s, key) && StableOf(s, s0, key)
  {
    if !swappedForward {
      SortedRangeIsSorted(s, key);
    } else if swappedBack {
      assert i == start;
      forall p, q | 0 <= p < newStart <= q < |s|
        ensures key(s[p]) <= key(s[q])
      {
        if p < start {
        } else if q <= end {
          assert key(s[p]) <= key(s[newStart - 1]);
        }
      }
      assert SortedRange(s, 0, newStart, key);
    } else {
      Combine(s, start, end, key);
    }
  }
}
