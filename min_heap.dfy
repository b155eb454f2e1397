/**
 * The array-backed binary min-heap of MinHeap.java.  Index 0 of the backing array is unused;
 * the heap occupies indices 1..size, the children of index i are 2i and 2i + 1 and its parent
 * is i / 2.  Sifting moves a "hole" instead of swapping: the displaced value is held aside
 * and written once at the end.
 */
module Heap {
  import opened Wrappers

  /** MinHeap.java:19. */
  const INITIAL_CAPACITY: int := 13

  /** The index of the parent of slot `k`. */
  function Parent(k: int): int
  {
    k / 2
  }

  /** Every parent at index `lo` or later is at most each of its children among slots 1..n. */
  ghost predicate ParentsOrdered(s: seq<int>, lo: int, n: int)
    requires n < |s|
  {
    forall k :: 2 <= k <= n && lo <= Parent(k) ==> s[Parent(k)] <= s[k]
  }

  /** In a heap the value at index 1 is at most every value of the heap. */
  lemma {:induction false} RootIsMin(s: seq<int>, n: int, k: int)
    requires n < |s| && ParentsOrdered(s, 1, n) && 1 <= k <= n
    ensures s[1] <= s[k]
    decreases k
  {
    if k > 1 {
      RootIsMin(s, n, Parent(k));
    }
  }

  /** Every value of a heap over slots 1..n is at least the value at index 1. */
  lemma HeapMinimum(s: seq<int>, n: int, m: multiset<int>)
    requires 1 <= n < |s| && ParentsOrdered(s, 1, n) && m == multiset(s[1..n + 1])
    ensures s[1] in m
    ensures forall y :: y in m ==> s[1] <= y
  {
    assert s[1] == s[1..n + 1][0];
    forall y | y in m ensures s[1] <= y {
      var j :| 0 <= j < n && s[1..n + 1][j] == y;
      RootIsMin(s, n, j + 1);
    }
  }

  /** Exchanging two slots of a range does not change the values it holds. */
  lemma SwapKeepsValues(s: seq<int>, i: int, j: int, lo: int, hi: int)
    requires 0 <= lo <= i < hi && lo <= j < hi && hi <= |s|
    ensures multiset(s[i := s[j]][j := s[i]][lo..hi]) == multiset(s[lo..hi])
  {
    var t := s[i := s[j]][j := s[i]];
    assert t[lo..hi] == s[lo..hi][i - lo := s[j]][j - lo := s[i]];
  }

  /**
   * Moving the hole of a sift from `c` to `m`: the value at `m` is copied to `c` and the
   * held value `v` now belongs at `m`.  The values of slots 1..n and every other slot are
   * the same as before.
   */
  lemma MoveHole(s: seq<int>, c: int, m: int, v: int, n: int)
    requires 1 <= c <= n && 1 <= m <= n && n < |s|
    ensures multiset(s[c := s[m]][m := v][1..n + 1]) == multiset(s[c := v][1..n + 1])
  {
    var u := s[1..n + 1];
    assert s[c := s[m]][m := v][1..n + 1] == u[c - 1 := s[m]][m - 1 := v];
    assert s[c := v][1..n + 1] == u[c - 1 := v];
    if c != m {
      assert u[c - 1 := s[m]][m - 1] == s[m];
    }
  }

  /**
   * The state of a sift-down from `start` with the hole at `c` holding `curr` aside: every
   * parent from `start` on other than `c` is in order, and the parent of the hole is at most
   * `curr` and at most the hole's children.
   */
  ghost predicate SiftDownState(s: seq<int>, start: int, n: int, c: int, curr: int)
    requires n < |s| && 0 <= c < |s|
  {
    (forall k :: 2 <= k <= n && start <= Parent(k) && Parent(k) != c ==> s[Parent(k)] <= s[k]) &&
    (c > start ==>
       start <= c / 2 && s[c / 2] <= curr &&
       forall k :: 2 <= k <= n && k / 2 == c ==> s[c / 2] <= s[k])
  }

  /** Lifting the smaller child `m` of the hole into it moves the hole down to `m`. */
  lemma SiftDownStep(s: seq<int>, start: int, n: int, c: int, curr: int, m: int)
    requires 1 <= start <= c && 2 * c <= n < |s|
    requires m == 2 * c || m == 2 * c + 1 <= n
    requires s[m] <= s[2 * c] && (2 * c + 1 <= n ==> s[m] <= s[2 * c + 1])
    requires s[m] < curr
    requires SiftDownState(s, start, n, c, curr)
    ensures SiftDownState(s[c := s[m]], start, n, m, curr)
  {
    var t := s[c := s[m]];
    assert m / 2 == c;
    assert forall k :: 2 <= k <= n && k / 2 == c ==> k == 2 * c || k == 2 * c + 1;
    forall k | 2 <= k <= n && start <= Parent(k) && Parent(k) != m ensures t[Parent(k)] <= t[k] {
      if k / 2 == c {
        assert t[Parent(k)] == s[m] <= s[k];
        if k == c {
        }
      } else if k == c {
        assert t[Parent(k)] == s[c / 2];
      }
    }
    forall k | 2 <= k <= n && k / 2 == m ensures t[m / 2] <= t[k] {
      assert k != c && Parent(k) == m != c;
      assert s[Parent(k)] <= s[k];
    }
  }

  /** When the held value is at most the hole's children, writing it there ends the sift. */
  lemma SiftDownDone(s: seq<int>, start: int, n: int, c: int, curr: int)
    requires 1 <= start <= c < |s| && n < |s|
    requires SiftDownState(s, start, n, c, curr)
    requires 2 * c <= n ==> curr <= s[2 * c] && (2 * c + 1 <= n ==> curr <= s[2 * c + 1])
    ensures ParentsOrdered(s[c := curr], start, n)
  {
    assert forall k :: 2 <= k <= n && k / 2 == c ==> k == 2 * c || k == 2 * c + 1;
    var t := s[c := curr];
    forall k | 2 <= k <= n && start <= Parent(k) ensures t[Parent(k)] <= t[k] {
      if k / 2 == c {
        assert k != c;
      } else if k == c {
        assert t[Parent(k)] == s[c / 2];
      }
    }
  }

  /**
   * The state of a sift-up with the hole at `c` holding `data` aside: every parent is in
   * order except with the hole, the hole's parent is at most its children and `data` is
   * at most the hole's children.
   */
  ghost predicate SiftUpState(s: seq<int>, n: int, c: int, data: int)
    requires n < |s| && 1 <= c < |s|
  {
    (forall k :: 2 <= k <= n && k != c ==> s[Parent(k)] <= s[k]) &&
    (c > 1 ==> forall k :: 2 <= k <= n && k / 2 == c ==> s[c / 2] <= s[k]) &&
    (forall k :: 2 <= k <= n && k / 2 == c ==> data <= s[k])
  }

  /** Lowering the parent into the hole moves the hole up to the parent. */
  lemma SiftUpStep(s: seq<int>, n: int, c: int, data: int)
    requires 2 <= c <= n < |s|
    requires data < s[c / 2]
    requires SiftUpState(s, n, c, data)
    ensures SiftUpState(s[c := s[c / 2]], n, c / 2, data)
  {
    var p := c / 2;
    var t := s[c := s[p]];
    forall k | 2 <= k <= n && k != p ensures t[Parent(k)] <= t[k] {
      if k == c {
      } else if k / 2 == c {
        assert t[Parent(k)] == s[p];
      }
    }
    if p > 1 {
      forall k | 2 <= k <= n && k / 2 == p ensures t[p / 2] <= t[k] {
        assert Parent(p) == p / 2 && s[Parent(p)] <= s[p];
        if k != c {
          assert Parent(k) == p && s[Parent(k)] <= s[k];
        }
      }
    }
    forall k | 2 <= k <= n && k / 2 == p ensures data <= t[k] {
      if k != c {
        assert Parent(k) == p && s[Parent(k)] <= s[k];
      }
    }
  }

  /** When the held value is not smaller than the hole's parent, writing it ends the sift. */
  lemma SiftUpDone(s: seq<int>, n: int, c: int, data: int)
    requires 1 <= c < |s| && n < |s|
    requires SiftUpState(s, n, c, data)
    requires c == 1 || s[c / 2] <= data
    ensures ParentsOrdered(s[c := data], 1, n)
  {
    var t := s[c := data];
    forall k | 2 <= k <= n ensures t[Parent(k)] <= t[k] {
      if k / 2 == c {
        assert k != c;
      }
    }
  }

  /**
   * The whole loop state of the sift-down of MinHeap.java:147-163 for an array that held
   * `a0` on entry: the order facts of `SiftDownState`, and writing `curr` into the hole would
   * give back the entry values of slots 1..n and the entry contents of every other slot.
   */
  ghost predicate DownLoop(s: seq<int>, a0: seq<int>, start: int, n: int, c: int, curr: int)
    requires 0 <= n < |s| == |a0| && 0 <= c < |s|
  {
    SiftDownState(s, start, n, c, curr) &&
    multiset(s[c := curr][1..n + 1]) == multiset(a0[1..n + 1])
  }

  lemma DownLoopStep(s: seq<int>, a0: seq<int>, start: int, n: int, c: int, curr: int, m: int)
    requires 1 <= start <= c && 2 * c <= n < |s| == |a0|
    requires m == 2 * c || m == 2 * c + 1 <= n
    requires s[m] <= s[2 * c] && (2 * c + 1 <= n ==> s[m] <= s[2 * c + 1])
    requires s[m] < curr
    requires DownLoop(s, a0, start, n, c, curr)
    ensures DownLoop(s[c := s[m]], a0, start, n, m, curr)
  {
    SiftDownStep(s, start, n, c, curr, m);
    MoveHole(s, c, m, curr, n);
  }

  lemma DownLoopDone(s: seq<int>, a0: seq<int>, start: int, n: int, c: int, curr: int)
    requires 1 <= start <= c < |s| == |a0| && 0 <= n < |s|
    requires DownLoop(s, a0, start, n, c, curr)
    requires 2 * c <= n ==> curr <= s[2 * c] && (2 * c + 1 <= n ==> curr <= s[2 * c + 1])
    ensures ParentsOrdered(s[c := curr], start, n)
    ensures multiset(s[c := curr][1..n + 1]) == multiset(a0[1..n + 1])
  {
    SiftDownDone(s, start, n, c, curr);
  }

  /** The whole loop state of the sift-up of MinHeap.java:176-179, as `DownLoop`. */
  ghost predicate UpLoop(s: seq<int>, a0: seq<int>, n: int, c: int, data: int)
    requires 0 <= n < |s| == |a0| && 1 <= c < |s|
  {
    SiftUpState(s, n, c, data) &&
    multiset(s[c := data][1..n + 1]) == multiset(a0[1..n + 1])
  }

  lemma UpLoopStep(s: seq<int>, a0: seq<int>, n: int, c: int, data: int)
    requires 2 <= c <= n < |s| == |a0|
    requires data < s[c / 2]
    requires UpLoop(s, a0, n, c, data)
    ensures UpLoop(s[c := s[c / 2]], a0, n, c / 2, data)
  {
    SiftUpStep(s, n, c, data);
    MoveHole(s, c, c / 2, data, n);
  }

  lemma UpLoopDone(s: seq<int>, a0: seq<int>, n: int, c: int, data: int)
    requires 1 <= c < |s| == |a0| && 0 <= n < |s|
    requires UpLoop(s, a0, n, c, data)
    requires c == 1 || s[c / 2] <= data
    ensures ParentsOrdered(s[c := data], 1, n)
    ensures multiset(s[c := data][1..n + 1]) == multiset(a0[1..n + 1])
  {
    SiftUpDone(s, n, c, data);
  }

  class MinHeap {
    var backingArray: array<int>
    var size: int

    ghost predicate Valid()
      reads this, backingArray
    {
      0 <= size < backingArray.Length && ParentsOrdered(backingArray[..], 1, size)
    }

    /** The values of the heap, slots 1..size. */
    ghost function Contents(): multiset<int>
      reads this, backingArray
      requires 0 <= size < backingArray.Length
    {
      multiset(backingArray[1..size + 1])
    }

    /** MinHeap.java:32-35. */
    constructor ()
      ensures Valid() && fresh(backingArray)
      ensures size == 0 && backingArray.Length == INITIAL_CAPACITY
    {
      backingArray := new int[INITIAL_CAPACITY];
      size := 0;
    }

    /**
     * MinHeap.java:60-76: copies the values to slots 1..n of an array of length 2n + 1 and
     * sifts down every parent from n / 2 back to 1.
     */
    constructor FromSeq(data: seq<int>)
      ensures Valid() && fresh(backingArray)
      ensures size == |data| && backingArray.Length == 2 * |data| + 1
      ensures Contents() == multiset(data)
    {
      var arr := CopyToSlots(data);
      BuildHeap(arr, |data|);
      backingArray := arr;
      size := |data|;
    }

    /** MinHeap.java:64-71: a new array of length 2n + 1 holding the values in slots 1..n. */
    static method CopyToSlots(data: seq<int>) returns (arr: array<int>)
      ensures fresh(arr) && arr.Length == 2 * |data| + 1
      ensures arr[1..|data| + 1] == data
    {
      arr := new int[2 * |data| + 1];
      for i := 0 to |data|
        invariant arr[1..i + 1] == data[..i]
      {
        arr[i + 1] := data[i];
      }
    }

    /** MinHeap.java:73-75: sifting down every parent from n / 2 back to 1 orders slots 1..n. */
    static method BuildHeap(a: array<int>, n: int)
      requires 0 <= n < a.Length
      modifies a
      ensures ParentsOrdered(a[..], 1, n)
      ensures multiset(a[1..n + 1]) == old(multiset(a[1..n + 1]))
    {
      var i := n / 2;
      while i > 0
        invariant 0 <= i <= n / 2
        invariant ParentsOrdered(a[..], i + 1, n)
        invariant multiset(a[1..n + 1]) == old(multiset(a[1..n + 1]))
      {
        DownHeap(a, n, i);
        i := i - 1;
      }
    }

    /**
     * MinHeap.java:87-97 as written: on a full array the call to `resize` throws, because
     * MinHeap.java:188 casts an `Object[]` to `T[]` while `T` is bounded by `Comparable`; the
     * ClassCastException comes before any field is assigned, so the heap is left as it was.
     * Otherwise the value is written in the first free slot and sifted up.
     */
    method Add(x: int) returns (r: Outcome)
      requires Valid()
      modifies this, backingArray
      ensures Valid() && backingArray == old(backingArray)
      ensures old(size) + 1 == backingArray.Length ==>
                r == Fail(ClassCast) && size == old(size) && backingArray[..] == old(backingArray[..])
      ensures old(size) + 1 < backingArray.Length ==>
                r == Pass && size == old(size) + 1 && Contents() == old(Contents()) + multiset{x}
    {
      if size + 1 == backingArray.Length {
        return Fail(ClassCast);
      }
      var a, n := backingArray, size;
      ghost var m1 := multiset(a[1..n + 1]);
      InsertLeaf(a, n, x);
      size := n + 1;
      assert Contents() == m1 + multiset{x};
      r := Pass;
    }

    /**
     * MinHeap.java:87-97 as intended: doubles the array when it is full; the addition as
     * written then has room and writes the value in the first free slot and sifts it up.
     */
    method AddCorrected(x: int)
      requires Valid()
      modifies this, backingArray
      ensures Valid()
      ensures size == old(size) + 1
      ensures Contents() == old(Contents()) + multiset{x}
      ensures old(size) + 1 == old(backingArray.Length) ==>
                fresh(backingArray) && backingArray.Length == 2 * old(backingArray.Length)
      ensures old(size) + 1 < old(backingArray.Length) ==> backingArray == old(backingArray)
    {
      EnsureRoomCorrected();
      var _ := Add(x);
    }

    /** MinHeap.java:91-93 with the intended resize: doubles the array when slot size + 1 is past its end. */
    method EnsureRoomCorrected()
      requires Valid()
      modifies this
      ensures Valid() && size == old(size) && Contents() == old(Contents())
      ensures size + 1 < backingArray.Length
      ensures old(size) + 1 == old(backingArray.Length) ==>
                fresh(backingArray) && backingArray.Length == 2 * old(backingArray.Length)
      ensures old(size) + 1 < old(backingArray.Length) ==> backingArray == old(backingArray)
    {
      if size + 1 == backingArray.Length {
        ResizeCorrected();
      }
    }

    /** Writes `x` into the first free slot of a heap over slots 1..n and sifts it up. */
    static method InsertLeaf(a: array<int>, n: int, x: int)
      requires 0 <= n && n + 1 < a.Length && ParentsOrdered(a[..], 1, n)
      modifies a
      ensures ParentsOrdered(a[..], 1, n + 1)
      ensures multiset(a[1..n + 2]) == old(multiset(a[1..n + 1])) + multiset{x}
    {
      ghost var before := a[..];
      PlaceLeaf(before, n, x);
      a[n + 1] := x;
      ghost var t := a[..];
      assert t == before[n + 1 := x];
      forall k | 2 <= k <= n + 1 && k != n + 1
        ensures a[Parent(k)] <= a[k]
      {
        assert a[Parent(k)] == t[Parent(k)] && a[k] == t[k];
      }
      UpHeap(a, n + 1, n + 1);
    }

    /**
     * MinHeap.java:108-122: a NoSuchElementException on the empty heap; otherwise the value
     * at index 1 (the minimum) is returned, the last value takes its place and is sifted down.
     */
    method Remove() returns (r: Result<int>)
      requires Valid()
      modifies this, backingArray
      ensures Valid() && backingArray == old(backingArray)
      ensures old(size) == 0 ==> r == Err(NoSuchElement) && size == 0
      ensures old(size) > 0 ==>
                r.Ok? && size == old(size) - 1 &&
                r.value in old(Contents()) && (forall y :: y in old(Contents()) ==> r.value <= y) &&
                Contents() == old(Contents()) - multiset{r.value}
    {
      if size == 0 {
        return Err(NoSuchElement);
      }
      ghost var m0 := Contents();
      HeapMinimum(backingArray[..], size, m0);
      var removed := RemoveRoot(backingArray, size);
      size := size - 1;
      assert Contents() == m0 - multiset{removed};
      return Ok(removed);
    }

    /**
     * MinHeap.java:113-120 on a heap over slots 1..n: the value at index 1 is taken out, the
     * last value takes its place and is sifted down, leaving a heap over slots 1..n - 1.
     */
    static method RemoveRoot(a: array<int>, n: int) returns (removed: int)
      requires 1 <= n < a.Length && ParentsOrdered(a[..], 1, n)
      modifies a
      ensures removed == old(a[1])
      ensures ParentsOrdered(a[..], 1, n - 1)
      ensures multiset(a[1..n]) == old(multiset(a[1..n + 1])) - multiset{removed}
    {
      ghost var before := a[..];
      removed := a[1];
      a[1] := a[n];
      assert a[..] == before[1 := before[n]];
      RemoveFirst(before, n);
      DownHeap(a, n - 1, 1);
    }

    /** MinHeap.java:130-137: the value at index 1, or a NoSuchElementException. */
    method GetMin() returns (r: Result<int>)
      requires Valid()
      ensures size == 0 ==> r == Err(NoSuchElement)
      ensures size > 0 ==> r.Ok? && r.value in Contents() && forall y :: y in Contents() ==> r.value <= y
    {
      if size == 0 {
        return Err(NoSuchElement);
      }
      HeapMinimum(backingArray[..], size, Contents());
      return Ok(backingArray[1]);
    }

    /**
     * MinHeap.java:143-165: moves the value at `start` down, lifting the smaller child into
     * the hole while that child is smaller than the value.  Given that every parent after
     * `start` is in order, afterwards every parent from `start` on is; the values of slots
     * 1..size are kept and no other slot changes.
     */
    static method DownHeap(a: array<int>, n: int, start: int)
      requires 0 <= n < a.Length && 1 <= start < a.Length
      requires ParentsOrdered(a[..], start + 1, n)
      modifies a
      ensures ParentsOrdered(a[..], start, n)
      ensures multiset(a[1..n + 1]) == old(multiset(a[1..n + 1]))
    {
      var curr := a[start];
      var c := start;
      ghost var a0 := a[..];
      assert a0[c := curr] == a0;
      while c <= n / 2
        invariant start <= c < a.Length && (c == start || c <= n)
        invariant DownLoop(a[..], a0, start, n, c, curr)
        decreases n - c
      {
        var smallerIndex := SmallerChild(a, n, c);
        if curr <= a[smallerIndex] {
          break;
        }
        ghost var s := a[..];
        DownLoopStep(s, a0, start, n, c, curr, smallerIndex);
        a[c] := a[smallerIndex];
        assert a[..] == s[c := s[smallerIndex]];
        c := smallerIndex;
      }
      ghost var last := a[..];
      assert c > n / 2 ==> 2 * c > n;
      DownLoopDone(last, a0, start, n, c, curr);
      a[c] := curr;
      assert a[..] == last[c := curr];
    }

    /**
     * MinHeap.java:148-154: the index of the smaller child of `c`, the left one on a tie or
     * when there is no right child.
     */
    static function SmallerChild(a: array<int>, n: int, c: int): (m: int)
      reads a
      requires 1 <= c && 2 * c <= n < a.Length
      ensures m == 2 * c || m == 2 * c + 1 <= n
      ensures a[m] <= a[2 * c] && (2 * c + 1 <= n ==> a[m] <= a[2 * c + 1])
      ensures m == 2 * c + 1 <==> 2 * c + 1 <= n && a[2 * c + 1] < a[2 * c]
    {
      if 2 * c + 1 <= n && a[2 * c + 1] < a[2 * c] then 2 * c + 1 else 2 * c
    }

    /**
     * MinHeap.java:172-181: moves the value at the leaf `index` up, lowering the parent into
     * the hole while the value is smaller than the parent.  Given that every parent is in
     * order except with `index`, afterwards the whole heap is.
     */
    static method UpHeap(a: array<int>, n: int, index: int)
      requires 1 <= index <= n < a.Length && n < 2 * index
      requires forall k :: 2 <= k <= n && k != index ==> a[Parent(k)] <= a[k]
      modifies a
      ensures ParentsOrdered(a[..], 1, n)
      ensures multiset(a[1..n + 1]) == old(multiset(a[1..n + 1]))
    {
      var data := a[index];
      var c := index;
      ghost var a0 := a[..];
      assert a0[c := data] == a0;
      while c > 1 && data < a[c / 2]
        invariant 1 <= c <= index
        invariant UpLoop(a[..], a0, n, c, data)
        decreases c
      {
        var p := c / 2;
        ghost var s := a[..];
        UpLoopStep(s, a0, n, c, data);
        a[c] := a[p];
        assert a[..] == s[c := s[p]];
        c := p;
      }
      ghost var last := a[..];
      UpLoopDone(last, a0, n, c, data);
      a[c] := data;
      assert a[..] == last[c := data];
    }

    /** MinHeap.java:186-195 as intended: a new array of twice the length holding slots 1..size. */
    method ResizeCorrected()
      requires Valid()
      modifies this
      ensures fresh(backingArray) && backingArray.Length == 2 * old(backingArray.Length)
      ensures size == old(size)
      ensures backingArray[1..size + 1] == old(backingArray[1..size + 1])
      ensures Valid() && Contents() == old(Contents())
    {
      var oldArr := backingArray;
      var n := size;
      var newArr := new int[oldArr.Length * 2];
      for i := 1 to n + 1
        invariant backingArray == oldArr && size == n
        invariant forall j :: 1 <= j < i ==> newArr[j] == oldArr[j]
      {
        newArr[i] := oldArr[i];
      }
      assert newArr[1..n + 1] == oldArr[1..n + 1];
      SamePrefixOrdered(oldArr[..], newArr[..], n);
      backingArray := newArr;
    }

    /** MinHeap.java:202-204. */
    method IsEmpty() returns (b: bool)
      requires Valid()
      ensures b <==> Contents() == multiset{}
    {
      return size == 0;
    }

    /** MinHeap.java:212-216: a fresh array of the initial capacity. */
    method Clear()
      modifies this
      ensures Valid() && fresh(backingArray)
      ensures size == 0 && backingArray.Length == INITIAL_CAPACITY
    {
      backingArray := new int[INITIAL_CAPACITY];
      size := 0;
    }
  }

  /**
   * Removing from a heap of size n: after the last value is copied to index 1, slots 1..n-1
   * hold the old values without the old minimum, and every parent after index 1 is in order.
   */
  lemma RemoveFirst(before: seq<int>, n: int)
    requires 1 <= n < |before| && ParentsOrdered(before, 1, n)
    ensures var after := before[1 := before[n]];
            multiset(after[1..n]) == multiset(before[1..n + 1]) - multiset{before[1]} &&
            ParentsOrdered(after, 2, n - 1)
  {
    var after := before[1 := before[n]];
    if n == 1 {
      assert after[1..n] == [];
      assert before[1..n + 1] == [before[1]];
    } else {
      assert before[1..n + 1] == [before[1]] + before[2..n] + [before[n]];
      assert after[1..n] == [before[n]] + before[2..n];
    }
  }

  /** Heap order over slots 1..n depends on those slots only. */
  lemma SamePrefixOrdered(s: seq<int>, t: seq<int>, n: int)
    requires 0 <= n < |s| && n < |t| && s[1..n + 1] == t[1..n + 1] && ParentsOrdered(s, 1, n)
    ensures ParentsOrdered(t, 1, n)
  {
    forall k | 1 <= k <= n
      ensures s[k] == t[k]
    {
      assert s[k] == s[1..n + 1][k - 1];
    }
  }

  /**
   * Writing `x` into the first free slot n + 1 of a heap over slots 1..n adds `x` to its values,
   * and leaves every parent in order except with the new leaf.
   */
  lemma PlaceLeaf(s: seq<int>, n: int, x: int)
    requires 0 <= n && n + 1 < |s| && ParentsOrdered(s, 1, n)
    ensures var t := s[n + 1 := x];
            multiset(t[1..n + 2]) == multiset(s[1..n + 1]) + multiset{x} &&
            forall k :: 2 <= k <= n + 1 && k != n + 1 ==> t[Parent(k)] <= t[k]
  {
    var t := s[n + 1 := x];
    assert t[1..n + 2] == s[1..n + 1] + [x];
  }

  /**
   * A new heap has capacity 13, so its first twelve additions fit and the thirteenth, as
   * written, meets the failing resize: it reports ClassCast and the heap keeps its twelve values.
   */
  method ThirteenthAddFails() returns (r: Outcome, n: int)
    ensures r == Fail(ClassCast) && n == 12
  {
    var h := new MinHeap();
    var k := 0;
    while k < 12
      invariant 0 <= k <= 12
      invariant fresh(h) && fresh(h.backingArray)
      invariant h.Valid() && h.size == k && h.backingArray.Length == INITIAL_CAPACITY
    {
      var _ := h.Add(k);
      k := k + 1;
    }
    r := h.Add(12);
    n := h.size;
  }

  /** With the intended resize the thirteenth addition to a new heap doubles the array to 26. */
  method ThirteenthAddCorrectedGrows() returns (n: int, cap: int)
    ensures n == 13 && cap == 26
  {
    var h := new MinHeap();
    var k := 0;
    while k < 12
      invariant 0 <= k <= 12
      invariant fresh(h) && fresh(h.backingArray)
      invariant h.Valid() && h.size == k && h.backingArray.Length == INITIAL_CAPACITY
    {
      h.AddCorrected(k);
      k := k + 1;
    }
    h.AddCorrected(12);
    n, cap := h.size, h.backingArray.Length;
  }
}
