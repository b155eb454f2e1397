/**
 * The dynamic array of ArrayList.java: a backing array whose first `size` slots hold the
 * elements, front to back, and whose other slots are null (`None`).  A full array is replaced
 * by one of twice the length before an element is added.
 *
 * The shifting loops of `addAtIndex` and `addToFront` (ArrayList.java:60-62, 85-87) start at
 * `i = size` and so write `backingArray[size + 1]`; with exactly one free slot left that write is
 * out of bounds.  `AddAtIndex` and `AddToFront` model the code as written, with the
 * ArrayIndexOutOfBoundsException as `Fail(IndexOutOfBounds)`; `AddAtIndexCorrected` and
 * `AddToFrontCorrected` start the shift at `size - 1`.
 */
module DynamicArray {
  import opened Wrappers
  import opened ListSpec

  /** ArrayList.java:16. */
  const INITIAL_CAPACITY: int := 9

  /** The slots below `n` are occupied and every later slot is null. */
  ghost predicate Packed<T>(s: seq<Option<T>>, n: int)
  {
    0 <= n <= |s| && (forall k :: 0 <= k < n ==> s[k].Some?) && forall k :: n <= k < |s| ==> s[k] == None
  }

  class ArrayList<T> {
    var backingArray: array<Option<T>>
    var size: int

    ghost predicate Valid()
      reads this, backingArray
    {
      INITIAL_CAPACITY <= backingArray.Length && Packed(backingArray[..], size)
    }

    /** The elements, front to back. */
    function Contents(): seq<Option<T>>
      reads this, backingArray
      requires 0 <= size <= backingArray.Length
    {
      backingArray[..size]
    }

    /** ArrayList.java:28-31: an empty list over an array of the initial capacity. */
    constructor ()
      ensures Valid() && fresh(backingArray)
      ensures Contents() == [] && backingArray.Length == INITIAL_CAPACITY
    {
      backingArray := new Option<T>[INITIAL_CAPACITY](_ => None);
      size := 0;
    }

    /**
     * ArrayList.java:45-66 as written: an IndexOutOfBoundsException outside 0..size; after
     * doubling a full array, index 0 goes to `AddToFront`, index `size` to `AddToBack`, and any
     * other index shifts from slot `size` upward, which overruns an array with one free slot.
     */
    method AddAtIndex(index: int, data: T) returns (r: Outcome)
      requires Valid()
      modifies this, backingArray
      ensures Valid()
      ensures r == Pass <==>
                0 <= index <= old(size) && !(index < old(size) && old(size) + 1 == old(backingArray.Length))
      ensures r.Fail? ==> r.error == IndexOutOfBounds && Contents() == old(Contents())
      ensures r == Pass ==> Contents() == InsertAt(old(Contents()), index, Some(data))
      ensures r == Pass && old(size) == old(backingArray.Length) ==>
                fresh(backingArray) && backingArray.Length == 2 * old(backingArray.Length)
      ensures r.Fail? || old(size) < old(backingArray.Length) ==> backingArray == old(backingArray)
    {
      if index < 0 || index > size {
        return Fail(IndexOutOfBounds);
      }
      if size == backingArray.Length {
        Resize();
      }
      if index == 0 {
        r := AddToFront(data);
      } else if index == size {
        AddToBack(data);
        r := Pass;
      } else {
        r := ShiftInAsWritten(index, data);
      }
    }

    /** The same insertion with the shift starting at the last element. */
    method AddAtIndexCorrected(index: int, data: T) returns (r: Outcome)
      requires Valid()
      modifies this, backingArray
      ensures Valid()
      ensures r == Pass <==> 0 <= index <= old(size)
      ensures r.Fail? ==> r.error == IndexOutOfBounds && Contents() == old(Contents())
      ensures r == Pass ==> Contents() == InsertAt(old(Contents()), index, Some(data))
      ensures r == Pass && old(size) == old(backingArray.Length) ==>
                fresh(backingArray) && backingArray.Length == 2 * old(backingArray.Length)
      ensures r.Fail? || old(size) < old(backingArray.Length) ==> backingArray == old(backingArray)
    {
      if index < 0 || index > size {
        return Fail(IndexOutOfBounds);
      }
      if size == backingArray.Length {
        Resize();
      }
      if index == 0 {
        AddToFrontCorrected(data);
      } else if index == size {
        AddToBack(data);
      } else {
        ShiftIn(index, data);
      }
      r := Pass;
    }

    /**
     * ArrayList.java:78-90 as written: after doubling a full array, shifts every element up
     * starting from slot `size`, then stores `data` at index 0.  With exactly one free slot the
     * first write is out of bounds and nothing changes.
     */
    method AddToFront(data: T) returns (r: Outcome)
      requires Valid()
      modifies this, backingArray
      ensures Valid()
      ensures r == Pass <==> old(size) + 1 != old(backingArray.Length)
      ensures r.Fail? ==> r.error == IndexOutOfBounds && Contents() == old(Contents())
      ensures r == Pass ==> Contents() == [Some(data)] + old(Contents())
      ensures old(size) == old(backingArray.Length) ==>
                fresh(backingArray) && backingArray.Length == 2 * old(backingArray.Length)
      ensures old(size) < old(backingArray.Length) ==> backingArray == old(backingArray)
    {
      if size == backingArray.Length {
        Resize();
      }
      r := ShiftInAsWritten(0, data);
    }

    /** The same insertion with the shift starting at the last element. */
    method AddToFrontCorrected(data: T)
      requires Valid()
      modifies this, backingArray
      ensures Valid()
      ensures Contents() == [Some(data)] + old(Contents())
      ensures old(size) == old(backingArray.Length) ==>
                fresh(backingArray) && backingArray.Length == 2 * old(backingArray.Length)
      ensures old(size) < old(backingArray.Length) ==> backingArray == old(backingArray)
    {
      if size == backingArray.Length {
        Resize();
      }
      ShiftIn(0, data);
    }

    /**
     * ArrayList.java:60-64 and 85-89 as written, on an array with a free slot: the elements from
     * `index` on move up one slot, starting from slot `size`, and `data` goes into slot `index`.
     * The shift overruns the array, and nothing changes, when exactly one slot is free.
     */
    method ShiftInAsWritten(index: int, data: T) returns (r: Outcome)
      requires Valid() && 0 <= index <= size < backingArray.Length
      modifies this, backingArray
      ensures Valid() && backingArray == old(backingArray)
      ensures r == Pass <==> old(size) + 1 < backingArray.Length
      ensures r.Fail? ==> r.error == IndexOutOfBounds && Contents() == old(Contents())
      ensures r == Pass ==> Contents() == InsertAt(old(Contents()), index, Some(data))
    {
      ghost var s0 := Contents();
      var ok := ShiftUpAsWritten(backingArray, size, index);
      if !ok {
        assert backingArray[..size] == s0;
        return Fail(IndexOutOfBounds);
      }
      backingArray[index] := Some(data);
      size := size + 1;
      InsertAtIs(Contents(), s0, index, Some(data));
      return Pass;
    }

    /** The same step with the shift starting at the last element. */
    method ShiftIn(index: int, data: T)
      requires Valid() && 0 <= index <= size < backingArray.Length
      modifies this, backingArray
      ensures Valid() && backingArray == old(backingArray)
      ensures Contents() == InsertAt(old(Contents()), index, Some(data))
    {
      ghost var s0 := Contents();
      ShiftUp(backingArray, size, index);
      backingArray[index] := Some(data);
      size := size + 1;
      InsertAtIs(Contents(), s0, index, Some(data));
    }

    /** ArrayList.java:100-109: after doubling a full array, stores `data` in slot `size`. */
    method AddToBack(data: T)
      requires Valid()
      modifies this, backingArray
      ensures Valid()
      ensures Contents() == old(Contents()) + [Some(data)]
      ensures old(size) == old(backingArray.Length) ==>
                fresh(backingArray) && backingArray.Length == 2 * old(backingArray.Length)
      ensures old(size) < old(backingArray.Length) ==> backingArray == old(backingArray)
    {
      if size == backingArray.Length {
        Resize();
      }
      backingArray[size] := Some(data);
      size := size + 1;
    }

    /**
     * ArrayList.java:122-141: an IndexOutOfBoundsException outside 0..size-1; otherwise the
     * element at `index` is returned, the later ones move down one slot and the last occupied
     * slot is nulled.
     */
    method RemoveAtIndex(index: int) returns (r: Result<T>)
      requires Valid()
      modifies this, backingArray
      ensures Valid() && backingArray == old(backingArray)
      ensures !(0 <= index < old(size)) ==> r == Err(IndexOutOfBounds) && Contents() == old(Contents())
      ensures 0 <= index < old(size) ==>
                r.Ok? && Some(r.value) == old(Contents())[index] &&
                Contents() == RemoveAt(old(Contents()), index)
    {
      if index < 0 || index >= size {
        return Err(IndexOutOfBounds);
      }
      var removed := backingArray[index].value;
      if index == 0 {
        var front := RemoveFromFront();
      } else if index == size - 1 {
        var back := RemoveFromBack();
      } else {
        ghost var s0 := Contents();
        ShiftDown(backingArray, size, index);
        backingArray[size - 1] := None;
        size := size - 1;
        RemoveAtIs(Contents(), s0, index);
      }
      return Ok(removed);
    }

    /**
     * ArrayList.java:153-166: a NoSuchElementException on the empty list; otherwise the first
     * element is returned, the rest move down one slot and the vacated slot is nulled.
     */
    method RemoveFromFront() returns (r: Result<T>)
      requires Valid()
      modifies this, backingArray
      ensures Valid() && backingArray == old(backingArray)
      ensures old(size) == 0 ==> r == Err(NoSuchElement) && size == 0
      ensures old(size) > 0 ==>
                r.Ok? && Some(r.value) == old(Contents())[0] && Contents() == old(Contents())[1..]
    {
      if size == 0 {
        return Err(NoSuchElement);
      }
      var removed := backingArray[0].value;
      ghost var s0 := Contents();
      ShiftDown(backingArray, size, 0);
      backingArray[size - 1] := None;
      size := size - 1;
      RemoveAtIs(Contents(), s0, 0);
      return Ok(removed);
    }

    /**
     * ArrayList.java:176-184: a NoSuchElementException on the empty list; otherwise the last
     * element is returned and its slot nulled.
     */
    method RemoveFromBack() returns (r: Result<T>)
      requires Valid()
      modifies this, backingArray
      ensures Valid() && backingArray == old(backingArray)
      ensures old(size) == 0 ==> r == Err(NoSuchElement) && size == 0
      ensures old(size) > 0 ==>
                r.Ok? && Some(r.value) == old(Contents())[old(size) - 1] &&
                Contents() == old(Contents())[..old(size) - 1]
    {
      if size == 0 {
        return Err(NoSuchElement);
      }
      var removed := backingArray[size - 1].value;
      backingArray[size - 1] := None;
      size := size - 1;
      return Ok(removed);
    }

    /** ArrayList.java:195-200: the element at `index`, or an IndexOutOfBoundsException. */
    method Get(index: int) returns (r: Result<T>)
      requires Valid()
      ensures !(0 <= index < size) <==> r == Err(IndexOutOfBounds)
      ensures 0 <= index < size ==> r.Ok? && Contents()[index] == Some(r.value)
    {
      if index < 0 || index >= size {
        return Err(IndexOutOfBounds);
      }
      return Ok(backingArray[index].value);
    }

    /** ArrayList.java:225-228: a fresh array of the initial capacity and no elements. */
    method Clear()
      modifies this
      ensures Valid() && fresh(backingArray)
      ensures Contents() == [] && backingArray.Length == INITIAL_CAPACITY
    {
      backingArray := new Option<T>[INITIAL_CAPACITY](_ => None);
      size := 0;
    }

    /** ArrayList.java:233-242: an array of twice the length holding the same elements. */
    method Resize()
      requires Valid()
      modifies this
      ensures Valid() && fresh(backingArray)
      ensures backingArray.Length == 2 * old(backingArray.Length)
      ensures size == old(size) && Contents() == old(Contents())
    {
      var newArr := new Option<T>[backingArray.Length * 2](_ => None);
      for i := 0 to size
        modifies newArr
        invariant forall j :: 0 <= j < i ==> newArr[j] == backingArray[j]
        invariant forall j :: i <= j < newArr.Length ==> newArr[j] == None
      {
        newArr[i] := backingArray[i];
      }
      assert newArr[..size] == backingArray[..size];
      backingArray := newArr;
    }

    /**
     * The shifting loop of ArrayList.java:60-62 and 85-87 as written: from `i = n` down to
     * `index`, slot `i + 1` takes slot `i`.  It succeeds exactly when slot `n + 1` exists, and
     * then every element from `index` on has moved up one slot; on failure nothing changed.
     */
    static method ShiftUpAsWritten(a: array<Option<T>>, n: int, index: int) returns (ok: bool)
      requires 0 <= index <= n < a.Length
      modifies a
      ensures ok <==> n + 1 < a.Length
      ensures !ok ==> a[..] == old(a[..])
      ensures ok ==> forall k :: 0 <= k < a.Length ==>
                       a[k] == if index < k <= n + 1 then old(a[k - 1]) else old(a[k])
    {
      var i := n;
      while i >= index
        invariant index - 1 <= i <= n
        invariant i < n ==> n + 1 < a.Length
        invariant forall k :: 0 <= k < a.Length ==>
                    a[k] == if i + 1 < k <= n + 1 then old(a[k - 1]) else old(a[k])
      {
        if i + 1 >= a.Length {
          assert a[..] == old(a[..]);
          return false;
        }
        a[i + 1] := a[i];
        i := i - 1;
      }
      return n + 1 < a.Length;
    }

    /** The corrected shift: from the last element `n - 1` down to `index`, one slot up. */
    static method ShiftUp(a: array<Option<T>>, n: int, index: int)
      requires 0 <= index <= n < a.Length
      modifies a
      ensures forall k :: 0 <= k < a.Length ==>
                a[k] == if index < k <= n then old(a[k - 1]) else old(a[k])
    {
      var i := n - 1;
      while i >= index
        invariant index - 1 <= i <= n - 1
        invariant forall k :: 0 <= k < a.Length ==>
                    a[k] == if i + 1 < k <= n then old(a[k - 1]) else old(a[k])
      {
        a[i + 1] := a[i];
        i := i - 1;
      }
    }

    /**
     * The shifting loops of ArrayList.java:134-136 and 159-161: every element after `index`
     * moves down one slot.
     */
    static method ShiftDown(a: array<Option<T>>, n: int, index: int)
      requires 0 <= index < n <= a.Length
      modifies a
      ensures forall k :: 0 <= k < a.Length ==>
                a[k] == if index <= k < n - 1 then old(a[k + 1]) else old(a[k])
    {
      for i := index to n - 1
        invariant forall k :: 0 <= k < a.Length ==>
                    a[k] == if index <= k < i then old(a[k + 1]) else old(a[k])
      {
        a[i] := a[i + 1];
      }
    }
  }

  /**
   * A list of eight elements in the initial array of nine slots: `AddToFront` as written fails,
   * where the corrected version stores the element in front.
   */
  method OneFreeSlot() returns (asWritten: Outcome, corrected: seq<Option<int>>)
    ensures asWritten == Fail(IndexOutOfBounds)
    ensures corrected == [Some(42), Some(0), Some(1), Some(2), Some(3), Some(4), Some(5), Some(6), Some(7)]
  {
    var list := new ArrayList<int>();
    for k := 0 to 8
      invariant list.Valid() && fresh(list.backingArray)
      invariant list.backingArray.Length == INITIAL_CAPACITY
      invariant list.Contents() == seq(k, j => Some(j))
    {
      list.AddToBack(k);
    }
    asWritten := list.AddToFront(42);
    list.AddToFrontCorrected(42);
    corrected := list.Contents();
  }
}
