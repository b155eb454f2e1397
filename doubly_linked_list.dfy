/**
 * The doubly linked list of DoublyLinkedList.java: nodes with `next` and `previous` links, and
 * `head`, `tail` and `size` in the list object.  The ghost sequence `nodes` lists the nodes from
 * head to tail and `Contents` their elements.
 *
 * Two operations are modelled as written and beside a corrected version: `addAtIndex` links the
 * new node after the node at `index` (DoublyLinkedList.java:42-58), so the element lands at
 * `index + 1` and, at `index == size - 1`, `tail` is left on the old last node; `removeAtIndex`
 * casts the element returned by `removeFromFront`/`removeFromBack` to a node
 * (DoublyLinkedList.java:126, 128), which throws a ClassCastException after the removal.
 */
module LinkedList {
  import opened Wrappers
  import opened ListSpec

  class Node<T> {
    var data: T
    var next: Node?<T>
    var previous: Node?<T>

    constructor (d: T)
      ensures data == d && next == null && previous == null
    {
      data := d;
      next := null;
      previous := null;
    }
  }

  /** The index of the last occurrence of `x` in `s`, if any. */
  function LastIndexOf<T(==)>(s: seq<T>, x: T): (r: Option<int>)
    ensures r.None? <==> x !in s
    ensures r.Some? ==> 0 <= r.value < |s| && s[r.value] == x &&
                        forall k :: r.value < k < |s| ==> s[k] != x
  {
    if |s| == 0 then None
    else if s[|s| - 1] == x then Some(|s| - 1)
    else LastIndexOf(s[..|s| - 1], x)
  }

  class DoublyLinkedList<T(==)> {
    var head: Node?<T>
    var tail: Node?<T>
    var size: int
    ghost var nodes: seq<Node<T>>
    ghost var Contents: seq<T>
    ghost var Repr: set<object>

    /**
     * The links: distinct nodes, each linked to its neighbours, `head` first with no previous
     * node, the last node with no next one, and `size` counting them.
     */
    ghost predicate Linked()
      reads this, Repr
    {
      this in Repr && size == |nodes| == |Contents| &&
      (forall i :: 0 <= i < |nodes| ==> nodes[i] in Repr && nodes[i].data == Contents[i]) &&
      (forall i, j :: 0 <= i < j < |nodes| ==> nodes[i] != nodes[j]) &&
      (forall i :: 0 <= i < |nodes| - 1 ==> nodes[i].next == nodes[i + 1]) &&
      (forall i :: 1 <= i < |nodes| ==> nodes[i].previous == nodes[i - 1]) &&
      (|nodes| == 0 ==> head == null) &&
      (|nodes| > 0 ==> head == nodes[0] && nodes[0].previous == null && nodes[|nodes| - 1].next == null)
    }

    /** The list invariant: linked, with `tail` on the last node. */
    ghost predicate Valid()
      reads this, Repr
    {
      Linked() && (if |nodes| == 0 then tail == null else tail == nodes[|nodes| - 1])
    }

    /** What the links say about the node at `i`. */
    lemma NodeFacts(i: int)
      requires Linked() && 0 <= i < |nodes|
      ensures nodes[i] in Repr && nodes[i].data == Contents[i]
      ensures i + 1 < |nodes| ==> nodes[i].next == nodes[i + 1]
      ensures i + 1 == |nodes| ==> nodes[i].next == null
      ensures i > 0 ==> nodes[i].previous == nodes[i - 1]
      ensures i == 0 ==> nodes[i].previous == null && head == nodes[i]
    {
    }

    /** The list Java's implicit constructor makes: empty. */
    constructor ()
      ensures Valid() && fresh(Repr) && Contents == []
    {
      head := null;
      tail := null;
      size := 0;
      nodes := [];
      Contents := [];
      Repr := {this};
    }

    /** DoublyLinkedList.java:71-84: a new head node. */
    method AddToFront(data: T)
      requires Linked()
      modifies Repr
      ensures Linked() && fresh(Repr - old(Repr))
      ensures Contents == [data] + old(Contents)
      ensures old(size) > 0 ==> tail == old(tail)
      ensures old(size) == 0 || old(Valid()) ==> Valid()
    {
      var newNode := new Node(data);
      newNode.next := head;
      if size == 0 {
        tail := newNode;
      } else {
        head.previous := newNode;
      }
      head := newNode;
      size := size + 1;
      nodes := [newNode] + nodes;
      Contents := [data] + Contents;
      Repr := Repr + {newNode};
    }

    /** DoublyLinkedList.java:94-107: a new tail node. */
    method AddToBack(data: T)
      requires Valid()
      modifies Repr
      ensures Valid() && fresh(Repr - old(Repr))
      ensures Contents == old(Contents) + [data]
    {
      var newNode := new Node(data);
      newNode.previous := tail;
      if size == 0 {
        head := newNode;
      } else {
        tail.next := newNode;
      }
      tail := newNode;
      size := size + 1;
      nodes := nodes + [newNode];
      Contents := Contents + [data];
      Repr := Repr + {newNode};
    }

    /**
     * The traversal of DoublyLinkedList.java:42-52: from the head when `index` is in the first
     * half, from the tail otherwise.
     */
    method NodeAt(index: int) returns (node: Node<T>)
      requires Valid() && 0 <= index < size
      ensures node == nodes[index]
    {
      if index <= size / 2 {
        node := head;
        for i := 0 to index
          invariant node == nodes[i]
        {
          NodeFacts(i);
          node := node.next;
        }
      } else {
        node := tail;
        var i := size - 1;
        while i > index
          invariant index <= i < size && node == nodes[i]
        {
          NodeFacts(i);
          node := node.previous;
          i := i - 1;
        }
      }
    }

    /**
     * The linking of DoublyLinkedList.java:40 and 53-59: a new node holding `data` goes right
     * after `node`, the node at `k`.  The links always hold afterwards, but `tail` is not moved:
     * when `node` was the tail it stays on it.
     */
    method InsertAfter(ghost k: int, node: Node<T>, data: T)
      requires Valid() && 0 <= k < size && node == nodes[k]
      modifies Repr
      ensures Linked() && fresh(Repr - old(Repr))
      ensures Contents == InsertAt(old(Contents), k + 1, data)
      ensures tail == old(tail)
      ensures k < old(size) - 1 ==> Valid()
      ensures k == old(size) - 1 ==> tail == nodes[|nodes| - 2]
    {
      NodeFacts(k);
      if k + 1 < size {
        NodeFacts(k + 1);
      }
      ghost var ns0 := nodes;
      var newNode := new Node(data);
      Splice(ns0, Contents, k, node, newNode);
      RecordInsert(ns0, k, newNode);
    }

    /** The bookkeeping once `Splice` has put `newNode` after the node at `k` of `ns0`. */
    method RecordInsert(ghost ns0: seq<Node<T>>, ghost k: int, newNode: Node<T>)
      requires 0 <= k < |ns0| && nodes == ns0 && size == |ns0| == |Contents|
      requires this in Repr && newNode !in Repr && newNode !in ns0
      requires forall i :: 0 <= i < |ns0| ==> ns0[i] in Repr && ns0[i].data == Contents[i]
      requires forall i, j :: 0 <= i < j < |ns0| ==> ns0[i] != ns0[j]
      requires forall i :: 0 <= i < |ns0| - 1 && i != k ==> ns0[i].next == ns0[i + 1]
      requires forall i :: 1 <= i < |ns0| && i != k + 1 ==> ns0[i].previous == ns0[i - 1]
      requires ns0[k].next == newNode && newNode.previous == ns0[k]
      requires k + 1 < |ns0| ==> newNode.next == ns0[k + 1] && ns0[k + 1].previous == newNode
      requires k + 1 == |ns0| ==> newNode.next == null
      requires head == ns0[0] && ns0[0].previous == null && tail == ns0[|ns0| - 1]
      requires k + 1 < |ns0| ==> ns0[|ns0| - 1].next == null
      modifies this
      ensures nodes == InsertAt(ns0, k + 1, newNode) && Repr == old(Repr) + {newNode}
      ensures Contents == InsertAt(old(Contents), k + 1, newNode.data)
      ensures Linked() && tail == old(tail)
      ensures k + 1 < |ns0| ==> Valid()
      ensures k + 1 == |ns0| ==> tail == nodes[|nodes| - 2]
    {
      size := size + 1;
      nodes := InsertAt(nodes, k + 1, newNode);
      Contents := InsertAt(Contents, k + 1, newNode.data);
      Repr := Repr + {newNode};
      LinkedAfterInsert(ns0, old(Contents), k, newNode);
    }

    /** The links after `Splice` has put `newNode` after the node at `k` of `ns0`. */
    lemma LinkedAfterInsert(ns0: seq<Node<T>>, c0: seq<T>, k: int, newNode: Node<T>)
      requires 0 <= k < |ns0| == |c0| && this in Repr && newNode in Repr && newNode !in ns0
      requires size == |ns0| + 1 && nodes == InsertAt(ns0, k + 1, newNode)
      requires Contents == InsertAt(c0, k + 1, newNode.data)
      requires forall i :: 0 <= i < |ns0| ==> ns0[i] in Repr && ns0[i].data == c0[i]
      requires forall i, j :: 0 <= i < j < |ns0| ==> ns0[i] != ns0[j]
      requires forall i :: 0 <= i < |ns0| - 1 && i != k ==> ns0[i].next == ns0[i + 1]
      requires forall i :: 1 <= i < |ns0| && i != k + 1 ==> ns0[i].previous == ns0[i - 1]
      requires ns0[k].next == newNode && newNode.previous == ns0[k]
      requires k + 1 < |ns0| ==> newNode.next == ns0[k + 1] && ns0[k + 1].previous == newNode
      requires k + 1 == |ns0| ==> newNode.next == null
      requires head == ns0[0] && ns0[0].previous == null && tail == ns0[|ns0| - 1]
      requires k + 1 < |ns0| ==> ns0[|ns0| - 1].next == null
      ensures Linked()
      ensures k + 1 < |ns0| ==> Valid()
      ensures k + 1 == |ns0| ==> tail == nodes[|nodes| - 2]
    {
      InsertAtIs(nodes, ns0, k + 1, newNode);
      InsertAtIs(Contents, c0, k + 1, newNode.data);
      InsertDistinct(ns0, k + 1, newNode);
      forall i | 0 <= i < |nodes| - 1
        ensures nodes[i].next == nodes[i + 1]
      {
        if i != k && i != k + 1 {
          var i' := if i < k + 1 then i else i - 1;
          assert nodes[i] == ns0[i'];
        }
      }
      forall i | 1 <= i < |nodes|
        ensures nodes[i].previous == nodes[i - 1]
      {
        if i != k + 1 && i != k + 2 {
          var i' := if i < k + 1 then i else i - 1;
          assert nodes[i] == ns0[i'];
        }
      }
    }

    /**
     * DoublyLinkedList.java:28-61 as written: an IndexOutOfBoundsException outside 0..size;
     * index 0 and `size` add at the ends; any other index links the new node after the node at
     * `index`.  Below `size - 1` the element lands at `index + 1`; at `size - 1` it is appended
     * but `tail` stays on the old last node, so only the links hold.
     */
    method AddAtIndex(index: int, data: T) returns (r: Outcome)
      requires Valid()
      modifies Repr
      ensures fresh(Repr - old(Repr)) && Linked()
      ensures !(0 <= index <= old(size)) <==> r == Fail(IndexOutOfBounds)
      ensures r == Fail(IndexOutOfBounds) || r == Pass
      ensures r.Fail? ==> Valid() && Contents == old(Contents)
      ensures index == 0 || index == old(size) ==> Valid() && Contents == InsertAt(old(Contents), index, data)
      ensures 0 < index < old(size) - 1 ==> Valid() && Contents == InsertAt(old(Contents), index + 1, data)
      ensures 0 < index == old(size) - 1 ==>
                Contents == old(Contents) + [data] && tail == old(tail) == nodes[|nodes| - 2]
    {
      if index < 0 || index > size {
        return Fail(IndexOutOfBounds);
      }
      if index == 0 {
        AddToFront(data);
      } else if index == size {
        AddToBack(data);
      } else {
        var node := NodeAt(index);
        InsertAfter(index, node, data);
      }
      return Pass;
    }

    /** The insertion as intended: the new node is linked after the node at `index - 1`. */
    method AddAtIndexCorrected(index: int, data: T) returns (r: Outcome)
      requires Valid()
      modifies Repr
      ensures Valid() && fresh(Repr - old(Repr))
      ensures !(0 <= index <= old(size)) <==> r == Fail(IndexOutOfBounds)
      ensures r.Fail? ==> Contents == old(Contents)
      ensures 0 <= index <= old(size) ==> r == Pass && Contents == InsertAt(old(Contents), index, data)
    {
      if index < 0 || index > size {
        return Fail(IndexOutOfBounds);
      }
      if index == 0 {
        AddToFront(data);
      } else if index == size {
        AddToBack(data);
      } else {
        var node := NodeAt(index - 1);
        InsertAfter(index - 1, node, data);
      }
      return Pass;
    }

    /** Unlinks the node at `index`, which has a node on either side. */
    method Unlink(ghost index: int, node: Node<T>)
      requires Valid() && 0 < index < size - 1 && node == nodes[index]
      modifies Repr
      ensures Valid() && Repr == old(Repr) && node.data == old(node.data)
      ensures Contents == RemoveAt(old(Contents), index)
    {
      NodeFacts(index);
      NodeFacts(index - 1);
      NodeFacts(index + 1);
      ghost var ns0 := nodes;
      var before, after := node.previous, node.next;
      Bypass(ns0, Contents, index, before, after);
      RecordRemove(ns0, index);
    }

    /** The bookkeeping once `Bypass` has linked the neighbours of the node at `index` of `ns0`. */
    method RecordRemove(ghost ns0: seq<Node<T>>, ghost index: int)
      requires 0 < index < |ns0| - 1 && nodes == ns0 && size == |ns0| == |Contents|
      requires this in Repr
      requires forall i :: 0 <= i < |ns0| ==> ns0[i] in Repr && ns0[i].data == Contents[i]
      requires forall i, j :: 0 <= i < j < |ns0| ==> ns0[i] != ns0[j]
      requires forall i :: 0 <= i < |ns0| - 1 && i != index - 1 && i != index ==> ns0[i].next == ns0[i + 1]
      requires forall i :: 1 <= i < |ns0| && i != index && i != index + 1 ==> ns0[i].previous == ns0[i - 1]
      requires ns0[index - 1].next == ns0[index + 1] && ns0[index + 1].previous == ns0[index - 1]
      requires head == ns0[0] && ns0[0].previous == null
      requires tail == ns0[|ns0| - 1] && ns0[|ns0| - 1].next == null
      modifies this
      ensures Valid() && Repr == old(Repr)
      ensures nodes == RemoveAt(ns0, index) && Contents == RemoveAt(old(Contents), index)
    {
      size := size - 1;
      nodes := RemoveAt(nodes, index);
      Contents := RemoveAt(Contents, index);
      RemoveAtIs(nodes, ns0, index);
      RemoveAtIs(Contents, old(Contents), index);
      forall i | 0 <= i < |nodes| - 1
        ensures nodes[i].next == nodes[i + 1]
      {
        if i != index - 1 {
          var j := if i < index then i else i + 1;
          assert nodes[i] == ns0[j];
        }
      }
      forall i | 1 <= i < |nodes|
        ensures nodes[i].previous == nodes[i - 1]
      {
        if i != index {
          var j := if i < index then i else i + 1;
          assert nodes[i] == ns0[j];
        }
      }
    }

    /**
     * DoublyLinkedList.java:120-148 as written: an IndexOutOfBoundsException outside
     * 0..size-1; a ClassCastException at index 0 and `size - 1`, thrown after the end element
     * has been removed; otherwise the node at `index` is unlinked and its element returned.
     */
    method RemoveAtIndex(index: int) returns (r: Result<T>)
      requires Valid()
      modifies Repr
      ensures Valid() && Repr == old(Repr)
      ensures !(0 <= index < old(size)) ==> r == Err(IndexOutOfBounds) && Contents == old(Contents)
      ensures 0 <= index < old(size) ==> Contents == RemoveAt(old(Contents), index)
      ensures 0 <= index < old(size) && (index == 0 || index == old(size) - 1) ==> r == Err(ClassCast)
      ensures 0 < index < old(size) - 1 ==> r == Ok(old(Contents)[index])
    {
      if index < 0 || index >= size {
        return Err(IndexOutOfBounds);
      }
      if index == 0 {
        var removed := RemoveFromFront();
        return Err(ClassCast);
      } else if index == size - 1 {
        var removed := RemoveFromBack();
        return Err(ClassCast);
      }
      var node := NodeAt(index);
      Unlink(index, node);
      return Ok(node.data);
    }

    /** The removal as intended: the end cases return the removed element too. */
    method RemoveAtIndexCorrected(index: int) returns (r: Result<T>)
      requires Valid()
      modifies Repr
      ensures Valid() && Repr == old(Repr)
      ensures !(0 <= index < old(size)) ==> r == Err(IndexOutOfBounds) && Contents == old(Contents)
      ensures 0 <= index < old(size) ==>
                r == Ok(old(Contents)[index]) && Contents == RemoveAt(old(Contents), index)
    {
      if index < 0 || index >= size {
        return Err(IndexOutOfBounds);
      }
      if index == 0 {
        r := RemoveFromFront();
      } else if index == size - 1 {
        r := RemoveFromBack();
      } else {
        var node := NodeAt(index);
        Unlink(index, node);
        r := Ok(node.data);
      }
    }

    /**
     * DoublyLinkedList.java:158-172: a NoSuchElementException on the empty list; otherwise the
     * head's element is returned and its successor becomes the head.
     */
    method RemoveFromFront() returns (r: Result<T>)
      requires Valid()
      modifies Repr
      ensures Valid() && Repr == old(Repr)
      ensures old(size) == 0 ==> r == Err(NoSuchElement) && Contents == []
      ensures old(size) > 0 ==> r == Ok(old(Contents)[0]) && Contents == old(Contents)[1..]
      ensures old(size) == 1 ==> head == null && tail == null
    {
      if size == 0 {
        return Err(NoSuchElement);
      }
      var delete := head;
      NodeFacts(0);
      if size > 1 {
        NodeFacts(1);
      }
      if size == 1 {
        head := null;
        tail := null;
      } else {
        head := head.next;
        head.previous := null;
      }
      size := size - 1;
      nodes := nodes[1..];
      Contents := Contents[1..];
      return Ok(delete.data);
    }

    /**
     * DoublyLinkedList.java:182-196: a NoSuchElementException on the empty list; otherwise the
     * tail's element is returned and its predecessor becomes the tail.
     */
    method RemoveFromBack() returns (r: Result<T>)
      requires Valid()
      modifies Repr
      ensures Valid() && Repr == old(Repr)
      ensures old(size) == 0 ==> r == Err(NoSuchElement) && Contents == []
      ensures old(size) > 0 ==>
                r == Ok(old(Contents)[old(size) - 1]) && Contents == old(Contents)[..old(size) - 1]
      ensures old(size) == 1 ==> head == null && tail == null
    {
      if size == 0 {
        return Err(NoSuchElement);
      }
      var delete := tail;
      NodeFacts(size - 1);
      if size > 1 {
        NodeFacts(size - 2);
      }
      if size == 1 {
        head := null;
        tail := null;
      } else {
        tail := tail.previous;
        tail.next := null;
      }
      size := size - 1;
      nodes := nodes[..|nodes| - 1];
      Contents := Contents[..|Contents| - 1];
      return Ok(delete.data);
    }

    /** DoublyLinkedList.java:208-231: the element at `index`, or an IndexOutOfBoundsException. */
    method Get(index: int) returns (r: Result<T>)
      requires Valid()
      ensures !(0 <= index < size) ==> r == Err(IndexOutOfBounds)
      ensures 0 <= index < size ==> r == Ok(Contents[index])
    {
      if index < 0 || index >= size {
        return Err(IndexOutOfBounds);
      }
      var get: Node<T>;
      if index == 0 {
        get := head;
      } else if index == size - 1 {
        get := tail;
      } else {
        get := NodeAt(index);
      }
      return Ok(get.data);
    }

    /** DoublyLinkedList.java:240-242. */
    method IsEmpty() returns (b: bool)
      requires Linked()
      ensures b <==> Contents == []
    {
      return size == 0;
    }

    /** DoublyLinkedList.java:251-255. */
    method Clear()
      modifies this
      ensures Valid() && Contents == [] && head == null && tail == null
      ensures Repr == {this}
    {
      head := null;
      tail := null;
      size := 0;
      nodes := [];
      Contents := [];
      Repr := {this};
    }

    /**
     * DoublyLinkedList.java:270-291: walking back from the tail, removes the first node whose
     * element equals `data` and returns that element; a NoSuchElementException when none does.
     */
    method RemoveLastOccurrence(data: T) returns (r: Result<T>)
      requires Valid()
      modifies Repr
      ensures Valid() && Repr == old(Repr)
      ensures LastIndexOf(old(Contents), data).None? ==> r == Err(NoSuchElement) && Contents == old(Contents)
      ensures LastIndexOf(old(Contents), data).Some? ==>
                r == Ok(data) && Contents == RemoveAt(old(Contents), LastIndexOf(old(Contents), data).value)
    {
      var node := tail;
      ghost var i := size - 1;
      while node != null
        invariant -1 <= i < size && (i >= 0 ==> node == nodes[i]) && (i < 0 ==> node == null)
        invariant forall k :: i < k < size ==> Contents[k] != data
        decreases i
      {
        if node.data == data {
          LastIndexAt(Contents, data, i);
          if node == head {
            r := RemoveFromFront();
            return;
          } else if node == tail {
            r := RemoveFromBack();
            return;
          } else {
            Unlink(i, node);
            return Ok(node.data);
          }
        }
        node := node.previous;
        i := i - 1;
      }
      LastIndexNone(Contents, data);
      return Err(NoSuchElement);
    }

    /** DoublyLinkedList.java:302-314: the elements from head to tail in a new array. */
    method ToArray() returns (arr: array<Option<T>>)
      requires Valid()
      ensures fresh(arr) && arr.Length == size
      ensures forall k :: 0 <= k < size ==> arr[k] == Some(Contents[k])
    {
      arr := new Option<T>[size](_ => None);
      var node := head;
      if size == 0 {
        return;
      }
      for i := 0 to size
        invariant i < size ==> node == nodes[i]
        invariant forall k :: 0 <= k < i ==> arr[k] == Some(Contents[k])
      {
        arr[i] := Some(node.data);
        node := node.next;
      }
    }
  }

  /**
   * The two link updates of DoublyLinkedList.java:143-144 and 283-284: the node between `before` and
   * `after`, at `index` in the chain `ns0` holding `cs`, is bypassed.  No other link and no
   * element changes.
   */
  method Bypass<T>(ghost ns0: seq<Node<T>>, ghost cs: seq<T>, ghost index: int, before: Node<T>, after: Node<T>)
    requires 0 < index < |ns0| - 1 == |cs| - 1 && before == ns0[index - 1] && after == ns0[index + 1]
    requires forall i, j :: 0 <= i < j < |ns0| ==> ns0[i] != ns0[j]
    requires forall i :: 0 <= i < |ns0| ==> ns0[i].data == cs[i]
    requires forall i :: 0 <= i < |ns0| - 1 ==> ns0[i].next == ns0[i + 1]
    requires forall i :: 1 <= i < |ns0| ==> ns0[i].previous == ns0[i - 1]
    requires ns0[0].previous == null && ns0[|ns0| - 1].next == null
    modifies before, after
    ensures forall i :: 0 <= i < |ns0| ==> ns0[i].data == cs[i]
    ensures forall i :: 0 <= i < |ns0| - 1 && i != index - 1 && i != index ==> ns0[i].next == ns0[i + 1]
    ensures forall i :: 1 <= i < |ns0| && i != index && i != index + 1 ==> ns0[i].previous == ns0[i - 1]
    ensures before.next == after && after.previous == before
    ensures ns0[0].previous == null && ns0[|ns0| - 1].next == null
  {
    before.next := after;
    after.previous := before;
  }

  /**
   * The four link updates of DoublyLinkedList.java:53-58: `newNode` goes between `node`, at `k`
   * in the chain `ns0` holding `cs`, and its successor, if any.  No other link and no element
   * changes.
   */
  method Splice<T>(ghost ns0: seq<Node<T>>, ghost cs: seq<T>, ghost k: int, node: Node<T>, newNode: Node<T>)
    requires 0 <= k < |ns0| == |cs| && node == ns0[k] && newNode !in ns0
    requires forall i, j :: 0 <= i < j < |ns0| ==> ns0[i] != ns0[j]
    requires forall i :: 0 <= i < |ns0| ==> ns0[i].data == cs[i]
    requires forall i :: 0 <= i < |ns0| - 1 ==> ns0[i].next == ns0[i + 1]
    requires forall i :: 1 <= i < |ns0| ==> ns0[i].previous == ns0[i - 1]
    requires ns0[0].previous == null && ns0[|ns0| - 1].next == null
    modifies node, newNode, node.next
    ensures forall i :: 0 <= i < |ns0| ==> ns0[i].data == cs[i]
    ensures forall i :: 0 <= i < |ns0| - 1 && i != k ==> ns0[i].next == ns0[i + 1]
    ensures forall i :: 1 <= i < |ns0| && i != k + 1 ==> ns0[i].previous == ns0[i - 1]
    ensures ns0[0].previous == null
    ensures k + 1 < |ns0| ==> ns0[|ns0| - 1].next == null
    ensures node.next == newNode && newNode.previous == node && newNode.data == old(newNode.data)
    ensures k + 1 < |ns0| ==> newNode.next == ns0[k + 1] && ns0[k + 1].previous == newNode
    ensures k + 1 == |ns0| ==> newNode.next == null
  {
    if node.next != null {
      newNode.next := node.next;
      node.next.previous := newNode;
    } else {
      newNode.next := null;
    }
    node.next := newNode;
    newNode.previous := node;
  }

  /** An occurrence with none after it is the last one. */
  lemma LastIndexAt<T>(s: seq<T>, x: T, i: int)
    requires 0 <= i < |s| && s[i] == x && forall k :: i < k < |s| ==> s[k] != x
    ensures LastIndexOf(s, x) == Some(i)
  {
    var r := LastIndexOf(s, x);
    assert r.Some?;
  }

  lemma LastIndexNone<T>(s: seq<T>, x: T)
    requires forall k :: 0 <= k < |s| ==> s[k] != x
    ensures LastIndexOf(s, x) == None
  {
  }

  /** A new list holding 1, 2, 3. */
  method OneTwoThree() returns (l: DoublyLinkedList<int>)
    ensures fresh(l) && fresh(l.Repr) && l.Valid() && l.Contents == [1, 2, 3]
  {
    l := new DoublyLinkedList<int>();
    l.AddToBack(1);
    l.AddToBack(2);
    l.AddToBack(3);
  }

  /** The elements of `l` as a sequence, through `ToArray`. */
  method Elements(l: DoublyLinkedList<int>) returns (s: seq<Option<int>>)
    requires l.Valid()
    ensures |s| == |l.Contents| && forall k :: 0 <= k < |s| ==> s[k] == Some(l.Contents[k])
  {
    var arr := l.ToArray();
    s := arr[..];
  }

  /** DoublyLinkedList.java:28-61: on [1, 2, 3], `addAtIndex(1, 9)` as written gives [1, 2, 9, 3]. */
  method AddAtIndexLandsAfter() returns (s: seq<Option<int>>)
    ensures s == [Some(1), Some(2), Some(9), Some(3)]
  {
    var l := OneTwoThree();
    var r := l.AddAtIndex(1, 9);
    assert l.Contents == [1, 2, 9, 3];
    s := Elements(l);
  }

  /** The corrected insertion gives [1, 9, 2, 3] on the same input. */
  method AddAtIndexCorrectedLandsAt() returns (s: seq<Option<int>>)
    ensures s == [Some(1), Some(9), Some(2), Some(3)]
  {
    var l := OneTwoThree();
    var r := l.AddAtIndexCorrected(1, 9);
    assert l.Contents == [1, 9, 2, 3];
    s := Elements(l);
  }
}
