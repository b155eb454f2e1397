/**
 * The AVL class (AVL.java): a root and a count.  The class invariant `Valid` says the root is
 * a valid AVL tree (search order, correct cached heights, balance factors in {-1, 0, 1}) and
 * `size` is the number of its nodes.  The addition as written keeps only `Sound` (search order
 * and the count), which is all the searches and `size` need.
 */
module Avl {
  import opened Wrappers
  import opened AvlTree
  import opened AvlInsert
  import opened AvlDelete
  import opened AvlQueries

  class AVL {
    var root: Tree
    var size: int

    ghost predicate Valid()
      reads this
    {
      AvlTree.Valid(root) && size == NodeCount(root)
    }

    /** AVL.java:25-27: the empty tree. */
    constructor ()
      ensures Valid() && root == Nil && size == 0
    {
      root := Nil;
      size := 0;
    }

    /**
     * The weaker state the insertion as written keeps: the values in search order and `size`
     * their number, but not necessarily correct cached heights or balance.
     */
    ghost predicate Sound()
      reads this
    {
      Ordered(root) && size == NodeCount(root)
    }

    /**
     * AVL.java:40-48: a new tree holding the values of the collection, added in their order by
     * `add` as written.  An exception from one of them escapes the constructor, so no tree
     * results.
     */
    static method FromCollection(data: seq<int>) returns (r: Result<AVL>)
      ensures r.Ok? <==> InsertAllAsWritten(Nil, data).Some?
      ensures r.Err? ==> r.error == NullPointer
      ensures r.Ok? ==> fresh(r.value) && r.value.Sound() && InsertAllAsWritten(Nil, data) == Some(r.value.root)
      ensures r.Ok? ==> Elements(r.value.root) == set x | x in data
    {
      var t := new AVL();
      for i := 0 to |data|
        invariant fresh(t) && t.Sound()
        invariant InsertAllAsWritten(Nil, data[..i]) == Some(t.root)
        invariant Elements(t.root) == set x | x in data[..i]
      {
        AsWrittenPrefix(data, i, t.root);
        assert data[..i + 1] == data[..i] + [data[i]];
        var o := t.Add(data[i]);
        if o.Fail? {
          AsWrittenFailureEnds(data, i);
          return Err(o.error);
        }
      }
      assert data[..|data|] == data;
      return Ok(t);
    }

    /**
     * AVL.java:68-73 with the insertion as written.  The left-heavy branch of AVL.java:100-102
     * can dereference a missing node, which is `Fail(NullPointer)`; by then the count has grown
     * and the failing node holds its new child, so `root` is the tree the exception left.
     * Either way the values are the old ones and `x`, in search order.
     */
    method Add(x: int) returns (r: Outcome)
      requires Sound()
      modifies this
      ensures Sound()
      ensures r.Pass? <==> InsertAsWritten(old(root), x).Some?
      ensures r.Pass? ==> root == InsertAsWritten(old(root), x).value
      ensures r.Fail? ==> r.error == NullPointer
      ensures root == InsertAttempt(old(root), x).tree
      ensures Elements(root) == old(Elements(root)) + {x}
      ensures size == old(size) + (if x in old(Elements(root)) then 0 else 1)
      ensures old(Valid()) && x in old(Elements(root)) ==> r == Pass && root == old(root)
    {
      ghost var before := root;
      AttemptIsAsWritten(before, x);
      AttemptKeepsValues(before, x);
      if Valid() && x in Elements(root) {
        AttemptPresentIsIdentity(root, x);
      }
      var a := InsertNode(root, x);
      root := a.tree;
      NodeCountIsSize(before);
      NodeCountIsSize(root);
      if a.Threw? {
        return Fail(NullPointer);
      }
      return Pass;
    }

    /**
     * AVL.java:81-113 as written: the recursive insertion, where the count grows as the new
     * leaf is made.  An exception passes up through the callers without their taking the new
     * child, which `Threw` records.
     */
    method InsertNode(node: Tree, x: int) returns (r: Attempt)
      requires Ordered(node)
      modifies this`size
      ensures r == InsertAttempt(node, x)
      ensures size == old(size) + (if x in Elements(node) then 0 else 1)
      decreases node
    {
      if node.Nil? {
        size := size + 1;
        return Done(Leaf(x));
      }
      SearchSide(node, x);
      if x < node.data {
        var l := InsertNode(node.left, x);
        if l.Threw? {
          return Threw(Node(node.data, l.tree, node.right, node.height));
        }
        r := StepAsWritten(node.data, l.tree, node.right, x);
      } else if x > node.data {
        var rt := InsertNode(node.right, x);
        if rt.Threw? {
          return Threw(Node(node.data, node.left, rt.tree, node.height));
        }
        r := StepAsWritten(node.data, node.left, rt.tree, x);
      } else {
        r := StepAsWritten(node.data, node.left, node.right, x);
      }
    }

    /** AVL.java:40-48 with the intended insertion: adds the values of the collection in their order. */
    constructor FromCollectionCorrected(data: seq<int>)
      ensures Valid()
      ensures root == InsertAll(Nil, data)
      ensures Elements(root) == set x | x in data
    {
      root := Nil;
      size := 0;
      new;
      for i := 0 to |data|
        invariant Valid()
        invariant root == InsertAll(Nil, data[..i])
      {
        InsertAllPrefix(data, i);
        AddCorrected(data[i]);
      }
      assert data[..|data|] == data;
    }

    /**
     * AVL.java:68-73 with the intended insertion: adds `x` unless it is present; the count
     * grows by one exactly when `x` was absent.
     */
    method AddCorrected(x: int)
      requires Valid()
      modifies this
      ensures Valid()
      ensures root == Insert(old(root), x)
      ensures Elements(root) == old(Elements(root)) + {x}
      ensures size == old(size) + (if x in old(Elements(root)) then 0 else 1)
    {
      ghost var before := root;
      root := InsertNodeCorrected(root, x);
      NodeCountIsSize(before);
      NodeCountIsSize(root);
      assert x in Elements(before) ==> Elements(root) == Elements(before);
      assert x !in Elements(before) ==> |Elements(root)| == |Elements(before)| + 1;
    }

    /**
     * AVL.java:81-113 with the intended double rotation in the left-right case; the count grows
     * where a new leaf is made.
     */
    method InsertNodeCorrected(node: Tree, x: int) returns (r: Tree)
      requires AvlTree.Valid(node)
      modifies this`size
      ensures r == Insert(node, x)
      ensures size == old(size) + (if x in Elements(node) then 0 else 1)
      decreases node
    {
      if node.Nil? {
        size := size + 1;
        return Leaf(x);
      }
      SearchSide(node, x);
      if x < node.data {
        InsertStepLeft(node, x);
        var l := InsertNodeCorrected(node.left, x);
        r := RebalanceAfterInsert(node.data, l, node.right, x);
      } else if x > node.data {
        InsertStepRight(node, x);
        var rt := InsertNodeCorrected(node.right, x);
        r := RebalanceAfterInsert(node.data, node.left, rt, x);
      } else {
        InsertStepHere(node, x);
        r := RebalanceAfterInsert(node.data, node.left, node.right, x);
      }
    }

    /**
     * AVL.java:142-153: an absent value is a NoSuchElementException and leaves the tree
     * alone; otherwise it is deleted, the count drops by one and the value is returned.
     */
    method Remove(x: int) returns (r: Result<int>)
      requires Valid()
      modifies this
      ensures Valid()
      ensures x !in old(Elements(root)) ==> r == Err(NoSuchElement) && root == old(root) && size == old(size)
      ensures x in old(Elements(root)) ==>
                r == Ok(x) && root == Delete(old(root), x) &&
                Elements(root) == old(Elements(root)) - {x} && size == old(size) - 1
    {
      var present := Contains(x);
      if !present {
        return Err(NoSuchElement);
      }
      ghost var before := root;
      root := Delete(root, x);
      size := size - 1;
      NodeCountIsSize(before);
      NodeCountIsSize(root);
      return Ok(x);
    }

    /** AVL.java:231-241: the stored value equal to `x`, or a NoSuchElementException. */
    method Get(x: int) returns (r: Result<int>)
      requires Sound()
      ensures x in Elements(root) ==> r == Ok(x)
      ensures x !in Elements(root) ==> r == Err(NoSuchElement)
    {
      var node := Search(root, x);
      if node.Some? {
        return Ok(node.value);
      }
      return Err(NoSuchElement);
    }

    /** AVL.java:274-281: whether `x` is stored. */
    method Contains(x: int) returns (b: bool)
      requires Sound()
      ensures b <==> x in Elements(root)
    {
      var r := Get(x);
      return r.Ok?;
    }

    /**
     * AVL.java:290-292 as written: the cached height of the root, which dereferences a null
     * root on the empty tree.
     */
    method Height() returns (r: Result<int>)
      requires Valid()
      ensures root.Nil? ==> r == Err(NullPointer)
      ensures root.Node? ==> r == Ok(RealHeight(root))
    {
      if root.Nil? {
        return Err(NullPointer);
      }
      CachedHeightIsReal(root);
      return Ok(root.height);
    }

    /** AVL.java:285-289 as documented: the height of the root, -1 for the empty tree. */
    method HeightCorrected() returns (h: int)
      requires Valid()
      ensures h == RealHeight(root)
      ensures root.Nil? <==> h == -1
    {
      CachedHeightIsReal(root);
      h := AvlTree.Height(root);
    }

    /** AVL.java:308-311. */
    method Clear()
      modifies this
      ensures Valid() && root == Nil && size == 0
    {
      root := Nil;
      size := 0;
    }

    /**
     * AVL.java:344-354: for a stored `x`, the largest stored value below it (`None` when `x`
     * is the minimum); a NoSuchElementException otherwise.
     */
    method Predecessor(x: int) returns (r: Result<Option<int>>)
      requires Sound()
      ensures x !in Elements(root) ==> r == Err(NoSuchElement)
      ensures x in Elements(root) ==> r == Ok(FindPredecessor(root, x))
      ensures r.Ok? && r.value.Some? ==>
                r.value.value in Elements(root) && r.value.value < x &&
                forall y :: y in Elements(root) && y < x ==> y <= r.value.value
      ensures r.Ok? && r.value.None? ==> forall y :: y in Elements(root) ==> x <= y
    {
      var present := Contains(x);
      if !present {
        return Err(NoSuchElement);
      }
      return Ok(FindPredecessor(root, x));
    }

    /**
     * AVL.java:407-410: the largest value on the deepest level, `None` for the empty tree.
     */
    method MaxDeepestNode() returns (r: Option<int>)
      requires Valid()
      ensures r.None? <==> root.Nil?
      ensures r.Some? ==> r.value in AtDepth(root, RealHeight(root))
      ensures r.Some? ==> forall y :: y in AtDepth(root, RealHeight(root)) ==> y <= r.value
    {
      r := FindMaxDeepest(root);
      if root.Node? {
        MaxDeepestIsDeepestMaximum(root);
      }
    }

    /** AVL.java:495-498: the count kept in `size` is the number of stored values. */
    method Size() returns (n: int)
      requires Sound()
      ensures n == |Elements(root)|
    {
      NodeCountIsSize(root);
      return size;
    }
  }

  /**
   * Building the tree of [3, 1, 2] as written fails: 3 and 1 give the tree 3 with left child 1,
   * and adding 2 then dereferences its missing right child.
   */
  lemma CollectionAsWrittenFails()
    ensures InsertAllAsWritten(Nil, [3, 1, 2]) == None
  {
    assert InsertAllAsWritten(NeedsLeftRight(), [2]) == None by {
      InsertAsWrittenFails();
    }
    assert InsertAllAsWritten(Leaf(3), [1, 2]) == None by {
      ThreeThenOne();
      assert [1, 2][1..] == [2];
    }
    ThreeThenOne();
    assert [3, 1, 2][1..] == [1, 2];
  }

  /** Adding 1 to the leaf 3 gives the tree 3 with left child 1. */
  lemma ThreeThenOne()
    ensures InsertAsWritten(Nil, 3) == Some(Leaf(3))
    ensures InsertAsWritten(Leaf(3), 1) == Some(NeedsLeftRight())
  {
    assert RebalanceAsWritten(3, Leaf(1), Nil, 1) == Some(NeedsLeftRight());
  }

  /** The values after i + 1 additions as written are the values after i with `data[i]` added. */
  lemma AsWrittenPrefix(data: seq<int>, i: int, u: Tree)
    requires 0 <= i < |data| && InsertAllAsWritten(Nil, data[..i]) == Some(u)
    ensures InsertAllAsWritten(Nil, data[..i + 1]) == InsertAsWritten(u, data[i])
  {
    assert data[..i + 1] == data[..i] + [data[i]];
    InsertAllAsWrittenAppend(Nil, data[..i], [data[i]]);
    assert [data[i]][1..] == [];
  }

  /** A failing addition ends the whole collection's addition. */
  lemma AsWrittenFailureEnds(data: seq<int>, i: int)
    requires 0 <= i < |data| && InsertAllAsWritten(Nil, data[..i + 1]) == None
    ensures InsertAllAsWritten(Nil, data) == None
  {
    assert data == data[..i + 1] + data[i + 1..];
    InsertAllAsWrittenAppend(Nil, data[..i + 1], data[i + 1..]);
  }

  lemma {:induction false} InsertAllSnoc(t: Tree, xs: seq<int>, x: int)
    requires AvlTree.Valid(t)
    ensures InsertAll(t, xs + [x]) == Insert(InsertAll(t, xs), x)
    decreases |xs|
  {
    if xs == [] {
      assert [] + [x] == [x];
    } else {
      assert (xs + [x])[1..] == xs[1..] + [x];
      InsertAllSnoc(Insert(t, xs[0]), xs[1..], x);
    }
  }

  /** The tree after i + 1 values of `data` is the tree after i of them with `data[i]` added. */
  lemma InsertAllPrefix(data: seq<int>, i: int)
    requires 0 <= i < |data|
    ensures InsertAll(Nil, data[..i + 1]) == Insert(InsertAll(Nil, data[..i]), data[i])
  {
    assert data[..i + 1] == data[..i] + [data[i]];
    InsertAllSnoc(Nil, data[..i], data[i]);
  }
}
