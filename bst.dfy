/**
 * The BST class (BST.java): a root and a count.  Every public operation keeps the class
 * invariant: the root is in search order and `size` is the number of its nodes.
 */
module Bst {
  import opened Wrappers
  import opened BstTree

  class BST {
    var root: Tree
    var size: int

    ghost predicate Valid()
      reads this
    {
      Ordered(root) && size == NodeCount(root)
    }

    /** The empty tree. */
    constructor ()
      ensures Valid() && root == Nil && size == 0
    {
      root := Nil;
      size := 0;
    }

    /** BST.java:50-59: adds the values of the collection in their order. */
    constructor FromCollection(data: seq<int>)
      ensures Valid()
      ensures root == InsertAll(Nil, data)
      ensures Elements(root) == set x | x in data
    {
      root := Nil;
      size := 0;
      new;
      for i := 0 to |data|
        invariant Valid()
        invariant root == InsertAll(Nil, data[..i])
      {
        InsertAllPrefix(data, i);
        Add(data[i]);
      }
      assert data[..|data|] == data;
    }

    /** BST.java:77-82: adds `x` as a new leaf unless it is present. */
    method Add(x: int)
      requires Valid()
      modifies this
      ensures Valid()
      ensures root == Insert(old(root), x)
      ensures Elements(root) == old(Elements(root)) + {x}
      ensures size == old(size) + (if x in old(Elements(root)) then 0 else 1)
    {
      root := InsertNode(root, x);
    }

    /** BST.java:91-104: the recursive insertion; the count grows where a new leaf is made. */
    method InsertNode(node: Tree, x: int) returns (r: Tree)
      requires Ordered(node)
      modifies this`size
      ensures r == Insert(node, x)
      ensures NodeCount(r) == NodeCount(node) + (if x in Elements(node) then 0 else 1)
      ensures size == old(size) + (if x in Elements(node) then 0 else 1)
      decreases node
    {
      if node.Nil? {
        size := size + 1;
        return Node(x, Nil, Nil);
      }
      SearchSide(node, x);
      if x < node.data {
        var l := InsertNode(node.left, x);
        r := Node(node.data, l, node.right);
      } else if x > node.data {
        var rt := InsertNode(node.right, x);
        r := Node(node.data, node.left, rt);
      } else {
        r := node;
      }
    }

    /**
     * BST.java:133-143: an absent value is a NoSuchElementException and leaves the tree
     * alone; otherwise it is deleted, the count drops by one and the value is returned.
     */
    method Remove(x: int) returns (r: Result<int>)
      requires Valid()
      modifies this
      ensures Valid()
      ensures x !in old(Elements(root)) ==> r == Err(NoSuchElement) && root == old(root) && size == old(size)
      ensures x in old(Elements(root)) ==>
                r == Ok(x) && root == Delete(old(root), x) &&
                Elements(root) == old(Elements(root)) - {x} && size == old(size) - 1
    {
      var present := Contains(x);
      if !present {
        return Err(NoSuchElement);
      }
      ghost var before := root;
      root := Delete(root, x);
      size := size - 1;
      NodeCountIsSize(before);
      NodeCountIsSize(root);
      return Ok(x);
    }

    /** BST.java:179-184: walks left until there is no left child. */
    static method FindMin(node: Tree) returns (m: int)
      requires node.Node?
      ensures m == Min(node)
      ensures m in Elements(node)
      ensures Ordered(node) ==> forall y :: y in Elements(node) ==> m <= y
    {
      var n := node;
      while n.left.Node?
        invariant n.Node? && Min(n) == Min(node)
        decreases n
      {
        n := n.left;
      }
      return n.data;
    }

    /** BST.java:203-212: the stored value equal to `x`, or a NoSuchElementException. */
    method Get(x: int) returns (r: Result<int>)
      requires Valid()
      ensures x in Elements(root) ==> r == Ok(x)
      ensures x !in Elements(root) ==> r == Err(NoSuchElement)
    {
      var node := Find(root, x);
      if node.None? {
        return Err(NoSuchElement);
      }
      return Ok(node.value);
    }

    /** BST.java:229-231: whether `x` is stored. */
    method Contains(x: int) returns (b: bool)
      requires Valid()
      ensures b <==> x in Elements(root)
    {
      b := Find(root, x).Some?;
    }

    /** BST.java:263-282: the pre-order list, filled by the recursive helper. */
    method Preorder() returns (result: seq<int>)
      requires Valid()
      ensures result == PreOrder(root)
      ensures multiset(result) == Values(root)
    {
      result := PreorderInto(root, []);
      TraversalsArePermutations(root);
    }

    /** BST.java:274-282: appends the pre-order of `node` to `acc`. */
    static method PreorderInto(node: Tree, acc: seq<int>) returns (out: seq<int>)
      ensures out == acc + PreOrder(node)
      decreases node
    {
      if node.Nil? {
        return acc;
      }
      out := acc + [node.data];
      out := PreorderInto(node.left, out);
      out := PreorderInto(node.right, out);
    }

    /** BST.java:293-312: the in-order list, which is strictly increasing. */
    method Inorder() returns (result: seq<int>)
      requires Valid()
      ensures result == InOrder(root)
      ensures forall i, j :: 0 <= i < j < |result| ==> result[i] < result[j]
      ensures forall y :: y in result <==> y in Elements(root)
    {
      result := InorderInto(root, []);
      InOrderSorted(root);
    }

    /** BST.java:304-312: appends the in-order of `node` to `acc`. */
    static method InorderInto(node: Tree, acc: seq<int>) returns (out: seq<int>)
      ensures out == acc + InOrder(node)
      decreases node
    {
      if node.Nil? {
        return acc;
      }
      out := InorderInto(node.left, acc);
      out := out + [node.data];
      out := InorderInto(node.right, out);
    }

    /** BST.java:323-342: the post-order list. */
    method Postorder() returns (result: seq<int>)
      requires Valid()
      ensures result == PostOrder(root)
      ensures multiset(result) == Values(root)
    {
      result := PostorderInto(root, []);
      TraversalsArePermutations(root);
    }

    /** BST.java:334-342: appends the post-order of `node` to `acc`. */
    static method PostorderInto(node: Tree, acc: seq<int>) returns (out: seq<int>)
      ensures out == acc + PostOrder(node)
      decreases node
    {
      if node.Nil? {
        return acc;
      }
      out := PostorderInto(node.left, acc);
      out := PostorderInto(node.right, out);
      out := out + [node.data];
    }

    /**
     * BST.java:357-375: a FIFO queue of nodes, starting with the root; each node polled is
     * emitted and its present children are offered, left first.  The result is the tree
     * level by level, every node exactly once.
     */
    method Levelorder() returns (result: seq<int>)
      requires Valid()
      ensures result == LevelOrder(root)
      ensures multiset(result) == Values(root)
      ensures root.Node? ==> result[0] == root.data
    {
      result := LevelorderFrom(root);
      LevelOrderIsPermutation(root);
    }

    /** BST.java:362-374: the queue loop. */
    static method LevelorderFrom(t: Tree) returns (result: seq<int>)
      ensures result == LevelOrder(t)
    {
      result := [];
      if t.Nil? {
        return;
      }
      var queue := [t];
      QueueIsLevels(queue);
      while queue != []
        invariant NoNil(queue)
        invariant result + QueueOrder(queue) == LevelOrder(t)
        decreases ForestSize(queue)
      {
        var current := queue[0];
        var rest := queue[1..];
        QueueStep(queue);
        AppendAssoc(result, [current.data], QueueOrder(rest + Kids(current)));
        result := result + [current.data];
        queue := OfferChildren(rest, current);
      }
    }

    /** BST.java:368-373: the present children of `node` join the back of the queue, left first. */
    static method OfferChildren(queue: seq<Tree>, node: Tree) returns (q: seq<Tree>)
      requires node.Node?
      ensures q == queue + Kids(node)
    {
      KidsOffered(node, queue);
      q := queue;
      if node.left.Node? {
        q := q + [node.left];
      }
      if node.right.Node? {
        q := q + [node.right];
      }
    }

    /** BST.java:389-392: the height of the root, -1 for the empty tree. */
    method Height() returns (h: int)
      requires Valid()
      ensures h == BstTree.Height(root)
      ensures root.Nil? <==> h == -1
      ensures h + 1 <= size < Pow2(h + 1)
    {
      h := BstTree.Height(root);
    }

    /** BST.java:415-418. */
    method Clear()
      modifies this
      ensures Valid() && root == Nil && size == 0
    {
      size := 0;
      root := Nil;
    }

    /**
     * BST.java:474-495 as written: a NoSuchElementException for a value that is not stored;
     * otherwise the path up to the common ancestor, the ancestor once more, and the reversed
     * path from the ancestor to `d2` read from its second-last entry down to its first.
     */
    method FindPathBetween(d1: int, d2: int) returns (r: Result<seq<int>>)
      requires Valid()
      ensures r == PathBetweenAsWritten(root, d1, d2)
      ensures r.Err? <==> d1 !in Elements(root) || d2 !in Elements(root)
    {
      PathBetweenErrors(root, d1, d2);
      var c1 := Contains(d1);
      var c2 := Contains(d2);
      if !c1 || !c2 {
        return Err(NoSuchElement);
      }
      var ancestor := FindLCA(root, d1, d2);
      if ancestor.None? {
        return Err(NoSuchElement);
      }
      var anc := ancestor.value;
      var path := PathOrEmpty(FindAncestor(anc, d1));
      path := path + [anc.data];
      var reversePath := PathOrEmpty(FindAncestor(anc, d2));
      path := AppendDownward(path, reversePath);
      return Ok(path);
    }

    /**
     * BST.java:443-461 as documented: the same path with the common ancestor once; it starts
     * at `d1`, ends at `d2` and never stays on a value.
     */
    method FindPathBetweenCorrected(d1: int, d2: int) returns (r: Result<seq<int>>)
      requires Valid()
      ensures r == PathBetween(root, d1, d2)
      ensures r.Err? <==> d1 !in Elements(root) || d2 !in Elements(root)
      ensures r.Ok? ==> |r.value| >= 1 && r.value[0] == d1 && r.value[|r.value| - 1] == d2
    {
      PathBetweenErrors(root, d1, d2);
      var c1 := Contains(d1);
      var c2 := Contains(d2);
      if !c1 || !c2 {
        return Err(NoSuchElement);
      }
      PathBetweenShape(root, d1, d2);
      var ancestor := FindLCA(root, d1, d2);
      if ancestor.None? {
        return Err(NoSuchElement);
      }
      var anc := ancestor.value;
      var path := PathOrEmpty(FindAncestor(anc, d1));
      var reversePath := PathOrEmpty(FindAncestor(anc, d2));
      path := AppendDownward(path, reversePath);
      return Ok(path);
    }

    /** BST.java:490-492: appends `reversePath[i]` for `i` from `|reversePath| - 2` down to 0. */
    static method AppendDownward(path: seq<int>, reversePath: seq<int>) returns (out: seq<int>)
      ensures out == path + DownFromSecondLast(reversePath)
    {
      out := path;
      var i := |reversePath| - 2;
      while i >= 0
        invariant -1 <= i <= |reversePath| - 2 || (i == -2 && reversePath == [])
        invariant i >= -1 ==> out == path + Reverse(reversePath[i + 1..|reversePath| - 1])
        invariant i == -2 ==> out == path
        decreases i
      {
        out := out + [reversePath[i]];
        i := i - 1;
      }
      if reversePath != [] {
        assert reversePath[0..|reversePath| - 1] == reversePath[..|reversePath| - 1];
      }
    }

    /** BST.java:564-567 (the size accessor): the number of stored values. */
    method Size() returns (n: int)
      requires Valid()
      ensures n == |Elements(root)|
    {
      NodeCountIsSize(root);
      return size;
    }
  }

  /** Offering the present children one by one appends `Kids`. */
  lemma KidsOffered(n: Tree, q: seq<Tree>)
    requires n.Node?
    ensures q + Kids(n) ==
              (if n.left.Node? then q + [n.left] else q) + (if n.right.Node? then [n.right] else [])
  {
  }

  /** Inserting the values of `xs` one after another. */
  function InsertAll(t: Tree, xs: seq<int>): (r: Tree)
    ensures Elements(r) == Elements(t) + set x | x in xs
    ensures Ordered(t) ==> Ordered(r)
    decreases |xs|
  {
    if xs == [] then t else InsertAll(Insert(t, xs[0]), xs[1..])
  }

  lemma {:induction false} InsertAllSnoc(t: Tree, xs: seq<int>, x: int)
    ensures InsertAll(t, xs + [x]) == Insert(InsertAll(t, xs), x)
    decreases |xs|
  {
    if xs == [] {
      assert [] + [x] == [x];
    } else {
      assert (xs + [x])[1..] == xs[1..] + [x];
      InsertAllSnoc(Insert(t, xs[0]), xs[1..], x);
    }
  }

  /** The tree after i + 1 values of `data` is the tree after i of them with `data[i]` added. */
  lemma InsertAllPrefix(data: seq<int>, i: int)
    requires 0 <= i < |data|
    ensures InsertAll(Nil, data[..i + 1]) == Insert(InsertAll(Nil, data[..i]), data[i])
  {
    assert data[..i + 1] == data[..i] + [data[i]];
    InsertAllSnoc(Nil, data[..i], data[i]);
  }
}
