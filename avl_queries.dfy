/**
 * Read-only operations of the AVL tree: search (AVL.java:249-261), predecessor
 * (AVL.java:362-374), the maximum deepest node (AVL.java:417-435), and the logarithmic
 * height bound that the balance invariant guarantees.
 */
module AvlQueries {
  import opened Wrappers
  import opened AvlTree

  /** AVL.java:249-261: the stored value equal to `x`, if a search path reaches it. */
  function Search(t: Tree, x: int): (r: Option<int>)
    ensures r.Some? ==> r.value == x && x in Elements(t)
    ensures Ordered(t) && x in Elements(t) ==> r.Some?
  {
    if t.Nil? then None
    else if x == t.data then Some(t.data)
    else
      SearchSide(t, x);
      if x < t.data then Search(t.left, x) else Search(t.right, x)
  }

  /** In an ordered tree a value smaller than the root can only be on the left, and so on. */
  lemma SearchSide(t: Tree, x: int)
    requires t.Node?
    ensures Ordered(t) && x in Elements(t) && x < t.data ==> x in Elements(t.left)
    ensures Ordered(t) && x in Elements(t) && x > t.data ==> x in Elements(t.right)
  {
    if Ordered(t) && x in Elements(t) {
      assert x in Elements(t.left) || x == t.data || x in Elements(t.right);
    }
  }

  /**
   * AVL.java:362-374: the largest stored value smaller than `x`, or `None` when every stored
   * value is at least `x`.
   */
  function FindPredecessor(t: Tree, x: int): (r: Option<int>)
    ensures r.Some? ==> r.value in Elements(t) && r.value < x
    ensures Ordered(t) && r.Some? ==> forall y :: y in Elements(t) && y < x ==> y <= r.value
    ensures Ordered(t) ==> (r.None? <==> forall y :: y in Elements(t) ==> x <= y)
  {
    if t.Nil? then None
    else if x <= t.data then FindPredecessor(t.left, x)
    else
      match FindPredecessor(t.right, x)
      case Some(v) => Some(v)
      case None => Some(t.data)
  }

  /** The values of the nodes exactly `k` edges below the root. */
  function AtDepth(t: Tree, k: int): set<int>
  {
    if t.Nil? || k < 0 then {}
    else if k == 0 then {t.data}
    else AtDepth(t.left, k - 1) + AtDepth(t.right, k - 1)
  }

  lemma {:induction false} AtDepthInTree(t: Tree, k: int)
    ensures AtDepth(t, k) <= Elements(t)
    ensures k > RealHeight(t) ==> AtDepth(t, k) == {}
  {
    if t.Node? && k > 0 {
      AtDepthInTree(t.left, k - 1);
      AtDepthInTree(t.right, k - 1);
    }
  }

  /**
   * AVL.java:417-435: the largest value on the deepest level, found by following the taller
   * child (the right one on a tie).
   */
  function FindMaxDeepest(t: Tree): (r: Option<int>)
    requires HeightsCorrect(t)
    ensures r.None? <==> t.Nil?
  {
    if t.Nil? then None
    else
      HeightBelow(t.left);
      HeightBelow(t.right);
      var lh, rh := Height(t.left), Height(t.right);
      if lh > rh then FindMaxDeepest(t.left)
      else if lh < rh then FindMaxDeepest(t.right)
      else
        match FindMaxDeepest(t.right)
        case Some(v) => Some(v)
        case None => Some(t.data)
  }

  /** How the deepest level of a node is made of the deepest levels of its children. */
  lemma DeepestLevelSplit(t: Tree)
    requires HeightsCorrect(t) && t.Node?
    ensures Height(t.left) > Height(t.right) ==> AtDepth(t, RealHeight(t)) == AtDepth(t.left, RealHeight(t.left))
    ensures Height(t.left) < Height(t.right) ==> AtDepth(t, RealHeight(t)) == AtDepth(t.right, RealHeight(t.right))
    ensures Height(t.left) == Height(t.right) && t.right.Nil? ==> AtDepth(t, RealHeight(t)) == {t.data}
    ensures Height(t.left) == Height(t.right) && t.right.Node? ==>
              RealHeight(t.left) == RealHeight(t.right) &&
              AtDepth(t, RealHeight(t)) == AtDepth(t.left, RealHeight(t.left)) + AtDepth(t.right, RealHeight(t.right))
  {
    if Height(t.left) > Height(t.right) {
      DeepestOnLeft(t);
    } else if Height(t.left) < Height(t.right) {
      DeepestOnRight(t);
    } else {
      DeepestOnBoth(t);
    }
  }

  lemma DeepestOnLeft(t: Tree)
    requires HeightsCorrect(t) && t.Node? && Height(t.left) > Height(t.right)
    ensures AtDepth(t, RealHeight(t)) == AtDepth(t.left, RealHeight(t.left))
  {
    CachedHeightIsReal(t.left);
    CachedHeightIsReal(t.right);
    var k := RealHeight(t.left);
    assert RealHeight(t) == k + 1;
    AtDepthInTree(t.right, k);
    AtDepthNode(t, k + 1);
  }

  lemma DeepestOnRight(t: Tree)
    requires HeightsCorrect(t) && t.Node? && Height(t.left) < Height(t.right)
    ensures AtDepth(t, RealHeight(t)) == AtDepth(t.right, RealHeight(t.right))
  {
    CachedHeightIsReal(t.left);
    CachedHeightIsReal(t.right);
    var k := RealHeight(t.right);
    assert RealHeight(t) == k + 1;
    AtDepthInTree(t.left, k);
    AtDepthNode(t, k + 1);
  }

  /** Below the root, the levels of a node are the levels of its children one deeper. */
  lemma AtDepthNode(t: Tree, k: int)
    requires t.Node? && k > 0
    ensures AtDepth(t, k) == AtDepth(t.left, k - 1) + AtDepth(t.right, k - 1)
  {
  }

  lemma DeepestOnBoth(t: Tree)
    requires HeightsCorrect(t) && t.Node? && Height(t.left) == Height(t.right)
    ensures t.right.Nil? ==> AtDepth(t, RealHeight(t)) == {t.data}
    ensures t.right.Node? ==>
              RealHeight(t.left) == RealHeight(t.right) &&
              AtDepth(t, RealHeight(t)) == AtDepth(t.left, RealHeight(t.left)) + AtDepth(t.right, RealHeight(t.right))
  {
    var hl, hr := RealHeight(t.left), RealHeight(t.right);
    CachedHeightIsReal(t.left);
    CachedHeightIsReal(t.right);
    HeightBelow(t.left);
    HeightBelow(t.right);
    assert hl == hr && RealHeight(t) == hl + 1;
    if t.right.Nil? {
      assert t.left.Nil?;
    } else {
      AtDepthNode(t, hl + 1);
    }
  }

  /**
   * The value `FindMaxDeepest` returns lies on the deepest level, and in an ordered tree no
   * value on that level is larger.
   */
  lemma {:induction false} MaxDeepestIsDeepestMaximum(t: Tree)
    requires HeightsCorrect(t) && t.Node?
    ensures FindMaxDeepest(t).value in AtDepth(t, RealHeight(t))
    ensures Ordered(t) ==> forall y :: y in AtDepth(t, RealHeight(t)) ==> y <= FindMaxDeepest(t).value
  {
    var l, r := t.left, t.right;
    DeepestLevelSplit(t);
    HeightBelow(l);
    HeightBelow(r);
    if Height(l) > Height(r) {
      MaxDeepestIsDeepestMaximum(l);
      assert FindMaxDeepest(t) == FindMaxDeepest(l);
    } else if Height(l) < Height(r) {
      MaxDeepestIsDeepestMaximum(r);
      assert FindMaxDeepest(t) == FindMaxDeepest(r);
    } else if r.Nil? {
      assert FindMaxDeepest(t) == Some(t.data);
    } else {
      MaxDeepestIsDeepestMaximum(r);
      assert FindMaxDeepest(t) == FindMaxDeepest(r);
      var v := FindMaxDeepest(r).value;
      if Ordered(t) {
        forall y | y in AtDepth(t, RealHeight(t)) ensures y <= v {
          if y in AtDepth(l, RealHeight(l)) {
            AtDepthInTree(l, RealHeight(l));
            AtDepthInTree(r, RealHeight(r));
            assert y < t.data < v;
          }
        }
      }
    }
  }

  // ---------------------------------------------------------------------------------------
  // The examples in the documentation of the source.

  /** The tree of AVL.java:328-336. */
  function PredecessorExample(): Tree
  {
    Node(76, Node(34, Nil, Leaf(40), 1), Node(90, Leaf(81), Nil, 1), 2)
  }

  lemma PredecessorExamples()
    ensures Valid(PredecessorExample())
    ensures FindPredecessor(PredecessorExample(), 76) == Some(40)
    ensures FindPredecessor(PredecessorExample(), 81) == Some(76)
    ensures FindPredecessor(PredecessorExample(), 34) == None
  {
    var t := PredecessorExample();
    assert Elements(t.left) == {34, 40} && Elements(t.right) == {81, 90};
  }

  /** The two trees of AVL.java:385-403. */
  lemma MaxDeepestExamples()
    ensures FindMaxDeepest(Node(2, Node(0, Nil, Leaf(1), 1), Leaf(3), 2)) == Some(1)
    ensures FindMaxDeepest(Node(2, Node(0, Nil, Leaf(1), 1), Node(4, Leaf(3), Nil, 1), 2)) == Some(3)
  {
  }

  // ---------------------------------------------------------------------------------------
  // The height bound.

  /** The fewest nodes a balanced tree of height `h` can have. */
  function MinNodes(h: int): nat
    decreases h
  {
    if h < 0 then 0 else if h == 0 then 1 else 1 + MinNodes(h - 1) + MinNodes(h - 2)
  }

  function Pow2(n: nat): nat
  {
    if n == 0 then 1 else 2 * Pow2(n - 1)
  }

  lemma {:induction false} MinNodesMonotone(a: int, b: int)
    requires a <= b
    ensures MinNodes(a) <= MinNodes(b)
    decreases b - a
  {
    if a < b {
      MinNodesMonotone(a, b - 1);
    }
  }

  /** A balanced tree with correct heights has at least `MinNodes` of its height nodes. */
  lemma {:induction false} BalancedTreeIsFull(t: Tree)
    requires HeightsCorrect(t) && Balanced(t)
    ensures NodeCount(t) >= MinNodes(Height(t))
  {
    if t.Node? {
      BalancedTreeIsFull(t.left);
      BalancedTreeIsFull(t.right);
      HeightBelow(t.left);
      HeightBelow(t.right);
      var h := Height(t);
      MinNodesMonotone(h - 2, Height(t.left));
      MinNodesMonotone(h - 2, Height(t.right));
    }
  }

  lemma {:induction false} MinNodesGrowth(h: int)
    requires h >= -1
    ensures MinNodes(h) + 1 >= Pow2((h + 1) / 2)
    decreases h
  {
    if h >= 1 {
      MinNodesGrowth(h - 2);
      MinNodesMonotone(h - 2, h - 1);
      assert (h + 1) / 2 == (h - 1) / 2 + 1;
    }
  }

  /**
   * The guarantee of the balance invariant: a valid AVL tree with n nodes has height at most
   * about 2 log2(n + 1), i.e. 2 to the power (height+1)/2 is at most n + 1.
   */
  lemma HeightIsLogarithmic(t: Tree)
    requires Valid(t)
    ensures Pow2((RealHeight(t) + 1) / 2) <= NodeCount(t) + 1
  {
    CachedHeightIsReal(t);
    BalancedTreeIsFull(t);
    MinNodesGrowth(Height(t));
  }
}
