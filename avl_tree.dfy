/**
 * The nodes of the AVL tree (AVL.java with its AVLNode class) as an immutable datatype:
 * each node caches its own height, an absent child is `Nil`.  This module holds the
 * invariants the tree keeps (search order, correct cached heights, balance) and the two
 * rotations that insertion and deletion use to restore balance.
 */
module AvlTree {

  datatype Tree = Nil | Node(data: int, left: Tree, right: Tree, height: int)

  function Max(a: int, b: int): int { if a < b then b else a }

  /** The height stored at a node; -1 for an absent node. */
  function Height(t: Tree): int
  {
    if t.Nil? then -1 else t.height
  }

  /** The height a node with children `l` and `r` must store. */
  function NewHeight(l: Tree, r: Tree): (h: int)
    ensures h > Height(l) && h > Height(r)
    ensures h == Height(l) + 1 || h == Height(r) + 1
  {
    1 + Max(Height(l), Height(r))
  }

  /** Height of the left child minus height of the right child. */
  function BalanceFactor(t: Tree): int
    requires t.Node?
  {
    Height(t.left) - Height(t.right)
  }

  /** The height of a tree measured on its shape: edges on the longest downward path. */
  function RealHeight(t: Tree): (h: int)
    ensures h >= -1 && (t.Node? ==> h > RealHeight(t.left) && h > RealHeight(t.right))
  {
    if t.Nil? then -1 else 1 + Max(RealHeight(t.left), RealHeight(t.right))
  }

  function Elements(t: Tree): set<int>
  {
    if t.Nil? then {} else Elements(t.left) + {t.data} + Elements(t.right)
  }

  function InOrder(t: Tree): seq<int>
  {
    if t.Nil? then [] else InOrder(t.left) + [t.data] + InOrder(t.right)
  }

  function NodeCount(t: Tree): nat
  {
    if t.Nil? then 0 else NodeCount(t.left) + 1 + NodeCount(t.right)
  }

  /** Binary-search-tree order: everything left of a node is smaller, everything right is larger. */
  ghost predicate Ordered(t: Tree)
  {
    t.Nil? ||
    (Ordered(t.left) && Ordered(t.right) &&
     (forall y :: y in Elements(t.left) ==> y < t.data) &&
     (forall y :: y in Elements(t.right) ==> t.data < y))
  }

  /** Every node stores 1 + the larger height of its children. */
  ghost predicate HeightsCorrect(t: Tree)
  {
    t.Nil? || (HeightsCorrect(t.left) && HeightsCorrect(t.right) && t.height == NewHeight(t.left, t.right))
  }

  /** Every node's balance factor lies in {-1, 0, 1}. */
  ghost predicate Balanced(t: Tree)
  {
    t.Nil? || (Balanced(t.left) && Balanced(t.right) && -1 <= BalanceFactor(t) <= 1)
  }

  /** The invariant of every tree the AVL class holds. */
  ghost predicate Valid(t: Tree)
  {
    Ordered(t) && HeightsCorrect(t) && Balanced(t)
  }

  /** The cached heights of a tree that keeps its invariant are its real heights. */
  lemma {:induction false} CachedHeightIsReal(t: Tree)
    requires HeightsCorrect(t)
    ensures Height(t) == RealHeight(t)
  {
    if t.Node? {
      CachedHeightIsReal(t.left);
      CachedHeightIsReal(t.right);
    }
  }

  /** In an ordered tree the nodes hold distinct values, so the node count is the set size. */
  lemma {:induction false} NodeCountIsSize(t: Tree)
    requires Ordered(t)
    ensures NodeCount(t) == |Elements(t)|
  {
    if t.Node? {
      NodeCountIsSize(t.left);
      NodeCountIsSize(t.right);
      var l, r := Elements(t.left), Elements(t.right);
      assert t.data !in l && t.data !in r;
      assert l * r == {} by {
        forall y | y in l ensures y !in r {
          assert y < t.data;
        }
      }
      DisjointUnionSize(l, {t.data}, r);
    }
  }

  lemma DisjointUnionSize(a: set<int>, b: set<int>, c: set<int>)
    requires a * b == {} && a * c == {} && b * c == {}
    ensures |a + b + c| == |a| + |b| + |c|
  {
    assert (a + b) * c == {};
  }

  /** In an ordered tree the in-order sequence is strictly increasing and lists exactly the elements. */
  lemma {:induction false} InOrderSorted(t: Tree)
    requires Ordered(t)
    ensures forall i, j :: 0 <= i < j < |InOrder(t)| ==> InOrder(t)[i] < InOrder(t)[j]
    ensures forall y :: y in InOrder(t) <==> y in Elements(t)
  {
    if t.Node? {
      InOrderSorted(t.left);
      InOrderSorted(t.right);
      var a, b := InOrder(t.left), InOrder(t.right);
      var s := InOrder(t);
      assert s == a + [t.data] + b;
      forall i, j | 0 <= i < j < |s| ensures s[i] < s[j] {
        if j < |a| {
        } else if i < |a| {
          assert s[i] in Elements(t.left);
          if j > |a| {
            assert s[j] == b[j - |a| - 1];
            assert s[j] in Elements(t.right);
          }
        } else if i == |a| {
          assert s[j] == b[j - |a| - 1];
          assert s[j] in Elements(t.right);
        } else {
          assert s[i] == b[i - |a| - 1] && s[j] == b[j - |a| - 1];
        }
      }
    }
  }

  /**
   * AVL.java:451-458: the right child becomes the root; its old left subtree becomes the right
   * subtree of the old root. The displaced node's height is recomputed before the new root's.
   */
  function RotateLeft(t: Tree): (r: Tree)
    requires t.Node? && t.right.Node?
    ensures r.Node? && r.left.Node?
    ensures InOrder(r) == InOrder(t)
    ensures Elements(r) == Elements(t)
    ensures Ordered(t) ==> Ordered(r)
    ensures HeightsCorrect(t.left) && HeightsCorrect(t.right) ==> HeightsCorrect(r)
  {
    var lowered := Node(t.data, t.left, t.right.left, NewHeight(t.left, t.right.left));
    RotationKeepsOrder(t.data, t.left, t.right.data, t.right.left, t.right.right,
                       lowered.height, t.right.height, NewHeight(lowered, t.right.right), t.height);
    Node(t.right.data, lowered, t.right.right, NewHeight(lowered, t.right.right))
  }

  /** AVL.java:465-472: the mirror image of `RotateLeft`. */
  function RotateRight(t: Tree): (r: Tree)
    requires t.Node? && t.left.Node?
    ensures r.Node? && r.right.Node?
    ensures InOrder(r) == InOrder(t)
    ensures Elements(r) == Elements(t)
    ensures Ordered(t) ==> Ordered(r)
    ensures HeightsCorrect(t.left) && HeightsCorrect(t.right) ==> HeightsCorrect(r)
  {
    var lowered := Node(t.data, t.left.right, t.right, NewHeight(t.left.right, t.right));
    RotationKeepsOrder(t.left.data, t.left.left, t.data, t.left.right, t.right,
                       t.left.height, lowered.height, t.height, NewHeight(t.left.left, lowered));
    Node(t.left.data, t.left.left, lowered, NewHeight(t.left.left, lowered))
  }

  /** The two shapes a rotation moves between hold the same values in the same order. */
  lemma RotationKeepsOrder(a: int, x: Tree, b: int, y: Tree, z: Tree, h1: int, h2: int, h3: int, h4: int)
    ensures var low := Node(a, x, y, h1);
            var high := Node(b, y, z, h2);
            Elements(Node(b, low, z, h3)) == Elements(Node(a, x, high, h4)) &&
            (Ordered(Node(b, low, z, h3)) <==> Ordered(Node(a, x, high, h4)))
  {
    var low := Node(a, x, y, h1);
    var high := Node(b, y, z, h2);
    assert Elements(low) == Elements(x) + {a} + Elements(y);
    assert Elements(high) == Elements(y) + {b} + Elements(z);
  }

  /** AVL.java:211-216 (helper findMax): the rightmost value, the largest in an ordered tree. */
  function FindMax(t: Tree): (m: int)
    requires t.Node?
    ensures m in Elements(t)
    ensures Ordered(t) ==> forall y :: y in Elements(t) ==> y <= m
  {
    if t.right.Nil? then t.data else FindMax(t.right)
  }

  function Leaf(x: int): (t: Tree)
    ensures Valid(t) && Elements(t) == {x} && Height(t) == 0
  {
    assert Elements(Nil) == {};
    assert Ordered(Nil) && HeightsCorrect(Nil) && Balanced(Nil);
    Node(x, Nil, Nil, 0)
  }

  /** The children of `t` are in order on either side of `d`. */
  ghost predicate SplitsAt(l: Tree, d: int, r: Tree)
  {
    (forall y :: y in Elements(l) ==> y < d) && (forall y :: y in Elements(r) ==> d < y)
  }

  /** A tree with correct cached heights stores -1 only at an absent node. */
  lemma {:induction false} HeightBelow(t: Tree)
    requires HeightsCorrect(t)
    ensures t.Nil? ==> Height(t) == -1
    ensures t.Node? ==> Height(t) >= 0
  {
    if t.Node? {
      HeightBelow(t.left);
      HeightBelow(t.right);
    }
  }

  /**
   * A node whose left child is two taller than its right child, where that left child is not
   * right-heavy, is restored by a single right rotation.
   */
  lemma SingleRightRotation(t: Tree)
    requires t.Node? && Valid(t.left) && Valid(t.right) && SplitsAt(t.left, t.data, t.right)
    requires t.left.Node? && Height(t.left) == Height(t.right) + 2 && BalanceFactor(t.left) >= 0
    ensures Valid(RotateRight(t))
    ensures Height(RotateRight(t)) == Height(t.left) || Height(RotateRight(t)) == Height(t.left) + 1
    ensures BalanceFactor(t.left) == 1 ==> Height(RotateRight(t)) == Height(t.left)
  {
    var l := t.left;
    HeightBelow(t.right);
    HeightBelow(l.left);
    HeightBelow(l.right);
    var lowered := Node(t.data, l.right, t.right, NewHeight(l.right, t.right));
    var r := RotateRight(t);
    assert r == Node(l.data, l.left, lowered, NewHeight(l.left, lowered));
    assert Height(l.left) == Height(t.right) + 1;
    assert Balanced(lowered);
    assert Ordered(t);
  }

  lemma SingleLeftRotation(t: Tree)
    requires t.Node? && Valid(t.left) && Valid(t.right) && SplitsAt(t.left, t.data, t.right)
    requires t.right.Node? && Height(t.right) == Height(t.left) + 2 && BalanceFactor(t.right) <= 0
    ensures Valid(RotateLeft(t))
    ensures Height(RotateLeft(t)) == Height(t.right) || Height(RotateLeft(t)) == Height(t.right) + 1
    ensures BalanceFactor(t.right) == -1 ==> Height(RotateLeft(t)) == Height(t.right)
  {
    var r := t.right;
    HeightBelow(t.left);
    HeightBelow(r.left);
    HeightBelow(r.right);
    var lowered := Node(t.data, t.left, r.left, NewHeight(t.left, r.left));
    assert RotateLeft(t) == Node(r.data, lowered, r.right, NewHeight(lowered, r.right));
    assert Height(r.right) == Height(t.left) + 1;
    assert Balanced(lowered);
    assert Ordered(t);
  }

  /**
   * A node whose left child is two taller than its right child, where that left child is
   * right-heavy, is restored by rotating the left child left and then the node right.
   */
  lemma LeftRightRotation(t: Tree)
    requires t.Node? && Valid(t.left) && Valid(t.right) && SplitsAt(t.left, t.data, t.right)
    requires t.left.Node? && Height(t.left) == Height(t.right) + 2 && BalanceFactor(t.left) == -1
    ensures t.left.right.Node?
    ensures Valid(RotateRight(Node(t.data, RotateLeft(t.left), t.right, t.height)))
    ensures Height(RotateRight(Node(t.data, RotateLeft(t.left), t.right, t.height))) == Height(t.left)
  {
    var l := t.left;
    HeightBelow(t.right);
    HeightBelow(l.left);
    HeightBelow(l.right);
    var m := l.right;
    HeightBelow(m.left);
    HeightBelow(m.right);
    var a := Node(l.data, l.left, m.left, NewHeight(l.left, m.left));
    var b := Node(t.data, m.right, t.right, NewHeight(m.right, t.right));
    var r := RotateRight(Node(t.data, RotateLeft(l), t.right, t.height));
    assert RotateLeft(l) == Node(m.data, a, m.right, NewHeight(a, m.right));
    assert r == Node(m.data, a, b, NewHeight(a, b));
    assert Height(m) == Height(t.right) + 1 && Height(l.left) == Height(t.right);
    assert HeightsCorrect(m) && Balanced(m);
    assert Height(m.left) <= Height(t.right) && Height(m.right) <= Height(t.right);
    assert Height(m.left) >= Height(t.right) - 1 && Height(m.right) >= Height(t.right) - 1;
    assert Balanced(a) && Balanced(b);
    assert Ordered(Node(t.data, RotateLeft(l), t.right, t.height));
  }

  lemma RightLeftRotation(t: Tree)
    requires t.Node? && Valid(t.left) && Valid(t.right) && SplitsAt(t.left, t.data, t.right)
    requires t.right.Node? && Height(t.right) == Height(t.left) + 2 && BalanceFactor(t.right) == 1
    ensures t.right.left.Node?
    ensures Valid(RotateLeft(Node(t.data, t.left, RotateRight(t.right), t.height)))
    ensures Height(RotateLeft(Node(t.data, t.left, RotateRight(t.right), t.height))) == Height(t.right)
  {
    var r := t.right;
    HeightBelow(t.left);
    HeightBelow(r.left);
    HeightBelow(r.right);
    var m := r.left;
    HeightBelow(m.left);
    HeightBelow(m.right);
    var a := Node(t.data, t.left, m.left, NewHeight(t.left, m.left));
    var b := Node(r.data, m.right, r.right, NewHeight(m.right, r.right));
    var res := RotateLeft(Node(t.data, t.left, RotateRight(r), t.height));
    assert RotateRight(r) == Node(m.data, m.left, b, NewHeight(m.left, b));
    assert res == Node(m.data, a, b, NewHeight(a, b));
    assert Height(m) == Height(t.left) + 1 && Height(r.right) == Height(t.left);
    assert HeightsCorrect(m) && Balanced(m);
    assert Height(m.left) <= Height(t.left) && Height(m.right) <= Height(t.left);
    assert Height(m.left) >= Height(t.left) - 1 && Height(m.right) >= Height(t.left) - 1;
    assert Balanced(a) && Balanced(b);
    assert Ordered(Node(t.data, t.left, RotateRight(r), t.height));
  }
}
