/**
 * Deletion from the AVL tree (AVL.java:161-204): a node with at most one child is replaced
 * by that child, a node with two children takes the value of its predecessor (the maximum of
 * its left subtree), which is then deleted from the left subtree.  On the way back up every
 * node recomputes its height and is rebalanced by the balance factor of its taller child.
 */
module AvlDelete {
  import opened AvlTree

  /** Two valid children in order around `d` whose heights differ by at most 2. */
  ghost predicate DeleteContext(d: int, l: Tree, r: Tree)
  {
    Valid(l) && Valid(r) && SplitsAt(l, d, r) && -2 <= Height(l) - Height(r) <= 2
  }

  /** AVL.java:184-203: height update, then rebalance by the taller child's balance factor. */
  function RebalanceAfterDelete(d: int, l: Tree, r: Tree): (res: Tree)
    requires DeleteContext(d, l, r)
    ensures Valid(res)
    ensures Elements(res) == Elements(l) + {d} + Elements(r)
    ensures -1 <= Height(l) - Height(r) <= 1 ==> res == Node(d, l, r, NewHeight(l, r))
    ensures Max(Height(l), Height(r)) <= Height(res) <= Max(Height(l), Height(r)) + 1
  {
    var node := Node(d, l, r, NewHeight(l, r));
    var bf := Height(l) - Height(r);
    HeightBelow(l);
    HeightBelow(r);
    if bf > 1 then
      if BalanceFactor(l) >= 0 then
        SingleRightRotation(node);
        RotateRight(node)
      else
        LeftRightRotation(node);
        RotateRight(Node(d, RotateLeft(l), r, node.height))
    else if bf < -1 then
      if BalanceFactor(r) <= 0 then
        SingleLeftRotation(node);
        RotateLeft(node)
      else
        RightLeftRotation(node);
        RotateLeft(Node(d, l, RotateRight(r), node.height))
    else
      node
  }

  /**
   * AVL.java:184-203 applied to the child that replaced a deleted node (AVL.java:172-174):
   * the child is already a valid AVL tree, so the height update and rebalance change nothing.
   */
  lemma SplicedChildUnchanged(c: Tree)
    requires c.Node? && Valid(c)
    ensures DeleteContext(c.data, c.left, c.right)
    ensures RebalanceAfterDelete(c.data, c.left, c.right) == c
  {
  }

  /**
   * AVL.java:161-204: the result is a valid AVL tree holding the old elements except `x`,
   * and it is at most one level lower.
   */
  function Delete(t: Tree, x: int): (r: Tree)
    requires Valid(t)
    ensures Valid(r)
    ensures Elements(r) == Elements(t) - {x}
    ensures Height(t) - 1 <= Height(r) <= Height(t)
  {
    if t.Nil? then Nil
    else if x < t.data then
      var l := Delete(t.left, x);
      LeftShrunk(t, x, l);
      RebalanceAfterDelete(t.data, l, t.right)
    else if x > t.data then
      var r := Delete(t.right, x);
      RightShrunk(t, x, r);
      RebalanceAfterDelete(t.data, t.left, r)
    else if t.left.Nil? || t.right.Nil? then
      var child := if t.left.Node? then t.left else t.right;
      if child.Nil? then Nil
      else
        HeightBelow(t.left);
        HeightBelow(t.right);
        SplicedChildUnchanged(child);
        RebalanceAfterDelete(child.data, child.left, child.right)
    else
      var m := FindMax(t.left);
      var l := Delete(t.left, m);
      PredecessorShrunk(t, l);
      RebalanceAfterDelete(m, l, t.right)
  }

  /** What the recursive call on the left child returns lets the node rebalance. */
  lemma LeftShrunk(t: Tree, x: int, l: Tree)
    requires Valid(t) && t.Node? && x < t.data
    requires Valid(l) && Elements(l) == Elements(t.left) - {x}
    requires Height(t.left) - 1 <= Height(l) <= Height(t.left)
    ensures DeleteContext(t.data, l, t.right)
  {
    HeightBelow(t.left);
    HeightBelow(t.right);
  }

  lemma RightShrunk(t: Tree, x: int, r: Tree)
    requires Valid(t) && t.Node? && x > t.data
    requires Valid(r) && Elements(r) == Elements(t.right) - {x}
    requires Height(t.right) - 1 <= Height(r) <= Height(t.right)
    ensures DeleteContext(t.data, t.left, r)
  {
    HeightBelow(t.left);
    HeightBelow(t.right);
  }

  /** The left child without its maximum fits below that maximum, which fits below the right child. */
  lemma PredecessorShrunk(t: Tree, l: Tree)
    requires Valid(t) && t.Node? && t.left.Node?
    requires Valid(l) && Elements(l) == Elements(t.left) - {FindMax(t.left)}
    requires Height(t.left) - 1 <= Height(l) <= Height(t.left)
    ensures DeleteContext(FindMax(t.left), l, t.right)
  {
    HeightBelow(t.left);
    HeightBelow(t.right);
  }

  /** Deleting an absent value gives back the same tree (AVL.java:162-164 at the leaves). */
  lemma {:induction false} DeleteAbsentIsIdentity(t: Tree, x: int)
    requires Valid(t) && x !in Elements(t)
    ensures Delete(t, x) == t
  {
    if t.Node? {
      if x < t.data {
        DeleteAbsentIsIdentity(t.left, x);
      } else {
        DeleteAbsentIsIdentity(t.right, x);
      }
    }
  }
}
