/**
 * Insertion into the AVL tree (AVL.java:81-113).  `Insert` is the evidently intended
 * algorithm: descend as in a search tree, recompute the height on the way up, and repair a
 * node whose balance factor reaches +-2 with a single or a double rotation.  The method in the
 * source repairs the left-right case with the right-left rotation, so `InsertAsWritten` models
 * the code as it stands, with a null dereference as `None`.
 */
module AvlInsert {
  import opened Wrappers
  import opened AvlTree

  /**
   * What insertion promises when the subtree grew taller: the root is still the old root and
   * it now leans towards the side that received `x`.  A new leaf has balance factor 0.
   */
  ghost predicate GrewAtRoot(t: Tree, x: int, r: Tree)
  {
    r.Node? &&
    (t.Nil? ==> r == Leaf(x)) &&
    (t.Node? ==> r.data == t.data && x != t.data &&
                 (x < t.data ==> BalanceFactor(r) == 1) &&
                 (x > t.data ==> BalanceFactor(r) == -1))
  }

  /**
   * What the recursion hands to a node on its way back up: two valid children, in order
   * around `d`, whose heights differ by at most 2, and in the +-2 case the taller child grew
   * along the path `x` took.
   */
  ghost predicate InsertContext(d: int, l: Tree, r: Tree, x: int)
  {
    Valid(l) && Valid(r) && SplitsAt(l, d, r) &&
    -2 <= Height(l) - Height(r) <= 2 &&
    (Height(l) - Height(r) == 2 ==>
       l.Node? && x != l.data && (x < l.data ==> BalanceFactor(l) == 1) && (x > l.data ==> BalanceFactor(l) == -1)) &&
    (Height(l) - Height(r) == -2 ==>
       r.Node? && x != r.data && (x > r.data ==> BalanceFactor(r) == -1) && (x < r.data ==> BalanceFactor(r) == 1))
  }

  /** AVL.java:94-112 with the intended double rotation: height update, then rebalance. */
  function RebalanceAfterInsert(d: int, l: Tree, r: Tree, x: int): (res: Tree)
    requires InsertContext(d, l, r, x)
    ensures Valid(res)
    ensures Elements(res) == Elements(l) + {d} + Elements(r)
    ensures -1 <= Height(l) - Height(r) <= 1 ==> res == Node(d, l, r, NewHeight(l, r))
    ensures !(-1 <= Height(l) - Height(r) <= 1) ==> Height(res) == Max(Height(l), Height(r))
  {
    var node := Node(d, l, r, NewHeight(l, r));
    var bf := Height(l) - Height(r);
    if bf > 1 then
      if x < l.data then
        SingleRightRotation(node);
        RotateRight(node)
      else
        LeftRightRotation(node);
        RotateRight(Node(d, RotateLeft(l), r, node.height))
    else if bf < -1 then
      if x > r.data then
        SingleLeftRotation(node);
        RotateLeft(node)
      else
        RightLeftRotation(node);
        RotateLeft(Node(d, l, RotateRight(r), node.height))
    else
      node
  }

  /**
   * AVL.java:81-113, corrected: the result is a valid AVL tree holding the old elements and
   * `x`, one level taller at most, and when it did grow the root leans towards `x`.
   */
  function Insert(t: Tree, x: int): (r: Tree)
    requires Valid(t)
    ensures Valid(r)
    ensures Elements(r) == Elements(t) + {x}
    ensures Height(t) <= Height(r) <= Height(t) + 1
    ensures Height(r) == Height(t) + 1 ==> GrewAtRoot(t, x, r)
    ensures r.Node?
  {
    if t.Nil? then Leaf(x)
    else if x < t.data then
      var l := Insert(t.left, x);
      LeftContext(t, x, l);
      RebalanceAfterInsert(t.data, l, t.right, x)
    else if x > t.data then
      var r := Insert(t.right, x);
      RightContext(t, x, r);
      RebalanceAfterInsert(t.data, t.left, r, x)
    else
      HeightBelow(t.left);
      HeightBelow(t.right);
      RebalanceAfterInsert(t.data, t.left, t.right, x)
  }

  /** What the recursive call on the left child returns lets the node rebalance. */
  lemma LeftContext(t: Tree, x: int, l: Tree)
    requires Valid(t) && t.Node? && x < t.data
    requires Valid(l) && Elements(l) == Elements(t.left) + {x}
    requires Height(t.left) <= Height(l) <= Height(t.left) + 1
    requires Height(l) == Height(t.left) + 1 ==> GrewAtRoot(t.left, x, l)
    ensures InsertContext(t.data, l, t.right, x)
  {
    HeightBelow(t.left);
    HeightBelow(t.right);
  }

  lemma RightContext(t: Tree, x: int, r: Tree)
    requires Valid(t) && t.Node? && x > t.data
    requires Valid(r) && Elements(r) == Elements(t.right) + {x}
    requires Height(t.right) <= Height(r) <= Height(t.right) + 1
    requires Height(r) == Height(t.right) + 1 ==> GrewAtRoot(t.right, x, r)
    ensures InsertContext(t.data, t.left, r, x)
  {
    HeightBelow(t.left);
    HeightBelow(t.right);
  }

  /** One step of the recursion of `Insert`, spelled out for the recursive method of the class. */
  lemma InsertStepLeft(t: Tree, x: int)
    requires Valid(t) && t.Node? && x < t.data
    ensures InsertContext(t.data, Insert(t.left, x), t.right, x)
    ensures Insert(t, x) == RebalanceAfterInsert(t.data, Insert(t.left, x), t.right, x)
  {
    HeightBelow(t.left);
    HeightBelow(t.right);
  }

  lemma InsertStepRight(t: Tree, x: int)
    requires Valid(t) && t.Node? && x > t.data
    ensures InsertContext(t.data, t.left, Insert(t.right, x), x)
    ensures Insert(t, x) == RebalanceAfterInsert(t.data, t.left, Insert(t.right, x), x)
  {
    HeightBelow(t.left);
    HeightBelow(t.right);
  }

  lemma InsertStepHere(t: Tree, x: int)
    requires Valid(t) && t.Node? && x == t.data
    ensures InsertContext(t.data, t.left, t.right, x)
    ensures Insert(t, x) == RebalanceAfterInsert(t.data, t.left, t.right, x)
  {
    HeightBelow(t.left);
    HeightBelow(t.right);
  }

  /** Adding a value that is already present changes nothing (AVL.java:57-58). */
  lemma {:induction false} InsertPresentIsIdentity(t: Tree, x: int)
    requires Valid(t) && x in Elements(t)
    ensures Insert(t, x) == t
  {
    if x < t.data {
      InsertPresentIsIdentity(t.left, x);
    } else if x > t.data {
      InsertPresentIsIdentity(t.right, x);
    }
  }

  /** Adding the values of a collection one after another, in order (AVL.java:40-48). */
  function InsertAll(t: Tree, xs: seq<int>): (r: Tree)
    requires Valid(t)
    ensures Valid(r)
    ensures Elements(r) == Elements(t) + (set x | x in xs)
    decreases |xs|
  {
    if xs == [] then t else InsertAll(Insert(t, xs[0]), xs[1..])
  }

  // ---------------------------------------------------------------------------------------
  // The insertion as written.

  /**
   * AVL.java:94-112 as written.  In the left-heavy case with `x` not left of the left child the
   * code rotates the RIGHT child right and then the node left; a missing child on that path is
   * a NullPointerException, modelled as `None`.
   */
  function RebalanceAsWritten(d: int, l: Tree, r: Tree, x: int): Option<Tree>
  {
    var node := Node(d, l, r, NewHeight(l, r));
    var bf := Height(l) - Height(r);
    if bf > 1 then
      if l.Nil? then None
      else if x < l.data then Some(RotateRight(node))
      else if r.Nil? || r.left.Nil? then None
      else Some(RotateLeft(Node(d, l, RotateRight(r), node.height)))
    else if bf < -1 then
      if r.Nil? then None
      else if x > r.data then Some(RotateLeft(node))
      else if r.left.Nil? then None
      else Some(RotateLeft(Node(d, l, RotateRight(r), node.height)))
    else
      Some(node)
  }

  /** AVL.java:81-113 as written; `None` is the NullPointerException. */
  function InsertAsWritten(t: Tree, x: int): Option<Tree>
  {
    if t.Nil? then Some(Leaf(x))
    else if x < t.data then
      match InsertAsWritten(t.left, x)
      case None => None
      case Some(l) => RebalanceAsWritten(t.data, l, t.right, x)
    else if x > t.data then
      match InsertAsWritten(t.right, x)
      case None => None
      case Some(r) => RebalanceAsWritten(t.data, t.left, r, x)
    else
      RebalanceAsWritten(t.data, t.left, t.right, x)
  }

  /** One written rebalancing step keeps the values and their search order. */
  lemma RebalanceAsWrittenKeepsValues(d: int, l: Tree, r: Tree, x: int)
    requires Ordered(l) && Ordered(r) && SplitsAt(l, d, r)
    ensures RebalanceAsWritten(d, l, r, x).Some? ==>
              Ordered(RebalanceAsWritten(d, l, r, x).value) &&
              Elements(RebalanceAsWritten(d, l, r, x).value) == Elements(l) + {d} + Elements(r)
  {
    var node := Node(d, l, r, NewHeight(l, r));
    assert Ordered(node);
    if r.Node? && r.left.Node? {
      var rr := RotateRight(r);
      assert Ordered(Node(d, l, rr, node.height));
    }
  }

  /** Whatever the written code returns still holds the right values in search order. */
  lemma {:induction false} InsertAsWrittenKeepsValues(t: Tree, x: int)
    requires Ordered(t)
    ensures InsertAsWritten(t, x).Some? ==>
              Ordered(InsertAsWritten(t, x).value) &&
              Elements(InsertAsWritten(t, x).value) == Elements(t) + {x}
  {
    if t.Node? {
      if x < t.data {
        InsertAsWrittenKeepsValues(t.left, x);
        var sub := InsertAsWritten(t.left, x);
        if sub.Some? {
          RebalanceAsWrittenKeepsValues(t.data, sub.value, t.right, x);
        }
      } else if x > t.data {
        InsertAsWrittenKeepsValues(t.right, x);
        var sub := InsertAsWritten(t.right, x);
        if sub.Some? {
          RebalanceAsWrittenKeepsValues(t.data, t.left, sub.value, x);
        }
      } else {
        RebalanceAsWrittenKeepsValues(t.data, t.left, t.right, x);
      }
    }
  }

  /**
   * A call of AVL.java:81-113 as written, seen from the node it started at.  `Done` carries the
   * subtree the call returns.  `Threw` is a NullPointerException; the nodes keep what they were
   * given before it, so `tree` is then the subtree still hanging from the starting node, with
   * the new child and cached height the failing node had already received.
   */
  datatype Attempt = Done(tree: Tree) | Threw(tree: Tree)

  /**
   * AVL.java:94-112 as written on a node whose child has been set: the rebalanced subtree, or,
   * when a rotation dereferences a missing node, the node with its height recomputed.
   */
  function StepAsWritten(d: int, l: Tree, r: Tree, x: int): Attempt
  {
    match RebalanceAsWritten(d, l, r, x)
    case Some(n) => Done(n)
    case None => Threw(Node(d, l, r, NewHeight(l, r)))
  }

  /**
   * AVL.java:81-113 as written, with the state an exception leaves: a node above the failing
   * one has not yet taken the new child, so it keeps its fields and reaches the changed subtree
   * through its old child.
   */
  function InsertAttempt(t: Tree, x: int): Attempt
  {
    if t.Nil? then Done(Leaf(x))
    else if x < t.data then
      match InsertAttempt(t.left, x)
      case Threw(s) => Threw(Node(t.data, s, t.right, t.height))
      case Done(l) => StepAsWritten(t.data, l, t.right, x)
    else if x > t.data then
      match InsertAttempt(t.right, x)
      case Threw(s) => Threw(Node(t.data, t.left, s, t.height))
      case Done(r) => StepAsWritten(t.data, t.left, r, x)
    else
      StepAsWritten(t.data, t.left, t.right, x)
  }

  /** The call completes exactly when `InsertAsWritten` does, and then returns its tree. */
  lemma {:induction false} AttemptIsAsWritten(t: Tree, x: int)
    ensures InsertAttempt(t, x).Done? <==> InsertAsWritten(t, x).Some?
    ensures InsertAttempt(t, x).Done? ==> InsertAttempt(t, x).tree == InsertAsWritten(t, x).value
  {
    if t.Node? {
      if x < t.data {
        AttemptIsAsWritten(t.left, x);
      } else if x > t.data {
        AttemptIsAsWritten(t.right, x);
      }
    }
  }

  /**
   * Whether the call completes or throws, the tree seen from the starting node holds the old
   * values and `x`, in search order: the new leaf is in place before anything can fail.
   */
  lemma {:induction false} AttemptKeepsValues(t: Tree, x: int)
    requires Ordered(t)
    ensures Ordered(InsertAttempt(t, x).tree)
    ensures Elements(InsertAttempt(t, x).tree) == Elements(t) + {x}
  {
    if t.Node? {
      if x < t.data {
        AttemptKeepsValues(t.left, x);
        StepKeepsValues(t.data, InsertAttempt(t.left, x).tree, t.right, x);
      } else if x > t.data {
        AttemptKeepsValues(t.right, x);
        StepKeepsValues(t.data, t.left, InsertAttempt(t.right, x).tree, x);
      } else {
        StepKeepsValues(t.data, t.left, t.right, x);
      }
    }
  }

  /** One step as written, completed or not, keeps the values and their search order. */
  lemma StepKeepsValues(d: int, l: Tree, r: Tree, x: int)
    requires Ordered(l) && Ordered(r) && SplitsAt(l, d, r)
    ensures Ordered(StepAsWritten(d, l, r, x).tree)
    ensures Elements(StepAsWritten(d, l, r, x).tree) == Elements(l) + {d} + Elements(r)
  {
    RebalanceAsWrittenKeepsValues(d, l, r, x);
  }

  /**
   * Adding a stored value to a valid tree completes and changes nothing, as AVL.java:57-58
   * promises: no leaf is made and no node is out of balance.
   */
  lemma {:induction false} AttemptPresentIsIdentity(t: Tree, x: int)
    requires Valid(t) && x in Elements(t)
    ensures InsertAttempt(t, x) == Done(t)
  {
    if x < t.data {
      AttemptPresentIsIdentity(t.left, x);
    } else if x > t.data {
      AttemptPresentIsIdentity(t.right, x);
    }
  }

  /** Adding the values of a collection one after another as written; the first failure ends it. */
  function InsertAllAsWritten(t: Tree, xs: seq<int>): Option<Tree>
    decreases |xs|
  {
    if xs == [] then Some(t)
    else match InsertAsWritten(t, xs[0])
      case None => None
      case Some(u) => InsertAllAsWritten(u, xs[1..])
  }

  /** Adding `xs + ys` is adding `xs`, then, if that completed, `ys`. */
  lemma {:induction false} InsertAllAsWrittenAppend(t: Tree, xs: seq<int>, ys: seq<int>)
    ensures InsertAllAsWritten(t, xs + ys) ==
              match InsertAllAsWritten(t, xs)
              case None => None
              case Some(u) => InsertAllAsWritten(u, ys)
    decreases |xs|
  {
    if xs == [] {
      assert xs + ys == ys;
    } else {
      assert (xs + ys)[0] == xs[0] && (xs + ys)[1..] == xs[1..] + ys;
      if InsertAsWritten(t, xs[0]).Some? {
        InsertAllAsWrittenAppend(InsertAsWritten(t, xs[0]).value, xs[1..], ys);
      }
    }
  }

  /** Tree 3 with left child 1: adding 2 needs a left-right rotation. */
  function NeedsLeftRight(): Tree
  {
    Node(3, Leaf(1), Nil, 1)
  }

  /** The written code dereferences the missing right child; the intended code succeeds. */
  lemma InsertAsWrittenFails()
    ensures Valid(NeedsLeftRight())
    ensures InsertAsWritten(NeedsLeftRight(), 2) == None
    ensures Insert(NeedsLeftRight(), 2) == Node(2, Leaf(1), Leaf(3), 1)
  {
    NeedsLeftRightIsValid();
    AsWrittenGrowsLeft();
    AsWrittenCrashesAtRoot();
    IntendedGrowsLeft();
    IntendedRotatesTwice();
  }

  lemma NeedsLeftRightIsValid()
    ensures Valid(NeedsLeftRight())
  {
    var l := Leaf(1);
    assert Elements(Nil) == {} && Height(Nil) == -1;
    assert Ordered(Nil) && HeightsCorrect(Nil) && Balanced(Nil);
    assert Ordered(Node(3, l, Nil, 1));
    assert HeightsCorrect(Node(3, l, Nil, 1));
    assert Balanced(Node(3, l, Nil, 1));
  }

  /** Adding 2 below the leaf 1 gives 1 with right child 2, with no rotation. */
  lemma AsWrittenGrowsLeft()
    ensures InsertAsWritten(Leaf(1), 2) == Some(Node(1, Nil, Leaf(2), 1))
  {
    assert RebalanceAsWritten(1, Nil, Leaf(2), 2) == Some(Node(1, Nil, Leaf(2), 1));
  }

  /** Node 3 is then left-heavy by 2 with an absent right child, which the written code rotates. */
  lemma AsWrittenCrashesAtRoot()
    ensures RebalanceAsWritten(3, Node(1, Nil, Leaf(2), 1), Nil, 2) == None
  {
  }

  lemma IntendedGrowsLeft()
    ensures Insert(Leaf(1), 2) == Node(1, Nil, Leaf(2), 1)
  {
    InsertStepRight(Leaf(1), 2);
    assert Insert(Nil, 2) == Leaf(2);
  }

  lemma IntendedRotatesTwice()
    ensures Valid(NeedsLeftRight())
    ensures Insert(NeedsLeftRight(), 2) == Node(2, Leaf(1), Leaf(3), 1)
  {
    NeedsLeftRightIsValid();
    InsertStepLeft(NeedsLeftRight(), 2);
    IntendedGrowsLeft();
    IntendedRebalance();
  }

  /** Node 3 over the grown left child is repaired by the left-right double rotation. */
  lemma IntendedRebalance()
    requires InsertContext(3, Node(1, Nil, Leaf(2), 1), Nil, 2)
    ensures RebalanceAfterInsert(3, Node(1, Nil, Leaf(2), 1), Nil, 2) == Node(2, Leaf(1), Leaf(3), 1)
  {
    var grown := Node(1, Nil, Leaf(2), 1);
    assert RebalanceAfterInsert(3, grown, Nil, 2) == RotateRight(Node(3, RotateLeft(grown), Nil, 2));
    RotateGrownLeft();
    RotateRootRight();
  }

  lemma RotateGrownLeft()
    ensures RotateLeft(Node(1, Nil, Leaf(2), 1)) == Node(2, Leaf(1), Nil, 1)
  {
  }

  lemma RotateRootRight()
    ensures RotateRight(Node(3, Node(2, Leaf(1), Nil, 1), Nil, 2)) == Node(2, Leaf(1), Leaf(3), 1)
  {
  }

  /**
   * A valid tree where the written code does not crash but returns a tree whose root has
   * balance factor 4.
   */
  function UnbalancedWitness(): Tree
  {
    var left := Node(10, Node(5, Leaf(3), Nil, 1), Node(15, Leaf(12), Leaf(17), 1), 2);
    Node(20, left, Node(30, Leaf(25), Nil, 1), 3)
  }

  lemma InsertAsWrittenUnbalances()
    ensures Valid(UnbalancedWitness())
    ensures InsertAsWritten(UnbalancedWitness(), 18).Some?
    ensures !Balanced(InsertAsWritten(UnbalancedWitness(), 18).value)
  {
    var t := UnbalancedWitness();
    WitnessIsValid();
    var seventeen := Node(17, Nil, Leaf(18), 1);
    assert RebalanceAsWritten(17, Nil, Leaf(18), 18) == Some(seventeen);
    assert InsertAsWritten(Leaf(17), 18) == Some(seventeen);
    var grown := Node(15, Leaf(12), seventeen, 2);
    assert RebalanceAsWritten(15, Leaf(12), seventeen, 18) == Some(grown);
    assert InsertAsWritten(t.left.right, 18) == Some(grown);
    var l := Node(10, t.left.left, grown, 3);
    assert RebalanceAsWritten(10, t.left.left, grown, 18) == Some(l);
    assert InsertAsWritten(t.left, 18) == Some(l);
    var res := Node(25, Node(20, l, Nil, 4), Leaf(30), 5);
    assert RebalanceAsWritten(20, l, t.right, 18) == Some(res);
    assert BalanceFactor(res) == 4;
  }

  lemma WitnessIsValid()
    ensures Valid(UnbalancedWitness())
  {
    var t := UnbalancedWitness();
    var five := Node(5, Leaf(3), Nil, 1);
    var fifteen := Node(15, Leaf(12), Leaf(17), 1);
    var thirty := Node(30, Leaf(25), Nil, 1);
    assert Elements(five) == {3, 5} && Valid(five);
    assert Elements(fifteen) == {12, 15, 17} && Valid(fifteen);
    assert Elements(t.left) == {3, 5, 10, 12, 15, 17} && Valid(t.left);
    assert Elements(thirty) == {25, 30} && Valid(thirty);
  }
}
