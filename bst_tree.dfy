/**
 * The nodes of the binary search tree (BST.java with its BSTNode class) as an immutable
 * datatype, and the recursive algorithms of BST.java as functions over it.
 */
module BstTree {
  import opened Wrappers

  datatype Tree = Nil | Node(data: int, left: Tree, right: Tree)

  function Elements(t: Tree): set<int>
  {
    if t.Nil? then {} else Elements(t.left) + {t.data} + Elements(t.right)
  }

  /** The values of the nodes, counted with multiplicity. */
  function Values(t: Tree): multiset<int>
  {
    if t.Nil? then multiset{} else Values(t.left) + multiset{t.data} + Values(t.right)
  }

  function NodeCount(t: Tree): nat
  {
    if t.Nil? then 0 else NodeCount(t.left) + 1 + NodeCount(t.right)
  }

  /** Search order: everything left of a node is smaller, everything right is larger. */
  ghost predicate Ordered(t: Tree)
  {
    t.Nil? ||
    (Ordered(t.left) && Ordered(t.right) &&
     (forall y :: y in Elements(t.left) ==> y < t.data) &&
     (forall y :: y in Elements(t.right) ==> t.data < y))
  }

  /** `s` occurs in `t` as the subtree rooted at one of its nodes (or is `t` itself). */
  ghost predicate IsSubtree(s: Tree, t: Tree)
  {
    s == t || (t.Node? && (IsSubtree(s, t.left) || IsSubtree(s, t.right)))
  }

  lemma {:induction false} NodeCountIsSize(t: Tree)
    requires Ordered(t)
    ensures NodeCount(t) == |Elements(t)|
  {
    if t.Node? {
      NodeCountIsSize(t.left);
      NodeCountIsSize(t.right);
      var l, r := Elements(t.left), Elements(t.right);
      assert l * r == {} by {
        forall y | y in l ensures y !in r {
          assert y < t.data;
        }
      }
      assert (l + {t.data}) * r == {};
    }
  }

  /** In an ordered tree a value smaller than the root can only be on the left, and so on. */
  lemma SearchSide(t: Tree, x: int)
    requires t.Node?
    ensures Ordered(t) && x in Elements(t) && x < t.data ==> x in Elements(t.left)
    ensures Ordered(t) && x in Elements(t) && x > t.data ==> x in Elements(t.right)
  {
    if Ordered(t) && x in Elements(t) {
      assert x in Elements(t.left) || x == t.data || x in Elements(t.right);
    }
  }

  // ---------------------------------------------------------------------------------------
  // Add, remove, find.

  /** BST.java:91-104: the value becomes a new leaf unless it is already present. */
  function Insert(t: Tree, x: int): (r: Tree)
    ensures Elements(r) == Elements(t) + {x}
    ensures Ordered(t) ==> Ordered(r)
    ensures r.Node?
  {
    if t.Nil? then Node(x, Nil, Nil)
    else if x < t.data then Node(t.data, Insert(t.left, x), t.right)
    else if x > t.data then Node(t.data, t.left, Insert(t.right, x))
    else t
  }

  /** Adding a value that is already stored leaves the tree as it was. */
  lemma {:induction false} InsertPresentIsIdentity(t: Tree, x: int)
    requires Ordered(t) && x in Elements(t)
    ensures Insert(t, x) == t
  {
    SearchSide(t, x);
    if x < t.data {
      InsertPresentIsIdentity(t.left, x);
    } else if x > t.data {
      InsertPresentIsIdentity(t.right, x);
    }
  }

  /** BST.java:179-184: the leftmost value, the smallest in an ordered tree. */
  function Min(t: Tree): (m: int)
    requires t.Node?
    ensures m in Elements(t)
    ensures Ordered(t) ==> forall y :: y in Elements(t) ==> m <= y
  {
    if t.left.Nil? then t.data else Min(t.left)
  }

  /**
   * BST.java:152-171: a node with at most one child is replaced by the other child; a node
   * with two children takes its successor's value, which is then deleted from the right.
   */
  function Delete(t: Tree, x: int): (r: Tree)
    ensures Elements(r) <= Elements(t)
    ensures Ordered(t) ==> Ordered(r) && Elements(r) == Elements(t) - {x}
  {
    if t.Nil? then Nil
    else if x < t.data then Node(t.data, Delete(t.left, x), t.right)
    else if x > t.data then Node(t.data, t.left, Delete(t.right, x))
    else if t.left.Nil? then t.right
    else if t.right.Nil? then t.left
    else
      var m := Min(t.right);
      Node(m, t.left, Delete(t.right, m))
  }

  /** BST.java:240-252: the stored value equal to `x`, if the search path reaches it. */
  function Find(t: Tree, x: int): (r: Option<int>)
    ensures r.Some? ==> r.value == x && x in Elements(t)
    ensures Ordered(t) && x in Elements(t) ==> r.Some?
  {
    if t.Nil? then None
    else
      SearchSide(t, x);
      if x == t.data then Some(t.data)
      else if x < t.data then Find(t.left, x)
      else Find(t.right, x)
  }

  // ---------------------------------------------------------------------------------------
  // Depth-first traversals and height.

  /** BST.java:272-279: root, then left subtree, then right subtree. */
  function PreOrder(t: Tree): seq<int>
  {
    if t.Nil? then [] else [t.data] + PreOrder(t.left) + PreOrder(t.right)
  }

  /** BST.java:302-309: left subtree, root, right subtree. */
  function InOrder(t: Tree): seq<int>
  {
    if t.Nil? then [] else InOrder(t.left) + [t.data] + InOrder(t.right)
  }

  /** BST.java:332-339: left subtree, right subtree, then root. */
  function PostOrder(t: Tree): seq<int>
  {
    if t.Nil? then [] else PostOrder(t.left) + PostOrder(t.right) + [t.data]
  }

  /** Each depth-first traversal lists every node exactly once. */
  lemma TraversalsArePermutations(t: Tree)
    ensures multiset(PreOrder(t)) == Values(t)
    ensures multiset(InOrder(t)) == Values(t)
    ensures multiset(PostOrder(t)) == Values(t)
  {
    PreOrderValues(t);
    InOrderValues(t);
    PostOrderValues(t);
  }

  lemma {:induction false} PreOrderValues(t: Tree)
    ensures multiset(PreOrder(t)) == Values(t)
  {
    if t.Node? {
      PreOrderValues(t.left);
      PreOrderValues(t.right);
      assert PreOrder(t) == [t.data] + PreOrder(t.left) + PreOrder(t.right);
    }
  }

  lemma {:induction false} InOrderValues(t: Tree)
    ensures multiset(InOrder(t)) == Values(t)
  {
    if t.Node? {
      InOrderValues(t.left);
      InOrderValues(t.right);
      assert InOrder(t) == InOrder(t.left) + [t.data] + InOrder(t.right);
    }
  }

  lemma {:induction false} PostOrderValues(t: Tree)
    ensures multiset(PostOrder(t)) == Values(t)
  {
    if t.Node? {
      PostOrderValues(t.left);
      PostOrderValues(t.right);
      assert PostOrder(t) == PostOrder(t.left) + PostOrder(t.right) + [t.data];
    }
  }

  /** The in-order traversal of an ordered tree is strictly increasing. */
  lemma {:induction false} InOrderSorted(t: Tree)
    requires Ordered(t)
    ensures forall i, j :: 0 <= i < j < |InOrder(t)| ==> InOrder(t)[i] < InOrder(t)[j]
    ensures forall y :: y in InOrder(t) <==> y in Elements(t)
  {
    if t.Node? {
      InOrderSorted(t.left);
      InOrderSorted(t.right);
      var a, b := InOrder(t.left), InOrder(t.right);
      var s := InOrder(t);
      assert s == a + [t.data] + b;
      forall i, j | 0 <= i < j < |s| ensures s[i] < s[j] {
        if j < |a| {
        } else if i < |a| {
          assert s[i] in Elements(t.left);
          if j > |a| {
            assert s[j] == b[j - |a| - 1];
            assert s[j] in Elements(t.right);
          }
        } else if i == |a| {
          assert s[j] == b[j - |a| - 1];
          assert s[j] in Elements(t.right);
        } else {
          assert s[i] == b[i - |a| - 1] && s[j] == b[j - |a| - 1];
        }
      }
    }
  }

  function Pow2(n: nat): (p: nat)
    ensures p >= 1
  {
    if n == 0 then 1 else 2 * Pow2(n - 1)
  }

  lemma {:induction false} Pow2Monotone(a: nat, b: nat)
    requires a <= b
    ensures Pow2(a) <= Pow2(b)
    decreases b
  {
    if a < b {
      Pow2Monotone(a, b - 1);
    }
  }

  /**
   * BST.java:398-406: -1 for the empty tree, otherwise one more than the taller child.  A tree
   * of height h has between h + 1 and 2^(h+1) - 1 nodes.
   */
  function Height(t: Tree): (h: int)
    ensures h >= -1 && (t.Node? <==> h >= 0)
    ensures h + 1 <= NodeCount(t) < Pow2(h + 1)
  {
    if t.Nil? then -1
    else
      var lh, rh := Height(t.left), Height(t.right);
      var h := if lh < rh then rh + 1 else lh + 1;
      NodeCountBounds(t, lh, rh, h);
      h
  }

  /** The node-count bounds of the children give those of the node. */
  lemma NodeCountBounds(t: Tree, lh: int, rh: int, h: int)
    requires t.Node? && lh >= -1 && rh >= -1 && h == (if lh < rh then rh + 1 else lh + 1)
    requires lh + 1 <= NodeCount(t.left) < Pow2(lh + 1)
    requires rh + 1 <= NodeCount(t.right) < Pow2(rh + 1)
    ensures h + 1 <= NodeCount(t) < Pow2(h + 1)
  {
    Pow2Monotone(lh + 1, h);
    Pow2Monotone(rh + 1, h);
    assert Pow2(h + 1) == 2 * Pow2(h);
    assert NodeCount(t) == NodeCount(t.left) + 1 + NodeCount(t.right);
  }

  // ---------------------------------------------------------------------------------------
  // Level order (BST.java:357-375).

  ghost predicate NoNil(f: seq<Tree>)
  {
    forall i :: 0 <= i < |f| ==> f[i].Node?
  }

  function ForestSize(f: seq<Tree>): nat
  {
    if f == [] then 0 else NodeCount(f[0]) + ForestSize(f[1..])
  }

  lemma {:induction false} ForestSizeAppend(f: seq<Tree>, g: seq<Tree>)
    ensures ForestSize(f + g) == ForestSize(f) + ForestSize(g)
  {
    if f == [] {
      assert f + g == g;
    } else {
      assert (f + g)[0] == f[0] && (f + g)[1..] == f[1..] + g;
      ForestSizeAppend(f[1..], g);
    }
  }

  /** The children of a node that the loop puts in the queue: the present ones, left first. */
  function Kids(n: Tree): (k: seq<Tree>)
    requires n.Node?
    ensures NoNil(k) && ForestSize(k) == NodeCount(n) - 1
  {
    if n.left.Node? && n.right.Node? then
      var k := [n.left, n.right];
      assert k[1..] == [n.right] && [n.right][1..] == [];
      assert ForestSize([n.right]) == NodeCount(n.right);
      assert ForestSize(k) == NodeCount(n.left) + NodeCount(n.right);
      k
    else if n.left.Node? then [n.left]
    else if n.right.Node? then [n.right]
    else []
  }

  /** The values at the roots of a forest, left to right. */
  function Roots(f: seq<Tree>): seq<int>
    requires NoNil(f)
  {
    if f == [] then [] else [f[0].data] + Roots(f[1..])
  }

  /** The forest of the next level: the children of every root, left to right. */
  function NextLevel(f: seq<Tree>): (g: seq<Tree>)
    requires NoNil(f)
    ensures NoNil(g) && ForestSize(g) + |f| == ForestSize(f)
  {
    if f == [] then []
    else
      ForestSizeAppend(Kids(f[0]), NextLevel(f[1..]));
      Kids(f[0]) + NextLevel(f[1..])
  }

  /** Level by level: the roots of the forest, then the level order of the next level. */
  function LevelsFrom(f: seq<Tree>): seq<int>
    requires NoNil(f)
    decreases ForestSize(f)
  {
    if f == [] then [] else Roots(f) + LevelsFrom(NextLevel(f))
  }

  function LevelOrder(t: Tree): seq<int>
  {
    if t.Nil? then [] else LevelsFrom([t])
  }

  /** What the loop of BST.java:365-374 emits from a given queue. */
  function QueueOrder(q: seq<Tree>): seq<int>
    requires NoNil(q)
    decreases ForestSize(q)
  {
    if q == [] then []
    else
      ForestSizeAppend(q[1..], Kids(q[0]));
      [q[0].data] + QueueOrder(q[1..] + Kids(q[0]))
  }

  /** One poll of the queue: the front node is emitted and its children join the back. */
  lemma QueueStep(q: seq<Tree>)
    requires NoNil(q) && q != []
    ensures NoNil(q[1..] + Kids(q[0]))
    ensures ForestSize(q[1..] + Kids(q[0])) < ForestSize(q)
    ensures QueueOrder(q) == [q[0].data] + QueueOrder(q[1..] + Kids(q[0]))
  {
    ForestSizeAppend(q[1..], Kids(q[0]));
  }

  /** Draining a queue `f + g` emits the roots of `f`, then what `g + NextLevel(f)` emits. */
  lemma {:induction false} QueueSplit(f: seq<Tree>, g: seq<Tree>)
    requires NoNil(f) && NoNil(g)
    ensures QueueOrder(f + g) == Roots(f) + QueueOrder(g + NextLevel(f))
    decreases |f|
  {
    if f == [] {
      assert f + g == g && g + NextLevel(f) == g;
    } else {
      var a := f[0];
      var rest := f[1..];
      var g' := g + Kids(a);
      QueueFront(f, g);
      QueueSplit(rest, g');
      RootsFront(f);
      NextLevelFront(f);
      AppendAssoc(g, Kids(a), NextLevel(rest));
      var later := QueueOrder(g + NextLevel(f));
      AppendAssoc([a.data], Roots(rest), later);
    }
  }

  lemma AppendAssoc<T>(a: seq<T>, b: seq<T>, c: seq<T>)
    ensures a + (b + c) == (a + b) + c
  {
  }

  /** Polling the front of `f + g` leaves `f[1..] + (g + Kids(f[0]))`. */
  lemma QueueFront(f: seq<Tree>, g: seq<Tree>)
    requires NoNil(f) && NoNil(g) && f != []
    ensures NoNil(g + Kids(f[0])) && NoNil(f[1..])
    ensures QueueOrder(f + g) == [f[0].data] + QueueOrder(f[1..] + (g + Kids(f[0])))
  {
    var q := f + g;
    assert q[0] == f[0] && q[1..] == f[1..] + g;
    QueueStep(q);
    AppendAssoc(f[1..], g, Kids(f[0]));
    NoNilAppend(g, Kids(f[0]));
  }

  lemma NoNilAppend(f: seq<Tree>, g: seq<Tree>)
    requires NoNil(f) && NoNil(g)
    ensures NoNil(f + g)
  {
  }

  lemma RootsFront(f: seq<Tree>)
    requires NoNil(f) && f != []
    ensures Roots(f) == [f[0].data] + Roots(f[1..])
  {
  }

  lemma NextLevelFront(f: seq<Tree>)
    requires NoNil(f) && f != []
    ensures NextLevel(f) == Kids(f[0]) + NextLevel(f[1..])
  {
  }

  /** The FIFO queue produces the level-by-level order. */
  lemma {:induction false} QueueIsLevels(f: seq<Tree>)
    requires NoNil(f)
    ensures QueueOrder(f) == LevelsFrom(f)
    decreases ForestSize(f)
  {
    if f != [] {
      QueueSplit(f, []);
      assert f + [] == f && [] + NextLevel(f) == NextLevel(f);
      QueueIsLevels(NextLevel(f));
    }
  }

  function ForestValues(f: seq<Tree>): multiset<int>
  {
    if f == [] then multiset{} else Values(f[0]) + ForestValues(f[1..])
  }

  lemma {:induction false} ForestValuesAppend(f: seq<Tree>, g: seq<Tree>)
    ensures ForestValues(f + g) == ForestValues(f) + ForestValues(g)
  {
    if f == [] {
      assert f + g == g;
    } else {
      assert (f + g)[0] == f[0] && (f + g)[1..] == f[1..] + g;
      ForestValuesAppend(f[1..], g);
    }
  }

  lemma {:induction false} NextLevelValues(f: seq<Tree>)
    requires NoNil(f)
    ensures multiset(Roots(f)) + ForestValues(NextLevel(f)) == ForestValues(f)
  {
    if f != [] {
      NextLevelValues(f[1..]);
      var n := f[0];
      ForestValuesAppend(Kids(n), NextLevel(f[1..]));
      KidsValues(n);
      assert NextLevel(f) == Kids(n) + NextLevel(f[1..]);
      assert Roots(f) == [n.data] + Roots(f[1..]);
    }
  }

  lemma ForestValuesOne(a: Tree)
    ensures ForestValues([a]) == Values(a)
  {
    assert [a][1..] == [];
  }

  lemma ForestValuesTwo(a: Tree, b: Tree)
    ensures ForestValues([a, b]) == Values(a) + Values(b)
  {
    assert [a, b][1..] == [b];
    ForestValuesOne(b);
  }

  lemma KidsValues(n: Tree)
    requires n.Node?
    ensures ForestValues(Kids(n)) + multiset{n.data} == Values(n)
  {
    var l, r := n.left, n.right;
    var d := multiset{n.data};
    assert Values(n) == Values(l) + d + Values(r);
    assert Values(Nil) == multiset{};
    if l.Node? && r.Node? {
      assert Kids(n) == [l, r];
      ForestValuesTwo(l, r);
      assert ForestValues(Kids(n)) == Values(l) + Values(r);
    } else if l.Node? {
      assert Kids(n) == [l];
      ForestValuesOne(l);
      assert ForestValues(Kids(n)) == Values(l) && Values(r) == multiset{};
    } else if r.Node? {
      assert Kids(n) == [r];
      ForestValuesOne(r);
      assert ForestValues(Kids(n)) == Values(r) && Values(l) == multiset{};
    } else {
      assert Kids(n) == [];
      assert ForestValues(Kids(n)) == multiset{} && Values(l) == Values(r) == multiset{};
    }
  }

  lemma {:induction false} LevelsFromValues(f: seq<Tree>)
    requires NoNil(f)
    ensures multiset(LevelsFrom(f)) == ForestValues(f)
    decreases ForestSize(f)
  {
    if f != [] {
      NextLevelValues(f);
      LevelsFromValues(NextLevel(f));
    }
  }

  /** The level-order traversal lists every node exactly once, the root first. */
  lemma LevelOrderIsPermutation(t: Tree)
    ensures multiset(LevelOrder(t)) == Values(t)
    ensures t.Node? ==> LevelOrder(t)[0] == t.data
  {
    if t.Node? {
      LevelsFromValues([t]);
      assert ForestValues([t]) == Values(t);
      assert Roots([t]) == [t.data];
    }
  }

  // ---------------------------------------------------------------------------------------
  // Common ancestor and paths (BST.java:474-541).

  /**
   * BST.java:505-520: the first node on the search path that does not have both values on the
   * same side.  In an ordered tree holding both it is their deepest common ancestor: it holds
   * both, lies between them, and neither child holds both.
   */
  function FindLCA(t: Tree, a: int, b: int): (r: Option<Tree>)
    ensures r.Some? ==> r.value.Node? && IsSubtree(r.value, t)
    ensures Ordered(t) && a in Elements(t) && b in Elements(t) ==>
              r.Some? && Ordered(r.value) && a in Elements(r.value) && b in Elements(r.value) &&
              (a <= r.value.data <= b || b <= r.value.data <= a) &&
              !(a in Elements(r.value.left) && b in Elements(r.value.left)) &&
              !(a in Elements(r.value.right) && b in Elements(r.value.right))
  {
    if t.Nil? then None
    else
      SearchSide(t, a);
      SearchSide(t, b);
      if a < t.data && b < t.data then FindLCA(t.left, a, b)
      else if a > t.data && b > t.data then FindLCA(t.right, a, b)
      else Some(t)
  }

  /** `p` lists the values on a downward path from the root of `t` to a node holding `x`, in reverse. */
  ghost predicate UpPath(t: Tree, x: int, p: seq<int>)
    decreases t
  {
    t.Node? && |p| >= 1 && p[|p| - 1] == t.data &&
    ((|p| == 1 && t.data == x) ||
     (|p| > 1 && (UpPath(t.left, x, p[..|p| - 1]) || UpPath(t.right, x, p[..|p| - 1]))))
  }

  /**
   * BST.java:530-541: searches the whole subtree (not only the search path) and, when `x` is
   * found, has appended the values from `x`'s node up to the root of the subtree.
   */
  function FindAncestor(t: Tree, x: int): (r: Option<seq<int>>)
    ensures r.Some? <==> x in Elements(t)
    ensures r.Some? ==> UpPath(t, x, r.value)
  {
    if t.Nil? then None
    else if t.data == x then Some([t.data])
    else
      match FindAncestor(t.left, x)
      case Some(p) =>
        assert (p + [t.data])[..|p|] == p;
        Some(p + [t.data])
      case None =>
        match FindAncestor(t.right, x)
        case Some(p) =>
          assert (p + [t.data])[..|p|] == p;
          Some(p + [t.data])
        case None => None
  }

  /** In an ordered tree an upward path starts at `x`, ends at the root and never repeats a value. */
  lemma {:induction false} UpPathShape(t: Tree, x: int, p: seq<int>)
    requires Ordered(t) && UpPath(t, x, p)
    ensures p[0] == x
    ensures forall i :: 0 <= i < |p| ==> p[i] in Elements(t)
    ensures forall i :: 0 <= i < |p| - 1 ==> p[i] != p[|p| - 1]
    ensures forall i :: 0 <= i < |p| - 1 ==> p[i] != p[i + 1]
    decreases t
  {
    if |p| > 1 {
      var q := p[..|p| - 1];
      var c := if UpPath(t.left, x, q) then t.left else t.right;
      UpPathShape(c, x, q);
      forall i | 0 <= i < |q| ensures p[i] in Elements(c) && p[i] != t.data {
        assert p[i] == q[i];
      }
    }
  }

  function Reverse(s: seq<int>): (r: seq<int>)
    ensures |r| == |s|
    ensures forall i :: 0 <= i < |s| ==> r[i] == s[|s| - 1 - i]
  {
    if s == [] then [] else Reverse(s[1..]) + [s[0]]
  }

  function PathOrEmpty(r: Option<seq<int>>): seq<int>
  {
    if r.Some? then r.value else []
  }

  /** The values of the list `reversePath` read from index `|reversePath| - 2` down to 0. */
  function DownFromSecondLast(s: seq<int>): (r: seq<int>)
    ensures |s| >= 1 ==> r == Reverse(s[..|s| - 1])
    ensures |s| == 0 ==> r == []
  {
    if |s| == 0 then [] else Reverse(s[..|s| - 1])
  }

  /**
   * BST.java:474-495 as written: the path to `d1` (ending at the common ancestor), the common
   * ancestor ADDED A SECOND TIME, then the path from below the ancestor down to `d2`.
   */
  function PathBetweenAsWritten(t: Tree, d1: int, d2: int): Result<seq<int>>
  {
    if Find(t, d1).None? || Find(t, d2).None? then Err(NoSuchElement)
    else
      match FindLCA(t, d1, d2)
      case None => Err(NoSuchElement)
      case Some(anc) =>
        Ok(PathOrEmpty(FindAncestor(anc, d1)) + [anc.data] + DownFromSecondLast(PathOrEmpty(FindAncestor(anc, d2))))
  }

  /** BST.java:443-461 as documented: the same without the second copy of the ancestor. */
  function PathBetween(t: Tree, d1: int, d2: int): Result<seq<int>>
  {
    if Find(t, d1).None? || Find(t, d2).None? then Err(NoSuchElement)
    else
      match FindLCA(t, d1, d2)
      case None => Err(NoSuchElement)
      case Some(anc) =>
        Ok(PathOrEmpty(FindAncestor(anc, d1)) + DownFromSecondLast(PathOrEmpty(FindAncestor(anc, d2))))
  }

  /** Both paths are errors exactly when one of the values is not stored. */
  lemma PathBetweenErrors(t: Tree, d1: int, d2: int)
    requires Ordered(t)
    ensures PathBetween(t, d1, d2).Err? <==> d1 !in Elements(t) || d2 !in Elements(t)
    ensures PathBetweenAsWritten(t, d1, d2).Err? <==> d1 !in Elements(t) || d2 !in Elements(t)
  {
  }

  /**
   * Joining two upward paths that meet at their last value, as the intended path does: the
   * first path, then the second one reversed without its last value.
   */
  lemma JoinPaths(p1: seq<int>, p2: seq<int>, s: set<int>)
    requires |p1| >= 1 && |p2| >= 1 && p1[|p1| - 1] == p2[|p2| - 1]
    requires forall i :: 0 <= i < |p1| - 1 ==> p1[i] != p1[i + 1]
    requires forall i :: 0 <= i < |p2| - 1 ==> p2[i] != p2[i + 1]
    requires forall i :: 0 <= i < |p1| ==> p1[i] in s
    requires forall i :: 0 <= i < |p2| ==> p2[i] in s
    ensures var p := p1 + DownFromSecondLast(p2);
            |p| == |p1| + |p2| - 1 && p[0] == p1[0] && p[|p| - 1] == p2[0] &&
            (forall i :: 0 <= i < |p| - 1 ==> p[i] != p[i + 1]) &&
            (forall i :: 0 <= i < |p| ==> p[i] in s)
  {
    var down := DownFromSecondLast(p2);
    var p := p1 + down;
    if |p2| > 1 {
      assert down[|down| - 1] == p2[0];
    }
    forall i | 0 <= i < |p| - 1 ensures p[i] != p[i + 1] {
      if i + 1 < |p1| {
      } else if i + 1 == |p1| {
        assert p[i + 1] == down[0] == p2[|p2| - 2];
      } else {
        var j := i - |p1|;
        assert p[i] == down[j] == p2[|p2| - 2 - j];
        assert p[i + 1] == down[j + 1] == p2[|p2| - 3 - j];
      }
    }
    forall i | 0 <= i < |p| ensures p[i] in s {
      if i >= |p1| {
        assert p[i] == p2[|p2| - 2 - (i - |p1|)];
      }
    }
  }

  /** The paths from the common ancestor down to each value. */
  lemma AncestorPaths(t: Tree, d1: int, d2: int)
    requires Ordered(t) && d1 in Elements(t) && d2 in Elements(t)
    ensures FindLCA(t, d1, d2).Some?
    ensures var anc := FindLCA(t, d1, d2).value;
            FindAncestor(anc, d1).Some? && FindAncestor(anc, d2).Some? &&
            PathBetween(t, d1, d2) ==
              Ok(FindAncestor(anc, d1).value + DownFromSecondLast(FindAncestor(anc, d2).value)) &&
            PathBetweenAsWritten(t, d1, d2) ==
              Ok(FindAncestor(anc, d1).value + [anc.data] + DownFromSecondLast(FindAncestor(anc, d2).value))
  {
  }

  /**
   * The intended path starts at `d1`, ends at `d2`, visits only stored values and never stays
   * on a value.
   */
  lemma PathBetweenShape(t: Tree, d1: int, d2: int)
    requires Ordered(t) && d1 in Elements(t) && d2 in Elements(t)
    ensures PathBetween(t, d1, d2).Ok?
    ensures var p := PathBetween(t, d1, d2).value;
            |p| >= 1 && p[0] == d1 && p[|p| - 1] == d2 &&
            (forall i :: 0 <= i < |p| ==> p[i] in Elements(t)) &&
            (forall i :: 0 <= i < |p| - 1 ==> p[i] != p[i + 1])
  {
    AncestorPaths(t, d1, d2);
    var anc := FindLCA(t, d1, d2).value;
    var p1 := FindAncestor(anc, d1).value;
    var p2 := FindAncestor(anc, d2).value;
    UpPathShape(anc, d1, p1);
    UpPathShape(anc, d2, p2);
    LcaInTree(anc, t);
    JoinPaths(p1, p2, Elements(t));
  }

  /**
   * The written path is one value longer than the intended one and stays on the common
   * ancestor for one step.
   */
  lemma PathBetweenAsWrittenRepeats(t: Tree, d1: int, d2: int)
    requires Ordered(t) && d1 in Elements(t) && d2 in Elements(t)
    ensures PathBetween(t, d1, d2).Ok? && PathBetweenAsWritten(t, d1, d2).Ok?
    ensures var w := PathBetweenAsWritten(t, d1, d2).value;
            |w| == |PathBetween(t, d1, d2).value| + 1 &&
            exists i :: 0 <= i < |w| - 1 && w[i] == w[i + 1]
  {
    AncestorPaths(t, d1, d2);
    var anc := FindLCA(t, d1, d2).value;
    var p1 := FindAncestor(anc, d1).value;
    var p2 := FindAncestor(anc, d2).value;
    var w := p1 + [anc.data] + DownFromSecondLast(p2);
    assert p1[|p1| - 1] == anc.data;
    assert w[|p1| - 1] == w[|p1|];
  }

  /** Every value of a subtree is a value of the tree. */
  lemma {:induction false} LcaInTree(s: Tree, t: Tree)
    requires IsSubtree(s, t)
    ensures Elements(s) <= Elements(t)
  {
    if s != t {
      if IsSubtree(s, t.left) {
        LcaInTree(s, t.left);
      } else {
        LcaInTree(s, t.right);
      }
    }
  }

  // ---------------------------------------------------------------------------------------
  // The example of BST.java:449-462.

  /** The tree of BST.java:450-460. */
  function PathExample(): Tree
  {
    var twelve := Node(12, Node(11, Node(10, Nil, Nil), Nil), Node(15, Nil, Nil));
    var twentyFive := Node(25, twelve, Node(37, Nil, Node(40, Nil, Nil)));
    Node(50, twentyFive, Node(75, Nil, Nil))
  }

  lemma ExampleAncestors()
    ensures FindAncestor(PathExample().left, 10) == Some([10, 11, 12, 25])
    ensures FindAncestor(PathExample().left, 40) == Some([40, 37, 25])
    ensures FindAncestor(PathExample(), 37) == Some([37, 25, 50])
  {
    var t := PathExample();
    var twentyFive := t.left;
    var twelve := twentyFive.left;
    assert FindAncestor(twelve.left.left, 10) == Some([10]);
    assert [10] + [11] == [10, 11];
    assert FindAncestor(twelve.left, 10) == Some([10, 11]);
    assert [10, 11] + [12] == [10, 11, 12];
    assert FindAncestor(twelve, 10) == Some([10, 11, 12]);
    assert [10, 11, 12] + [25] == [10, 11, 12, 25];
    assert FindAncestor(twentyFive.right.right, 40) == Some([40]);
    assert [40] + [37] == [40, 37];
    assert FindAncestor(twentyFive.right, 40) == Some([40, 37]);
    assert FindAncestor(twelve.left.left, 40) == None;
    assert FindAncestor(twelve.left, 40) == None;
    assert FindAncestor(twelve.right, 40) == None;
    assert FindAncestor(twelve, 40) == None;
    assert [40, 37] + [25] == [40, 37, 25];
    assert FindAncestor(twelve.left.left, 37) == None;
    assert FindAncestor(twelve.left, 37) == None;
    assert FindAncestor(twelve.right, 37) == None;
    assert FindAncestor(twelve, 37) == None;
    assert FindAncestor(t.left.right, 37) == Some([37]);
    assert [37] + [25] == [37, 25];
    assert FindAncestor(t.left, 37) == Some([37, 25]);
    assert [37, 25] + [50] == [37, 25, 50];
  }

  lemma PathExampleDeep()
    ensures PathBetween(PathExample(), 10, 40) == Ok([10, 11, 12, 25, 37, 40])
    ensures PathBetweenAsWritten(PathExample(), 10, 40) == Ok([10, 11, 12, 25, 25, 37, 40])
  {
    var t := PathExample();
    ExampleAncestors();
    assert Find(t, 10) == Some(10) && Find(t, 40) == Some(40);
    assert FindLCA(t, 10, 40) == Some(t.left);
    assert DownFromSecondLast([40, 37, 25]) == [37, 40];
    assert [10, 11, 12, 25] + [37, 40] == [10, 11, 12, 25, 37, 40];
    assert [10, 11, 12, 25] + [25] + [37, 40] == [10, 11, 12, 25, 25, 37, 40];
  }

  lemma PathExampleFromRoot()
    ensures PathBetween(PathExample(), 50, 37) == Ok([50, 25, 37])
  {
    var t := PathExample();
    ExampleAncestors();
    assert Find(t, 50) == Some(50) && Find(t, 37) == Some(37);
    assert FindLCA(t, 50, 37) == Some(t);
    assert FindAncestor(t, 50) == Some([50]);
    assert DownFromSecondLast([37, 25, 50]) == [25, 37];
    assert [50] + [25, 37] == [50, 25, 37];
  }

  lemma PathExampleSame()
    ensures PathBetween(PathExample(), 75, 75) == Ok([75])
    ensures PathBetweenAsWritten(PathExample(), 75, 75) == Ok([75, 75])
  {
    var t := PathExample();
    assert Find(t, 75) == Some(75);
    assert FindLCA(t, 75, 75) == Some(t.right);
    assert FindAncestor(t.right, 75) == Some([75]);
    assert DownFromSecondLast([75]) == [];
    assert [75] + [] == [75];
    assert [75] + [75] + [] == [75, 75];
  }
}
