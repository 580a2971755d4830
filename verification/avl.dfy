/**
 * The AVL tree (tree/avl_binary_tree/avg_binary_tree.py): insertion with
 * height bookkeeping and the four rotation cases, search, and a deletion
 * that splices in the in-order predecessor without rebalancing.
 */
module AvlTree {
  import opened Wrappers
  import opened BaseTree

  /** A node of the AVL tree carries its stored height. */
  type ATree = Tree<int>

  function Max(a: int, b: int): int
  {
    if a < b then b else a
  }

  /** `height`: 0 for an empty tree, else the stored height. */
  function Height(t: ATree): int
  {
    if t.Nil? then 0 else t.tag
  }

  /** `balance_factor`: left height minus right height. */
  function BalanceFactor(t: ATree): int
  {
    if t.Nil? then 0 else Height(t.left) - Height(t.right)
  }

  /** A node whose height is recomputed from its children. */
  function Join(l: ATree, v: int, r: ATree): (t: ATree)
    ensures Height(t) == Max(Height(l), Height(r)) + 1
  {
    Node(l, v, r, Max(Height(l), Height(r)) + 1)
  }

  /** Every stored height is at least 1, as every height the tree computes is. */
  ghost predicate PositiveHeights(t: ATree)
  {
    t.Node? ==> t.tag >= 1 && PositiveHeights(t.left) && PositiveHeights(t.right)
  }

  /** Heights are right and every balance factor lies in [-1, 1]. */
  ghost predicate Avl(t: ATree)
  {
    t.Node? ==>
      t.tag == Max(Height(t.left), Height(t.right)) + 1 &&
      -1 <= Height(t.left) - Height(t.right) <= 1 &&
      Avl(t.left) && Avl(t.right)
  }

  lemma {:induction false} AvlHeights(t: ATree)
    requires Avl(t)
    ensures PositiveHeights(t) && Height(t) >= 0
  {
    if t.Node? {
      AvlHeights(t.left);
      AvlHeights(t.right);
    }
  }

  /** `right_rotate`: the left child becomes the subtree root; both heights are recomputed. */
  function RightRotate(t: ATree): (r: ATree)
    requires t.Node? && t.left.Node?
    ensures InOrder(r) == InOrder(t)
    ensures r.Node? && r.value == t.left.value && r.right.Node? && r.right.value == t.value
  {
    Join(t.left.left, t.left.value, Join(t.left.right, t.value, t.right))
  }

  /** `left_rotate`: the mirror image. */
  function LeftRotate(t: ATree): (r: ATree)
    requires t.Node? && t.right.Node?
    ensures InOrder(r) == InOrder(t)
    ensures r.Node? && r.value == t.right.value && r.left.Node? && r.left.value == t.value
  {
    Join(Join(t.left, t.value, t.right.left), t.right.value, t.right.right)
  }

  /**
   * The heights `__put` compares at a node are never negative, so that
   * every rotation it chooses finds the child it turns about.
   */
  ghost predicate Rotatable(t: ATree)
  {
    t.Node? && Height(t.left) >= 0 && Height(t.right) >= 0 &&
    (t.left.Node? ==> Height(t.left.left) >= 0 && Height(t.left.right) >= 0) &&
    (t.right.Node? ==> Height(t.right.left) >= 0 && Height(t.right.right) >= 0)
  }

  /**
   * The rotation choice of `__put` at a node whose height was just
   * recomputed: a left-heavy node turns right (after turning its left child
   * left when that child leans right), and a right-heavy node the mirror way.
   */
  function Rebalance(t: ATree): (r: ATree)
    requires Rotatable(t)
    ensures r.Node? && InOrder(r) == InOrder(t)
  {
    var factor := BalanceFactor(t);
    if factor > 1 && BalanceFactor(t.left) >= 0 then RightRotate(t)
    else if factor > 1 && BalanceFactor(t.left) < 0 then RightRotate(t.(left := LeftRotate(t.left)))
    else if factor < -1 && BalanceFactor(t.right) <= 0 then LeftRotate(t)
    else if factor < -1 && BalanceFactor(t.right) > 0 then LeftRotate(t.(right := RightRotate(t.right)))
    else t
  }

  /** `__put`: insert below, recompute this node's height, rebalance. */
  function Put(t: ATree, v: int): (r: ATree)
    requires PositiveHeights(t)
    ensures r.Node? && PositiveHeights(r)
    ensures Keys(r) == Keys(t) + {v}
    ensures Ordered(t) ==> Ordered(r)
  {
    match t
    case Nil => Node(Nil, v, Nil, 1)
    case Node(l, x, rt, _) =>
      var n :=
        if x > v then Join(Put(l, v), x, rt)
        else if x < v then Join(l, x, Put(rt, v))
        else Join(l, x, rt);
      PutKeys(t, v, n);
      RebalancePositive(n);
      Rebalance(n)
  }

  lemma PutKeys(t: ATree, v: int, n: ATree)
    requires t.Node? && n.Node? && n.value == t.value
    requires t.value > v ==> n.right == t.right && Keys(n.left) == Keys(t.left) + {v} && (Ordered(t.left) ==> Ordered(n.left))
    requires t.value < v ==> n.left == t.left && Keys(n.right) == Keys(t.right) + {v} && (Ordered(t.right) ==> Ordered(n.right))
    requires t.value == v ==> n.left == t.left && n.right == t.right
    ensures Keys(n) == Keys(t) + {v}
    ensures Ordered(t) ==> Ordered(n)
  {
  }

  lemma JoinPositive(l: ATree, v: int, r: ATree)
    requires PositiveHeights(l) && PositiveHeights(r)
    ensures PositiveHeights(Join(l, v, r))
  {
  }

  /** Rebalancing a node over positive-height subtrees keeps heights positive, values and order. */
  lemma RebalancePositive(n: ATree)
    requires n.Node? && PositiveHeights(n.left) && PositiveHeights(n.right) && n.tag >= 1
    ensures Rotatable(n)
    ensures PositiveHeights(Rebalance(n))
    ensures Keys(Rebalance(n)) == Keys(n)
    ensures Ordered(n) ==> Ordered(Rebalance(n))
  {
    var r := Rebalance(n);
    SameInOrder(n, r);
    var factor := BalanceFactor(n);
    var l, rt := n.left, n.right;
    if factor > 1 && BalanceFactor(l) >= 0 {
      JoinPositive(l.right, n.value, rt);
      JoinPositive(l.left, l.value, Join(l.right, n.value, rt));
    } else if factor > 1 && BalanceFactor(l) < 0 {
      var b := l.right;
      JoinPositive(l.left, l.value, b.left);
      JoinPositive(b.right, n.value, rt);
      JoinPositive(Join(l.left, l.value, b.left), b.value, Join(b.right, n.value, rt));
      assert r == Join(Join(l.left, l.value, b.left), b.value, Join(b.right, n.value, rt));
    } else if factor < -1 && BalanceFactor(rt) <= 0 {
      JoinPositive(l, n.value, rt.left);
      JoinPositive(Join(l, n.value, rt.left), rt.value, rt.right);
    } else if factor < -1 && BalanceFactor(rt) > 0 {
      var b := rt.left;
      JoinPositive(l, n.value, b.left);
      JoinPositive(b.right, rt.value, rt.right);
      JoinPositive(Join(l, n.value, b.left), b.value, Join(b.right, rt.value, rt.right));
      assert r == Join(Join(l, n.value, b.left), b.value, Join(b.right, rt.value, rt.right));
    }
  }

  // ---------------------------------------------------------------------------
  // Balance
  // ---------------------------------------------------------------------------

  /** Joining two AVL trees whose heights differ by at most one gives an AVL tree. */
  lemma JoinAvl(l: ATree, v: int, r: ATree)
    requires Avl(l) && Avl(r) && -1 <= Height(l) - Height(r) <= 1
    ensures Avl(Join(l, v, r))
  {
  }

  /** A node over two AVL subtrees is one `__put` can rebalance. */
  lemma AvlRotatable(l: ATree, v: int, r: ATree)
    requires Avl(l) && Avl(r)
    ensures Rotatable(Join(l, v, r))
  {
    AvlHeights(l);
    AvlHeights(r);
    if l.Node? {
      AvlHeights(l.left);
      AvlHeights(l.right);
    }
    if r.Node? {
      AvlHeights(r.left);
      AvlHeights(r.right);
    }
  }

  /**
   * A node left-heavy by two, over AVL subtrees, is AVL after the rotation
   * `__put` chooses, and its height is then that of its left subtree or one
   * more.
   */
  lemma LeftHeavyFixed(l: ATree, v: int, r: ATree)
    requires Avl(l) && Avl(r) && Height(l) == Height(r) + 2
    ensures Rotatable(Join(l, v, r))
    ensures Avl(Rebalance(Join(l, v, r)))
    ensures Height(l) <= Height(Rebalance(Join(l, v, r))) <= Height(l) + 1
  {
    AvlRotatable(l, v, r);
    if BalanceFactor(l) >= 0 {
      LeftLeftFixed(l, v, r);
    } else {
      LeftRightFixed(l, v, r);
    }
  }

  /** The left-left case: one right rotation. */
  lemma LeftLeftFixed(l: ATree, v: int, r: ATree)
    requires Avl(l) && Avl(r) && Height(l) == Height(r) + 2 && BalanceFactor(l) >= 0
    requires Rotatable(Join(l, v, r))
    ensures Avl(Rebalance(Join(l, v, r)))
    ensures Height(l) <= Height(Rebalance(Join(l, v, r))) <= Height(l) + 1
  {
    AvlHeights(l.left);
    AvlHeights(l.right);
    JoinAvl(l.right, v, r);
    JoinAvl(l.left, l.value, Join(l.right, v, r));
  }

  /** The left-right case: a left rotation of the left child, then a right rotation. */
  lemma LeftRightFixed(l: ATree, v: int, r: ATree)
    requires Avl(l) && Avl(r) && Height(l) == Height(r) + 2 && BalanceFactor(l) < 0
    requires Rotatable(Join(l, v, r))
    ensures Avl(Rebalance(Join(l, v, r)))
    ensures Height(l) <= Height(Rebalance(Join(l, v, r))) <= Height(l) + 1
  {
    var h := Height(r);
    AvlHeights(l.left);
    AvlHeights(l.right);
    var b := l.right;
    assert Height(l.left) == h && Height(b) == h + 1;
    AvlHeights(b.left);
    AvlHeights(b.right);
    assert h - 1 <= Height(b.left) <= h && h - 1 <= Height(b.right) <= h;
    var x, y := Join(l.left, l.value, b.left), Join(b.right, v, r);
    JoinAvl(l.left, l.value, b.left);
    JoinAvl(b.right, v, r);
    assert Height(x) == h + 1 && Height(y) == h + 1;
    JoinAvl(x, b.value, y);
    assert Rebalance(Join(l, v, r)) == Join(x, b.value, y);
  }

  /** The mirror image. */
  lemma RightHeavyFixed(l: ATree, v: int, r: ATree)
    requires Avl(l) && Avl(r) && Height(r) == Height(l) + 2
    ensures Rotatable(Join(l, v, r))
    ensures Avl(Rebalance(Join(l, v, r)))
    ensures Height(r) <= Height(Rebalance(Join(l, v, r))) <= Height(r) + 1
  {
    AvlRotatable(l, v, r);
    if BalanceFactor(r) <= 0 {
      RightRightFixed(l, v, r);
    } else {
      RightLeftFixed(l, v, r);
    }
  }

  /** The right-right case: one left rotation. */
  lemma RightRightFixed(l: ATree, v: int, r: ATree)
    requires Avl(l) && Avl(r) && Height(r) == Height(l) + 2 && BalanceFactor(r) <= 0
    requires Rotatable(Join(l, v, r))
    ensures Avl(Rebalance(Join(l, v, r)))
    ensures Height(r) <= Height(Rebalance(Join(l, v, r))) <= Height(r) + 1
  {
    AvlHeights(r.left);
    AvlHeights(r.right);
    JoinAvl(l, v, r.left);
    JoinAvl(Join(l, v, r.left), r.value, r.right);
  }

  /** The right-left case: a right rotation of the right child, then a left rotation. */
  lemma RightLeftFixed(l: ATree, v: int, r: ATree)
    requires Avl(l) && Avl(r) && Height(r) == Height(l) + 2 && BalanceFactor(r) > 0
    requires Rotatable(Join(l, v, r))
    ensures Avl(Rebalance(Join(l, v, r)))
    ensures Height(r) <= Height(Rebalance(Join(l, v, r))) <= Height(r) + 1
  {
    var h := Height(l);
    AvlHeights(r.left);
    AvlHeights(r.right);
    var b := r.left;
    assert Height(r.right) == h && Height(b) == h + 1;
    AvlHeights(b.left);
    AvlHeights(b.right);
    assert h - 1 <= Height(b.left) <= h && h - 1 <= Height(b.right) <= h;
    var x, y := Join(l, v, b.left), Join(b.right, r.value, r.right);
    JoinAvl(l, v, b.left);
    JoinAvl(b.right, r.value, r.right);
    assert Height(x) == h + 1 && Height(y) == h + 1;
    JoinAvl(x, b.value, y);
    assert Rebalance(Join(l, v, r)) == Join(x, b.value, y);
  }

  /** A node whose AVL subtrees differ in height by at most one is left alone. */
  lemma BalancedUntouched(l: ATree, v: int, r: ATree)
    requires Avl(l) && Avl(r) && -1 <= Height(l) - Height(r) <= 1
    ensures Rotatable(Join(l, v, r))
    ensures Rebalance(Join(l, v, r)) == Join(l, v, r)
  {
    AvlRotatable(l, v, r);
  }

  /**
   * Replacing the left subtree `l` of an AVL node by an AVL tree `l2` that is
   * as high or one higher, then rebalancing, gives an AVL tree as high as
   * the old node or one higher.
   */
  lemma LeftGrown(l: ATree, l2: ATree, v: int, r: ATree)
    requires Avl(Join(l, v, r)) && Avl(l2) && Height(l) <= Height(l2) <= Height(l) + 1
    ensures Rotatable(Join(l2, v, r))
    ensures Avl(Rebalance(Join(l2, v, r)))
    ensures Height(Join(l, v, r)) <= Height(Rebalance(Join(l2, v, r))) <= Height(Join(l, v, r)) + 1
  {
    AvlRotatable(l2, v, r);
    if Height(l2) - Height(r) <= 1 {
      JoinAvl(l2, v, r);
      BalancedUntouched(l2, v, r);
    } else {
      LeftHeavyFixed(l2, v, r);
    }
  }

  /** The mirror image. */
  lemma RightGrown(l: ATree, r: ATree, r2: ATree, v: int)
    requires Avl(Join(l, v, r)) && Avl(r2) && Height(r) <= Height(r2) <= Height(r) + 1
    ensures Rotatable(Join(l, v, r2))
    ensures Avl(Rebalance(Join(l, v, r2)))
    ensures Height(Join(l, v, r)) <= Height(Rebalance(Join(l, v, r2))) <= Height(Join(l, v, r)) + 1
  {
    AvlRotatable(l, v, r2);
    if Height(r2) - Height(l) <= 1 {
      JoinAvl(l, v, r2);
      BalancedUntouched(l, v, r2);
    } else {
      RightHeavyFixed(l, v, r2);
    }
  }

  /**
   * `__put` keeps an AVL tree AVL, and the height grows by at most one.
   */
  lemma {:induction false} PutAvl(t: ATree, v: int)
    requires Avl(t)
    ensures PositiveHeights(t)
    ensures Avl(Put(t, v))
    ensures Height(t) <= Height(Put(t, v)) <= Height(t) + 1
  {
    AvlHeights(t);
    match t
    case Nil =>
    case Node(l, x, rt, _) =>
      assert t == Join(l, x, rt);
      if x > v {
        PutAvl(l, v);
        LeftGrown(l, Put(l, v), x, rt);
      } else if x < v {
        PutAvl(rt, v);
        RightGrown(l, rt, Put(rt, v), x);
      } else {
        BalancedUntouched(l, x, rt);
      }
  }

  // ---------------------------------------------------------------------------
  // Deletion
  // ---------------------------------------------------------------------------

  /**
   * What replaces the deleted node `t` under its parent (or as the root).
   * With two children its in-order predecessor takes its place: when the
   * predecessor is the left child itself it only adopts the right subtree;
   * otherwise it is first unlinked from below (its left subtree taking its
   * place) and then adopts both subtrees. The predecessor keeps its stored
   * height. With one child, that child takes its place.
   */
  function Spliced(t: ATree): ATree
    requires t.Node?
  {
    if t.left.Node? && t.right.Node? then
      if t.left.right.Nil? then t.left.(right := t.right)
      else
        var p := RightLast(t.left);
        Node(RemoveLast(t.left), p.value, t.right, p.tag)
    else if t.left.Node? then t.left
    else t.right
  }

  /** `_delete`: the new tree and the removed node's value, if any. */
  function Deleted(t: ATree, v: int): (ATree, Option<int>)
  {
    match t
    case Nil => (Nil, None)
    case Node(l, x, r, _) =>
      if x == v then (Spliced(t), Some(x))
      else if x > v then
        var (l2, d) := Deleted(l, v);
        (t.(left := l2), d)
      else
        var (r2, d) := Deleted(r, v);
        (t.(right := r2), d)
  }

  /** The spliced subtree keeps the in-order sequence of the deleted node's two subtrees. */
  lemma SplicedInOrder(t: ATree)
    requires t.Node?
    ensures InOrder(Spliced(t)) == InOrder(t.left) + InOrder(t.right)
    ensures PositiveHeights(t) ==> PositiveHeights(Spliced(t))
  {
    var l, r := t.left, t.right;
    if l.Node? && r.Node? {
      if l.right.Nil? {
        assert Spliced(t) == Node(l.left, l.value, r, l.tag);
        assert InOrder(l) == InOrder(l.left) + [l.value];
        assert PositiveHeights(t) ==> PositiveHeights(l);
      } else {
        var p := RightLast(l);
        assert Spliced(t) == Node(RemoveLast(l), p.value, r, p.tag);
        PredecessorSpliced(l, r);
      }
    } else if l.Node? {
      assert Spliced(t) == l;
    } else {
      assert Spliced(t) == r;
    }
  }

  /** The predecessor, lifted out of the left subtree `l`, over `l` without it and `r`. */
  lemma PredecessorSpliced(l: ATree, r: ATree)
    requires l.Node?
    ensures var p := RightLast(l);
            InOrder(Node(RemoveLast(l), p.value, r, p.tag)) == InOrder(l) + InOrder(r)
    ensures var p := RightLast(l);
            PositiveHeights(l) && PositiveHeights(r) ==> PositiveHeights(Node(RemoveLast(l), p.value, r, p.tag))
  {
    var p := RightLast(l);
    assert InOrder(RemoveLast(l)) + [p.value] == InOrder(l);
    if PositiveHeights(l) {
      PositiveRemoveLast(l);
    }
  }

  lemma {:induction false} PositiveRemoveLast(t: ATree)
    requires t.Node? && PositiveHeights(t)
    ensures PositiveHeights(RemoveLast(t)) && RightLast(t).tag >= 1
  {
    if t.right.Node? {
      PositiveRemoveLast(t.right);
    }
  }

  /**
   * On an ordered tree, `_delete` removes exactly `v`, keeps the order,
   * reports `v` iff it was present, and changes nothing otherwise. Heights
   * are carried over, not recomputed.
   */
  lemma {:induction false} DeleteRemoves(t: ATree, v: int)
    requires Ordered(t)
    ensures Keys(Deleted(t, v).0) == Keys(t) - {v}
    ensures Ordered(Deleted(t, v).0)
    ensures Deleted(t, v).1 == if v in Keys(t) then Some(v) else None
    ensures v !in Keys(t) ==> Deleted(t, v).0 == t
    ensures PositiveHeights(t) ==> PositiveHeights(Deleted(t, v).0)
  {
    match t
    case Nil =>
    case Node(l, x, r, _) =>
      if x == v {
        SplicedInOrder(t);
        DropRoot(t, Spliced(t));
      } else if x > v {
        DeleteRemoves(l, v);
      } else {
        DeleteRemoves(r, v);
      }
  }

  class AverageBinaryTree {
    var root: ATree

    ghost predicate Valid()
      reads this
    {
      Ordered(root) && PositiveHeights(root)
    }

    constructor ()
      ensures Valid() && root == Nil
    {
      root := Nil;
    }

    /** `_insert`: the tree gains `v`, stays ordered, and stays AVL if it was. */
    method Insert(v: int)
      requires Valid()
      modifies this
      ensures Valid() && root == Put(old(root), v)
      ensures Keys(root) == old(Keys(root)) + {v}
      ensures old(Avl(root)) ==> Avl(root)
    {
      if Avl(root) {
        PutAvl(root, v);
      }
      root := Put(root, v);
    }

    /** `_search`: the node holding `v`, or nothing when `v` is absent. */
    method Search(v: int) returns (r: ATree)
      requires Valid()
      ensures r.Node? <==> v in Keys(root)
      ensures r.Node? ==> r.value == v
    {
      r := Find(root, v);
    }

    /** `_delete`: removes `v`, returning it when it was present. */
    method Delete(v: int) returns (removed: Option<int>)
      requires Valid()
      modifies this
      ensures Valid() && (root, removed) == Deleted(old(root), v)
      ensures Keys(root) == old(Keys(root)) - {v}
      ensures removed.Some? <==> v in old(Keys(root))
    {
      DeleteRemoves(root, v);
      var (u, d) := Deleted(root, v);
      root := u;
      removed := d;
    }
  }
}
