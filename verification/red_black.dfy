/**
 * The red-black tree (tree/red_black_tree/red_black_tree.py): insertion that
 * repairs colours on the way back up by a colour flip or one or two
 * rotations, search, and a recursive deletion that runs the same repair.
 * A node's tag is its colour, `true` for red.
 */
module RedBlackTree {
  import opened BaseTree

  type RTree = Tree<bool>

  /** `is_red`: an empty tree is black. */
  predicate IsRed(t: RTree)
  {
    t.Node? && t.tag
  }

  function Blacken(t: RTree): (r: RTree)
    ensures !IsRed(r) && InOrder(r) == InOrder(t)
  {
    if t.Nil? then Nil else t.(tag := false)
  }

  /** `flip_color`: the node turns red, its children black. */
  function FlipColor(t: RTree): (r: RTree)
    requires t.Node?
    ensures IsRed(r) && !IsRed(r.left) && !IsRed(r.right) && InOrder(r) == InOrder(t)
  {
    Node(Blacken(t.left), t.value, Blacken(t.right), true)
  }

  /** `left_rotate`: the right child rises and turns black, the node sinks and turns red. */
  function LeftRotate(t: RTree): (r: RTree)
    requires t.Node? && t.right.Node?
    ensures InOrder(r) == InOrder(t)
    ensures r.Node? && !IsRed(r) && r.value == t.right.value
    ensures IsRed(r.left) && r.left.value == t.value
  {
    Node(Node(t.left, t.value, t.right.left, true), t.right.value, t.right.right, false)
  }

  /** `right_rotate`: the mirror image. */
  function RightRotate(t: RTree): (r: RTree)
    requires t.Node? && t.left.Node?
    ensures InOrder(r) == InOrder(t)
    ensures r.Node? && !IsRed(r) && r.value == t.left.value
    ensures IsRed(r.right) && r.right.value == t.value
  {
    Node(t.left.left, t.left.value, Node(t.left.right, t.value, t.right, true), false)
  }

  /** Both children red and a red grandchild: flip (once per side that has one). */
  function FlipStep(t: RTree): (r: RTree)
    requires t.Node?
    ensures r.Node? && InOrder(r) == InOrder(t)
  {
    if IsRed(t.left) && IsRed(t.right) then
      var a := if IsRed(t.left.left) || IsRed(t.left.right) then FlipColor(t) else t;
      if IsRed(t.right.left) || IsRed(t.right.right) then FlipColor(a) else a
    else t
  }

  /** Red left child, black right child: straighten a red left-right pair, then turn right on a red left-left pair. */
  function LeftStep(t: RTree): (r: RTree)
    requires t.Node?
    ensures r.Node? && InOrder(r) == InOrder(t)
  {
    if IsRed(t.left) && !IsRed(t.right) then
      var a := if IsRed(t.left.right) then t.(left := LeftRotate(t.left)) else t;
      if IsRed(a.left.left) then RightRotate(a) else a
    else t
  }

  /** The mirror image. */
  function RightStep(t: RTree): (r: RTree)
    requires t.Node?
    ensures r.Node? && InOrder(r) == InOrder(t)
  {
    if IsRed(t.right) && !IsRed(t.left) then
      var a := if IsRed(t.right.left) then t.(right := RightRotate(t.right)) else t;
      if IsRed(a.right.right) then LeftRotate(a) else a
    else t
  }

  /** The repair `__put` and `__delete_node` run at every node on the way back up. */
  function Fix(t: RTree): (r: RTree)
    requires t.Node?
    ensures r.Node? && InOrder(r) == InOrder(t)
  {
    RightStep(LeftStep(FlipStep(t)))
  }

  /** Repair keeps the values and the order. */
  lemma FixKeys(t: RTree)
    requires t.Node?
    ensures Keys(Fix(t)) == Keys(t)
    ensures Ordered(t) ==> Ordered(Fix(t))
  {
    SameInOrder(t, Fix(t));
  }

  /** `__put`: a new node is red; below an existing node, insert and repair. */
  function Put(t: RTree, v: int): (r: RTree)
    ensures r.Node?
    ensures Keys(r) == Keys(t) + {v}
    ensures Ordered(t) ==> Ordered(r)
  {
    match t
    case Nil => Node(Nil, v, Nil, true)
    case Node(l, x, rt, _) =>
      var n :=
        if x > v then t.(left := Put(l, v))
        else if x < v then t.(right := Put(rt, v))
        else t;
      FixKeys(n);
      Fix(n)
  }

  // ---------------------------------------------------------------------------
  // The red-black properties
  // ---------------------------------------------------------------------------

  /**
   * `t` is a red-black tree with `h` black nodes on every path from its root
   * down to an empty tree, and no red node has a red child. The root may be red.
   */
  ghost predicate RB(t: RTree, h: nat)
  {
    match t
    case Nil => h == 0
    case Node(l, _, r, red) =>
      if red then !IsRed(l) && !IsRed(r) && RB(l, h) && RB(r, h)
      else h >= 1 && RB(l, h - 1) && RB(r, h - 1)
  }

  /**
   * The one violation insertion leaves for the level above to repair: a red
   * node over red-black subtrees of black height `h`, at most one of them red.
   */
  ghost predicate Almost(t: RTree, h: nat)
  {
    t.Node? && t.tag && RB(t.left, h) && RB(t.right, h) && !(IsRed(t.left) && IsRed(t.right))
  }

  /** A red-black tree with a black root: what the tree class keeps. */
  ghost predicate RedBlack(t: RTree)
  {
    !IsRed(t) && exists h: nat :: RB(t, h)
  }

  /** Repair leaves a red-black tree alone. */
  lemma FixValid(t: RTree, h: nat)
    requires t.Node? && RB(t, h)
    ensures Fix(t) == t
  {
    assert FlipStep(t) == t;
    assert LeftStep(t) == t;
  }

  /**
   * At a black node over one subtree that may carry the violation and one
   * red-black subtree, repair gives a red-black tree of the node's black
   * height (by a colour flip when the sibling is red, by rotations otherwise).
   */
  lemma FixLeft(t: RTree, h: nat)
    requires t.Node? && !t.tag && h >= 1
    requires (RB(t.left, h - 1) || Almost(t.left, h - 1)) && RB(t.right, h - 1)
    ensures RB(Fix(t), h)
  {
    var l, r := t.left, t.right;
    if RB(l, h - 1) {
      FixValid(t, h);
    } else if IsRed(r) {
      assert Fix(t) == FlipColor(t);
    } else if IsRed(l.right) {
      var x := l.right;
      assert Fix(t) == Node(Node(l.left, l.value, x.left, true), x.value, Node(x.right, t.value, r, true), false);
    } else if IsRed(l.left) {
      assert Fix(t) == Node(l.left, l.value, Node(l.right, t.value, r, true), false);
    } else {
      assert false;
    }
  }

  /** The mirror image. */
  lemma FixRight(t: RTree, h: nat)
    requires t.Node? && !t.tag && h >= 1
    requires RB(t.left, h - 1) && (RB(t.right, h - 1) || Almost(t.right, h - 1))
    ensures RB(Fix(t), h)
  {
    var l, r := t.left, t.right;
    if RB(r, h - 1) {
      FixValid(t, h);
    } else if IsRed(l) {
      assert Fix(t) == FlipColor(t);
    } else if IsRed(r.left) {
      var x := r.left;
      assert Fix(t) == Node(Node(l, t.value, x.left, true), x.value, Node(x.right, r.value, r.right, true), false);
    } else if IsRed(r.right) {
      assert Fix(t) == Node(Node(l, t.value, r.left, true), r.value, r.right, false);
    } else {
      assert false;
    }
  }

  /** At a red node over one red-black subtree and one black one, repair does nothing. */
  lemma FixRedNode(t: RTree, h: nat)
    requires t.Node? && t.tag && RB(t.left, h) && RB(t.right, h)
    requires !IsRed(t.left) || !IsRed(t.right)
    ensures Fix(t) == t && Almost(t, h)
  {
    assert FlipStep(t) == t;
    assert LeftStep(t) == t;
  }

  /**
   * `__put` into a red-black tree of black height `h` keeps the black
   * height; below a black root (or into an empty tree) the result is a
   * red-black tree, below a red root it may carry the one violation that the
   * parent's repair removes.
   */
  lemma {:induction false} PutRB(t: RTree, v: int, h: nat)
    requires RB(t, h)
    ensures !IsRed(t) ==> RB(Put(t, v), h)
    ensures IsRed(t) ==> Almost(Put(t, v), h)
  {
    match t
    case Nil =>
    case Node(l, x, rt, red) =>
      var hc := if red then h else h - 1;
      if x > v {
        PutRB(l, v, hc);
        var n := t.(left := Put(l, v));
        if red {
          FixRedNode(n, h);
        } else {
          FixLeft(n, h);
        }
      } else if x < v {
        PutRB(rt, v, hc);
        var n := t.(right := Put(rt, v));
        if red {
          FixRedNode(n, h);
        } else {
          FixRight(n, h);
        }
      } else {
        FixValid(t, h);
      }
  }

  /** `_insert` keeps a red-black tree with a black root one. */
  lemma InsertRedBlack(t: RTree, v: int)
    requires RedBlack(t)
    ensures RedBlack(Blacken(Put(t, v)))
  {
    var h: nat :| RB(t, h);
    PutRB(t, v, h);
    var p := Put(t, v);
    if p.tag {
      assert RB(Blacken(p), h + 1);
    } else {
      assert RB(Blacken(p), h);
    }
  }

  // ---------------------------------------------------------------------------
  // Deletion
  // ---------------------------------------------------------------------------

  /**
   * `__delete_node`: a node with two children takes the value of its in-order
   * predecessor, which is unlinked from below (its left subtree taking its
   * place), and is returned without repair; a node with one child or none is
   * replaced by that child. Every node on the path above is repaired.
   */
  function DeleteNode(t: RTree, v: int): RTree
  {
    match t
    case Nil => Nil
    case Node(l, x, r, red) =>
      if x > v then Fix(t.(left := DeleteNode(l, v)))
      else if x < v then Fix(t.(right := DeleteNode(r, v)))
      else if l.Node? && r.Node? then Node(RemoveLast(l), RightLast(l).value, r, red)
      else if l.Node? then l
      else r
  }

  /** Removing the node that holds `v` leaves the in-order sequences of its two subtrees. */
  lemma RemovedHere(t: RTree)
    requires t.Node?
    ensures InOrder(DeleteNode(t, t.value)) == InOrder(t.left) + InOrder(t.right)
  {
    var l, r := t.left, t.right;
    if l.Node? && r.Node? {
      assert InOrder(RemoveLast(l)) + [RightLast(l).value] == InOrder(l);
    }
  }

  /**
   * On an ordered tree, `__delete_node` removes exactly `v` and keeps the
   * order. It does not restore the red-black properties.
   */
  lemma {:induction false} DeleteRemoves(t: RTree, v: int)
    requires Ordered(t)
    ensures Keys(DeleteNode(t, v)) == Keys(t) - {v}
    ensures Ordered(DeleteNode(t, v))
    decreases t, 1
  {
    match t
    case Nil =>
    case Node(l, x, r, _) =>
      if x == v {
        RemovedHere(t);
        DropRoot(t, DeleteNode(t, v));
      } else if x > v {
        DeleteLeftRemoves(t, v);
      } else {
        DeleteRightRemoves(t, v);
      }
  }

  /** Deleting a key smaller than the root's deletes it on the left and keeps the order. */
  lemma {:induction false} DeleteLeftRemoves(t: RTree, v: int)
    requires Ordered(t) && t.Node? && t.value > v
    ensures Keys(DeleteNode(t, v)) == Keys(t) - {v}
    ensures Ordered(DeleteNode(t, v))
    decreases t, 0
  {
    var l2 := DeleteNode(t.left, v);
    DeleteRemoves(t.left, v);
    var n := t.(left := l2);
    assert Keys(n) == Keys(t) - {v};
    assert Ordered(n);
    FixKeys(n);
  }

  /** Deleting a key larger than the root's deletes it on the right and keeps the order. */
  lemma {:induction false} DeleteRightRemoves(t: RTree, v: int)
    requires Ordered(t) && t.Node? && t.value < v
    ensures Keys(DeleteNode(t, v)) == Keys(t) - {v}
    ensures Ordered(DeleteNode(t, v))
    decreases t, 0
  {
    var r2 := DeleteNode(t.right, v);
    DeleteRemoves(t.right, v);
    var n := t.(right := r2);
    assert Keys(n) == Keys(t) - {v};
    assert Ordered(n);
    FixKeys(n);
  }

  /** The red-black tree class (named `AverageBinaryTree` in its source file). */
  class AverageBinaryTree {
    var root: RTree

    ghost predicate Valid()
      reads this
    {
      Ordered(root)
    }

    constructor ()
      ensures Valid() && root == Nil && RedBlack(root)
    {
      root := Nil;
      assert RB(Nil, 0);
    }

    /** `_insert`: put, then paint the root black. */
    method Insert(v: int)
      requires Valid()
      modifies this
      ensures Valid() && root == Blacken(Put(old(root), v))
      ensures Keys(root) == old(Keys(root)) + {v}
      ensures old(RedBlack(root)) ==> RedBlack(root)
    {
      if RedBlack(root) {
        InsertRedBlack(root, v);
      }
      root := Blacken(Put(root, v));
      SameInOrder(Put(old(root), v), root);
    }

    /** `_search`: the node holding `v`, or nothing when `v` is absent. */
    method Search(v: int) returns (r: RTree)
      requires Valid()
      ensures r.Node? <==> v in Keys(root)
      ensures r.Node? ==> r.value == v
    {
      r := Find(root, v);
    }

    /** `_delete`: removes `v` and keeps the order. */
    method Delete(v: int)
      requires Valid()
      modifies this
      ensures Valid() && root == DeleteNode(old(root), v)
      ensures Keys(root) == old(Keys(root)) - {v}
    {
      DeleteRemoves(root, v);
      root := DeleteNode(root, v);
    }
  }
}
