/**
 * The plain binary search tree (tree/binary_tree/binary_search_tree.py).
 * The tree hangs below a sentinel node (`_root.next`); here the class
 * field `root` is that subtree.
 */
module BinarySearchTree {
  import opened Wrappers
  import opened BaseTree

  /** A node of the plain tree carries no extra attribute. */
  type BTree = Tree<()>

  function Leaf(v: int): BTree
  {
    Node(Nil, v, Nil, ())
  }

  /**
   * `_insert`: walk down by comparison and hang a new leaf where the walk
   * falls off; an equal value stops the walk and changes nothing.
   */
  function InsertInto(t: BTree, v: int): (r: BTree)
    ensures Keys(r) == Keys(t) + {v}
    ensures Ordered(t) ==> Ordered(r)
    ensures Ordered(t) && v in Keys(t) ==> r == t
  {
    match t
    case Nil => Leaf(v)
    case Node(l, x, rt, _) =>
      if x == v then t
      else if x > v then t.(left := InsertInto(l, v))
      else t.(right := InsertInto(rt, v))
  }

  /**
   * `find_right_last_node(l).right = r`: hang `r` as the right child of the
   * rightmost node of `l`.
   */
  function Graft(l: BTree, r: BTree): (g: BTree)
    requires l.Node?
    ensures Keys(g) == Keys(l) + Keys(r)
    ensures Ordered(l) && Ordered(r) && (forall a, b :: a in Keys(l) && b in Keys(r) ==> a < b) ==> Ordered(g)
  {
    if l.right.Nil? then l.(right := r) else l.(right := Graft(l.right, r))
  }

  /** Where the node being deleted hangs: `is_left` is None, True or False. */
  datatype Side = AtRoot | LeftOf | RightOf

  /**
   * What the parent links to in place of the deleted node `t`. A node with
   * a left subtree is replaced by that subtree, with its own right subtree
   * grafted below the left subtree's rightmost node (at the root whenever
   * there is a left subtree, elsewhere only when both subtrees exist); a
   * node with one subtree is replaced by it. A leaf is unlinked, except
   * that as written a leaf that is a right child stays linked, because that
   * branch has no `else`.
   */
  function Unlinked(t: BTree, side: Side, clearsRightLeaf: bool): BTree
    requires t.Node?
  {
    if t.left.Node? && (side == AtRoot || t.right.Node?) then Graft(t.left, t.right)
    else if t.left.Node? then t.left
    else if t.right.Node? then t.right
    else if side == RightOf && !clearsRightLeaf then t
    else Nil
  }

  /**
   * `_delete` below a parent on side `side`: the new subtree, and the removed
   * node with its links cleared.
   */
  function DeleteFrom(t: BTree, v: int, side: Side, clearsRightLeaf: bool): (BTree, Option<BTree>)
  {
    match t
    case Nil => (Nil, None)
    case Node(l, x, r, _) =>
      if x == v then (Unlinked(t, side, clearsRightLeaf), Some(Leaf(v)))
      else if x > v then
        var (l2, d) := DeleteFrom(l, v, LeftOf, clearsRightLeaf);
        (t.(left := l2), d)
      else
        var (r2, d) := DeleteFrom(r, v, RightOf, clearsRightLeaf);
        (t.(right := r2), d)
  }

  /**
   * With the correction, deleting from an ordered tree removes exactly the
   * value `v`, keeps the order, reports the removed node iff `v` was
   * present, and changes nothing when it was not.
   */
  lemma {:induction false} DeleteFromRemoves(t: BTree, v: int, side: Side)
    requires Ordered(t)
    ensures Keys(DeleteFrom(t, v, side, true).0) == Keys(t) - {v}
    ensures Ordered(DeleteFrom(t, v, side, true).0)
    ensures DeleteFrom(t, v, side, true).1 == if v in Keys(t) then Some(Leaf(v)) else None
    ensures v !in Keys(t) ==> DeleteFrom(t, v, side, true).0 == t
  {
    match t
    case Nil =>
    case Node(l, x, r, _) =>
      if x > v {
        DeleteFromRemoves(l, v, LeftOf);
      } else if x < v {
        DeleteFromRemoves(r, v, RightOf);
      }
  }

  /**
   * `_delete` as written. It never adds a value and never loses one other
   * than `v`; but deleting a leaf that is a right child leaves it in the tree.
   */
  function DeletedAsWritten(t: BTree, v: int): (r: (BTree, Option<BTree>))
    ensures Keys(t) - {v} <= Keys(r.0) <= Keys(t)
    ensures r.1.Some? ==> r.1 == Some(Leaf(v)) && v in Keys(t)
  {
    DeleteAsWrittenKeys(t, v, AtRoot);
    DeleteFrom(t, v, AtRoot, false)
  }

  lemma {:induction false} DeleteAsWrittenKeys(t: BTree, v: int, side: Side)
    ensures Keys(t) - {v} <= Keys(DeleteFrom(t, v, side, false).0) <= Keys(t)
    ensures DeleteFrom(t, v, side, false).1.Some? ==>
              DeleteFrom(t, v, side, false).1 == Some(Leaf(v)) && v in Keys(t)
  {
    match t
    case Nil =>
    case Node(l, x, r, _) =>
      if x > v {
        DeleteAsWrittenKeys(l, v, LeftOf);
      } else if x < v {
        DeleteAsWrittenKeys(r, v, RightOf);
      }
  }

  /** The discrepancy: deleting the right leaf 2 of the tree 1 -> 2 reports it removed and leaves it in place. */
  lemma RightLeafDeleteKeepsValue()
    ensures var t := Node(Nil, 1, Leaf(2), ());
            Ordered(t) && DeletedAsWritten(t, 2) == (t, Some(Leaf(2))) && 2 in Keys(DeletedAsWritten(t, 2).0)
  {
    var t := Node(Nil, 1, Leaf(2), ());
    assert DeleteFrom(Leaf(2), 2, RightOf, false) == (Leaf(2), Some(Leaf(2)));
  }

  /**
   * `_delete` with the leaf unlinked on both sides: on an ordered tree it
   * removes exactly `v`, keeps the order, returns the removed node iff `v`
   * was present, and changes nothing otherwise.
   */
  function Deleted(t: BTree, v: int): (r: (BTree, Option<BTree>))
    ensures Ordered(t) ==> Ordered(r.0) && Keys(r.0) == Keys(t) - {v}
    ensures Ordered(t) ==> r.1 == if v in Keys(t) then Some(Leaf(v)) else None
    ensures Ordered(t) && v !in Keys(t) ==> r.0 == t
  {
    DeleteKeys(t, v);
    DeleteFrom(t, v, AtRoot, true)
  }

  lemma DeleteKeys(t: BTree, v: int)
    ensures Ordered(t) ==> Ordered(DeleteFrom(t, v, AtRoot, true).0)
    ensures Ordered(t) ==> Keys(DeleteFrom(t, v, AtRoot, true).0) == Keys(t) - {v}
    ensures Ordered(t) ==> DeleteFrom(t, v, AtRoot, true).1 == if v in Keys(t) then Some(Leaf(v)) else None
    ensures Ordered(t) && v !in Keys(t) ==> DeleteFrom(t, v, AtRoot, true).0 == t
  {
    if Ordered(t) {
      DeleteFromRemoves(t, v, AtRoot);
    }
  }

  class BinaryTree {
    /** `_root.next`: the tree below the sentinel. */
    var root: BTree

    ghost predicate Valid()
      reads this
    {
      Ordered(root)
    }

    constructor ()
      ensures Valid() && root == Nil
    {
      root := Nil;
    }

    /** `_insert`: the tree gains `v` and stays ordered. */
    method Insert(v: int)
      requires Valid()
      modifies this
      ensures Valid() && root == InsertInto(old(root), v)
      ensures Keys(root) == old(Keys(root)) + {v}
    {
      root := InsertInto(root, v);
    }

    /** `_search`: the node holding `v`, or nothing when `v` is absent. */
    method Search(v: int) returns (r: BTree)
      requires Valid()
      ensures r.Node? <==> v in Keys(root)
      ensures r.Node? ==> r.value == v
    {
      r := Find(root, v);
    }

    /** `_delete`, with the right-leaf case corrected. */
    method Delete(v: int) returns (removed: Option<BTree>)
      requires Valid()
      modifies this
      ensures Valid() && (root, removed) == Deleted(old(root), v)
      ensures Keys(root) == old(Keys(root)) - {v}
      ensures removed.Some? <==> v in old(Keys(root))
    {
      var (u, d) := Deleted(root, v);
      root := u;
      removed := d;
    }
  }
}
