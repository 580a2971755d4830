/**
 * The binary node shared by the binary search tree, the AVL tree and the
 * red-black tree. tree/base_tree.py's `IntNode` sets only an integer value
 * (and `prev` / `next` links); the trees read and write `left`, `right`,
 * `height` and `is_red` on it without defining them. The node here gives
 * it those attributes: two children, and one extra attribute: nothing for
 * the plain tree, the height for the AVL tree, the colour for the
 * red-black tree.
 *
 * Trees are values here; each tree class holds its root in a field and
 * replaces it on every update.
 */
module BaseTree {
  datatype Tree<T> = Nil | Node(left: Tree<T>, value: int, right: Tree<T>, tag: T)

  /** The values stored in `t`. */
  function Keys<T>(t: Tree<T>): set<int>
  {
    match t
    case Nil => {}
    case Node(l, v, r, _) => Keys(l) + {v} + Keys(r)
  }

  /** The in-order sequence of values. */
  function InOrder<T>(t: Tree<T>): seq<int>
  {
    match t
    case Nil => []
    case Node(l, v, r, _) => InOrder(l) + [v] + InOrder(r)
  }

  /** The binary-search-tree ordering: left values are smaller, right values larger, at every node. */
  ghost predicate Ordered<T>(t: Tree<T>)
  {
    match t
    case Nil => true
    case Node(l, v, r, _) =>
      Ordered(l) && Ordered(r) &&
      (forall k :: k in Keys(l) ==> k < v) &&
      (forall k :: k in Keys(r) ==> v < k)
  }

  /** Strictly increasing. */
  ghost predicate Increasing(s: seq<int>)
  {
    forall i, j :: 0 <= i < j < |s| ==> s[i] < s[j]
  }

  /** An ordered tree lists its values once each, in increasing order. */
  lemma {:induction false} OrderedInOrder<T>(t: Tree<T>)
    requires Ordered(t)
    ensures Increasing(InOrder(t))
    ensures forall k :: k in InOrder(t) <==> k in Keys(t)
  {
    match t
    case Nil =>
    case Node(l, v, r, _) =>
      OrderedInOrder(l);
      OrderedInOrder(r);
      var s := InOrder(t);
      assert s == InOrder(l) + [v] + InOrder(r);
      forall i, j | 0 <= i < j < |s| ensures s[i] < s[j] {
        var n := |InOrder(l)|;
        if j < n {
        } else if i < n {
          assert s[i] in Keys(l);
          if j > n {
            assert s[j] == InOrder(r)[j - n - 1];
            assert s[j] in Keys(r);
          }
        } else if i == n {
          assert s[j] == InOrder(r)[j - n - 1];
          assert s[j] in Keys(r);
        } else {
          assert s[i] == InOrder(r)[i - n - 1];
          assert s[j] == InOrder(r)[j - n - 1];
        }
      }
  }

  /** Trees with the same in-order sequence hold the same values, and order is a property of the sequence. */
  lemma {:induction false} SameInOrder<T>(t: Tree<T>, u: Tree<T>)
    requires InOrder(t) == InOrder(u)
    ensures Keys(t) == Keys(u)
    ensures Ordered(t) ==> Ordered(u)
  {
    InOrderKeys(t);
    InOrderKeys(u);
    forall k
      ensures k in Keys(t) <==> k in Keys(u)
    {
      assert k in InOrder(t) <==> k in InOrder(u);
    }
    if Ordered(t) {
      OrderedInOrder(t);
      IncreasingIsOrdered(u);
    }
  }

  /** The values of the in-order sequence are the tree's values. */
  lemma {:induction false} InOrderKeys<T>(t: Tree<T>)
    ensures forall k :: k in InOrder(t) <==> k in Keys(t)
  {
    match t
    case Nil =>
    case Node(l, v, r, _) =>
      InOrderKeys(l);
      InOrderKeys(r);
  }

  /** A tree whose in-order sequence increases is ordered. */
  lemma {:induction false} IncreasingIsOrdered<T>(t: Tree<T>)
    requires Increasing(InOrder(t))
    ensures Ordered(t)
  {
    match t
    case Nil =>
    case Node(l, v, r, _) =>
      var s := InOrder(t);
      var n := |InOrder(l)|;
      assert s == InOrder(l) + [v] + InOrder(r);
      assert s[..n] == InOrder(l);
      assert s[n + 1..] == InOrder(r);
      IncreasingIsOrdered(l);
      IncreasingIsOrdered(r);
      InOrderKeys(l);
      InOrderKeys(r);
      forall k | k in Keys(l) ensures k < v {
        var i :| 0 <= i < n && InOrder(l)[i] == k;
        assert s[i] == k && s[n] == v;
      }
      forall k | k in Keys(r) ensures v < k {
        var i :| 0 <= i < |InOrder(r)| && InOrder(r)[i] == k;
        assert s[n + 1 + i] == k && s[n] == v;
      }
  }

  /**
   * A tree listing the values of an ordered node's two subtrees, in order,
   * is ordered and holds every value of the node but its own.
   */
  lemma DropRoot<T>(t: Tree<T>, s: Tree<T>)
    requires t.Node? && Ordered(t)
    requires InOrder(s) == InOrder(t.left) + InOrder(t.right)
    ensures Ordered(s) && Keys(s) == Keys(t) - {t.value}
  {
    var l, r := t.left, t.right;
    OrderedInOrder(t);
    assert InOrder(t) == InOrder(l) + [t.value] + InOrder(r);
    var w := InOrder(l) + InOrder(r);
    assert Increasing(w) by {
      forall i, j | 0 <= i < j < |w| ensures w[i] < w[j] {
        var n := |InOrder(l)|;
        var ii := if i < n then i else i + 1;
        var jj := if j < n then j else j + 1;
        assert w[i] == InOrder(t)[ii] && w[j] == InOrder(t)[jj];
      }
    }
    IncreasingIsOrdered(s);
    InOrderKeys(s);
    InOrderKeys(l);
    InOrderKeys(r);
    forall k
      ensures k in Keys(s) <==> k in Keys(t) - {t.value}
    {
      assert k in InOrder(s) <==> k in InOrder(l) || k in InOrder(r);
    }
  }

  /**
   * `_search`, the same loop in all three binary trees: walk left on a
   * smaller value and right on a larger one, and return the node holding
   * the value, or nothing.
   */
  method Find<T>(t: Tree<T>, v: int) returns (r: Tree<T>)
    ensures r.Node? ==> r.value == v && Keys(r) <= Keys(t)
    ensures Ordered(t) ==> (r.Node? <==> v in Keys(t))
  {
    var current := t;
    while current.Node?
      invariant Keys(current) <= Keys(t)
      invariant Ordered(t) ==> Ordered(current) && (v in Keys(t) <==> v in Keys(current))
      decreases current
    {
      if current.value == v {
        return current;
      }
      if current.value > v {
        current := current.left;
      } else {
        current := current.right;
      }
    }
    return Nil;
  }

  /** find_right_last_node: the rightmost node under `t`, which holds its largest value when `t` is ordered. */
  function RightLast<T>(t: Tree<T>): (r: Tree<T>)
    requires t.Node?
    ensures r.Node? && r.right.Nil? && r.value in Keys(t)
    ensures Ordered(t) ==> forall k :: k in Keys(t) ==> k <= r.value
  {
    if t.right.Nil? then t else RightLast(t.right)
  }

  /**
   * The tree without its rightmost node, whose left subtree takes its
   * place (`remove_prev_node`'s unlinking, applied to a left subtree).
   */
  function RemoveLast<T>(t: Tree<T>): (r: Tree<T>)
    requires t.Node?
    ensures InOrder(r) + [RightLast(t).value] == InOrder(t)
  {
    if t.right.Nil? then t.left else t.(right := RemoveLast(t.right))
  }
}
