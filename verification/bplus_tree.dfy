/**
 * The B+-tree of order `m` (tree/b+_tree/balance_plus_tree.py). The keys
 * live in the leaves; an internal node's values are separators, child `i`
 * holding the keys above separator `i-1` and up to separator `i`. Insertion
 * and deletion go down to the child of the first separator not below the
 * value (the last child when there is none). A leaf split keeps its middle
 * key in the left leaf and copies it up as a separator; an internal split
 * moves its middle separator up. The leaves form a chain from left to right,
 * which `_mid_order` walks.
 *
 * Nodes are values here: `__put` and `__delete_node` return the rebuilt
 * subtree, and the chain of leaves is read off the tree rather than stored.
 */
module BalancePlusTree {
  import opened Wrappers
  import opened BNodes
  import B = BalanceTree

  // ---------------------------------------------------------------------------
  // Keys
  // ---------------------------------------------------------------------------

  /** The keys of a subtree: the values held in its leaves. */
  ghost function Keys(n: BNode): set<int>
    decreases n, 1
  {
    if IsLeaf(n) then B.Elems(n.values) else ChildKeys(n.children)
  }

  /** The keys below a list of siblings. */
  ghost function ChildKeys(cs: seq<BNode>): set<int>
    decreases cs, 0
  {
    if cs == [] then {} else Keys(cs[0]) + ChildKeys(cs[1..])
  }

  lemma {:induction false} ChildKeysAppend(a: seq<BNode>, b: seq<BNode>)
    ensures ChildKeys(a + b) == ChildKeys(a) + ChildKeys(b)
    decreases |a|
  {
    if a == [] {
      assert a + b == b;
    } else {
      assert (a + b)[1..] == a[1..] + b;
      ChildKeysAppend(a[1..], b);
    }
  }

  lemma ChildKeysOne(c: BNode)
    ensures ChildKeys([c]) == Keys(c)
  {
    assert [c][1..] == [];
  }

  /** The siblings' keys are the union of each sibling's keys. */
  lemma {:induction false} ChildKeysAt(cs: seq<BNode>, x: int)
    ensures x in ChildKeys(cs) <==> exists i :: 0 <= i < |cs| && x in Keys(cs[i])
    decreases |cs|
  {
    if cs != [] {
      ChildKeysAt(cs[1..], x);
      if x in ChildKeys(cs[1..]) {
        var i :| 0 <= i < |cs[1..]| && x in Keys(cs[1..][i]);
        assert x in Keys(cs[i + 1]);
      }
      forall i | 0 <= i < |cs| && x in Keys(cs[i]) ensures x in ChildKeys(cs) {
        if i > 0 {
          assert cs[1..][i - 1] == cs[i];
        }
      }
    }
  }

  lemma ChildKeysSplice(a: seq<BNode>, mid: seq<BNode>, b: seq<BNode>)
    ensures ChildKeys(a + mid + b) == ChildKeys(a) + ChildKeys(mid) + ChildKeys(b)
  {
    ChildKeysAppend(a + mid, b);
    ChildKeysAppend(a, mid);
  }

  /** Replacing one child replaces its keys in the union. */
  lemma ChildKeysUpdate(cs: seq<BNode>, i: nat, c: BNode)
    requires i < |cs|
    ensures ChildKeys(cs) == ChildKeys(cs[..i]) + Keys(cs[i]) + ChildKeys(cs[i + 1..])
    ensures ChildKeys(cs[i := c]) == ChildKeys(cs[..i]) + Keys(c) + ChildKeys(cs[i + 1..])
  {
    assert cs == cs[..i] + [cs[i]] + cs[i + 1..];
    assert cs[i := c] == cs[..i] + [c] + cs[i + 1..];
    ChildKeysSplice(cs[..i], [cs[i]], cs[i + 1..]);
    ChildKeysSplice(cs[..i], [c], cs[i + 1..]);
    ChildKeysOne(cs[i]);
    ChildKeysOne(c);
  }

  /** Lists holding the same values with the same multiplicities hold the same values. */
  lemma ElemsOfMultiset(a: seq<int>, b: seq<int>)
    requires multiset(a) == multiset(b)
    ensures B.Elems(a) == B.Elems(b)
  {
    forall x ensures x in a <==> x in b {
      assert x in a <==> x in multiset(a);
      assert x in b <==> x in multiset(b);
    }
  }

  // ---------------------------------------------------------------------------
  // Order
  // ---------------------------------------------------------------------------

  /** `x` lies at or above the lower bound, if there is one. */
  predicate Ge(x: int, lo: Option<int>)
  {
    lo.None? || lo.value <= x
  }

  /** `x` lies at or below the upper bound, if there is one. */
  predicate Le(x: int, hi: Option<int>)
  {
    hi.None? || x <= hi.value
  }

  /**
   * The B+-tree order, for a subtree whose keys lie above `lo` and at most at
   * `hi`: a leaf holds strictly increasing keys; an internal node holds
   * non-decreasing separators between `lo` and `hi`, one child more than
   * separators, and child `i` lies above separator `i-1` and at most at
   * separator `i`. Separators may repeat: from order 2 down a split can copy
   * up a key that already separates.
   */
  ghost predicate Ordered(n: BNode, lo: Option<int>, hi: Option<int>)
  {
    if IsLeaf(n) then
      Sorted(n.values) && forall j :: 0 <= j < |n.values| ==> B.Gt(n.values[j], lo) && Le(n.values[j], hi)
    else
      |n.children| == |n.values| + 1 && Ascending(n.values) &&
      (forall j :: 0 <= j < |n.values| ==> Ge(n.values[j], lo) && Le(n.values[j], hi)) &&
      forall i :: 0 <= i < |n.children| ==> Ordered(n.children[i], B.LoOf(n, i, lo), B.HiOf(n, i, hi))
  }

  /** Every key of an ordered subtree lies above `lo` and at most at `hi`. */
  lemma {:induction false} OrderedBounds(n: BNode, lo: Option<int>, hi: Option<int>)
    requires Ordered(n, lo, hi)
    ensures forall x :: x in Keys(n) ==> B.Gt(x, lo) && Le(x, hi)
  {
    forall x | x in Keys(n) ensures B.Gt(x, lo) && Le(x, hi) {
      if !IsLeaf(n) {
        ChildKeysAt(n.children, x);
        var i :| 0 <= i < |n.children| && x in Keys(n.children[i]);
        OrderedBounds(n.children[i], B.LoOf(n, i, lo), B.HiOf(n, i, hi));
      }
    }
  }

  /** An ordered subtree is shaped. */
  lemma {:induction false} OrderedShaped(n: BNode, lo: Option<int>, hi: Option<int>)
    requires Ordered(n, lo, hi)
    ensures Shaped(n)
  {
    forall i | 0 <= i < |n.children| ensures Shaped(n.children[i]) {
      OrderedShaped(n.children[i], B.LoOf(n, i, lo), B.HiOf(n, i, hi));
    }
  }

  // ---------------------------------------------------------------------------
  // Splitting
  // ---------------------------------------------------------------------------

  /**
   * The node `_split` leaves in place: `values[:mid]` and `childs[:mid+1]`,
   * and when it is a leaf the middle key is added back to it.
   */
  function SplitLeft(c: BNode): (r: BNode)
    requires |c.values| > 0
    ensures IsLeaf(r) == IsLeaf(c)
  {
    var l := Split(c).0;
    if IsLeaf(l) then BNode(AddVal(l.values, Split(c).1), l.children) else l
  }

  /** A leaf split leaves the keys up to and including the middle one in place. */
  lemma SplitLeftLeaf(c: BNode)
    requires |c.values| > 0 && IsLeaf(c) && Sorted(c.values)
    ensures SplitLeft(c).values == c.values[..|c.values| / 2 + 1]
  {
    var mid := |c.values| / 2;
    var vs := c.values[..mid];
    InsertAt(vs, mid, c.values[mid]);
    assert vs[..mid] + [c.values[mid]] + vs[mid..] == c.values[..mid + 1];
  }

  /**
   * `_split(parent, child)` for the child at index `k`: the middle value
   * joins the parent's separators and the new right sibling is linked just
   * after the child.
   */
  function SplitChild(n: BNode, k: nat): (r: BNode)
    requires k < |n.children| && |n.children[k].values| > 0
    ensures |r.children| == |n.children| + 1 && |r.values| == |n.values| + 1
  {
    var c := n.children[k];
    BNode(AddVal(n.values, Split(c).1), n.children[..k] + [SplitLeft(c), Split(c).2] + n.children[k + 1..])
  }

  /** A split keeps every key of the node split: a leaf's middle key stays on the left. */
  lemma SplitKeys(c: BNode)
    requires |c.values| > 0 && Shaped(c)
    ensures Keys(SplitLeft(c)) + Keys(Split(c).2) == Keys(c)
    ensures Shaped(SplitLeft(c)) && Shaped(Split(c).2)
  {
    if IsLeaf(c) {
      SplitLeafKeys(c);
    } else {
      SplitInnerKeys(c);
    }
  }

  lemma SplitInnerKeys(c: BNode)
    requires |c.values| > 0 && Shaped(c) && !IsLeaf(c)
    ensures Keys(SplitLeft(c)) + Keys(Split(c).2) == Keys(c)
    ensures Shaped(SplitLeft(c)) && Shaped(Split(c).2)
  {
    var mid := |c.values| / 2;
    var rt := Split(c).2;
    assert c.children == c.children[..mid + 1] + c.children[mid + 1..];
    ChildKeysAppend(c.children[..mid + 1], c.children[mid + 1..]);
    forall i | 0 <= i < |rt.children| ensures Shaped(rt.children[i]) {
      assert rt.children[i] == c.children[mid + 1 + i];
    }
  }

  lemma SplitLeafKeys(c: BNode)
    requires |c.values| > 0 && IsLeaf(c)
    ensures B.Elems(SplitLeft(c).values) + B.Elems(Split(c).2.values) == B.Elems(c.values)
  {
    var mid := |c.values| / 2;
    var vs, med, w := c.values[..mid], c.values[mid], c.values[mid + 1..];
    assert SplitLeft(c).values == AddVal(vs, med);
    B.ElemsAddVal(vs, med);
    SplitRightValues(c);
    ElemsOfMultiset(Split(c).2.values, w);
    ElemsAround(c.values, mid);
  }

  /** The values of a list are those before index `k`, the one at `k` and those after it. */
  lemma ElemsAround(vs: seq<int>, k: nat)
    requires k < |vs|
    ensures B.Elems(vs) == B.Elems(vs[..k]) + {vs[k]} + B.Elems(vs[k + 1..])
  {
    assert vs == vs[..k] + [vs[k]] + vs[k + 1..];
    B.ElemsCat(vs[..k] + [vs[k]], vs[k + 1..]);
    B.ElemsCat(vs[..k], [vs[k]]);
  }

  /** Splitting a child keeps the parent's keys and shape. */
  lemma SplitChildKeys(n: BNode, k: nat)
    requires Shaped(n) && k < |n.children| && |n.children[k].values| > 0
    ensures Keys(SplitChild(n, k)) == Keys(n) && Shaped(SplitChild(n, k))
  {
    var c := n.children[k];
    SplitKeys(c);
    ChildKeysReplace(n.children, k, SplitLeft(c), Split(c).2);
    SplitChildShaped(n, k);
  }

  lemma SplitChildShaped(n: BNode, k: nat)
    requires Shaped(n) && k < |n.children| && |n.children[k].values| > 0
    requires Shaped(SplitLeft(n.children[k])) && Shaped(Split(n.children[k]).2)
    ensures Shaped(SplitChild(n, k))
  {
    var r := SplitChild(n, k);
    forall i | 0 <= i < |r.children| ensures Shaped(r.children[i]) {
      if i < k {
        assert r.children[i] == n.children[i];
      } else if i > k + 1 {
        assert r.children[i] == n.children[i - 1];
      }
    }
  }

  /** Replacing the `k`-th sibling by two nodes replaces its keys by theirs. */
  lemma ChildKeysReplace(cs: seq<BNode>, k: nat, l: BNode, rt: BNode)
    requires k < |cs|
    ensures ChildKeys(cs[..k] + [l, rt] + cs[k + 1..]) == ChildKeys(cs[..k]) + Keys(l) + Keys(rt) + ChildKeys(cs[k + 1..])
    ensures ChildKeys(cs) == ChildKeys(cs[..k]) + Keys(cs[k]) + ChildKeys(cs[k + 1..])
  {
    assert cs == cs[..k] + [cs[k]] + cs[k + 1..];
    ChildKeysSplice(cs[..k], [cs[k]], cs[k + 1..]);
    ChildKeysSplice(cs[..k], [l, rt], cs[k + 1..]);
    ChildKeysOne(cs[k]);
    ChildKeysTwo(l, rt);
  }

  lemma ChildKeysTwo(l: BNode, rt: BNode)
    ensures ChildKeys([l, rt]) == Keys(l) + Keys(rt)
  {
    assert [l, rt] == [l] + [rt];
    ChildKeysAppend([l], [rt]);
    ChildKeysOne(l);
    ChildKeysOne(rt);
  }

  /**
   * The scan `for k, child in enumerate(node.childs)` from index `k`: a child
   * holding `m` or more values is split, and the scan goes on with the new
   * right sibling, which now sits at `k + 1`.
   */
  function SplitFrom(n: BNode, m: nat, k: nat): (r: BNode)
    requires m >= 1 && k <= |n.children|
    ensures |r.children| - |n.children| == |r.values| - |n.values|
    decreases B.Load(n.children[k..])
  {
    if k == |n.children| then n
    else
      assert n.children[k..] == [n.children[k]] + n.children[k + 1..];
      if |n.children[k].values| >= m then
        var s := SplitChild(n, k);
        assert s.children[k + 1..] == [Split(n.children[k]).2] + n.children[k + 1..];
        assert ([Split(n.children[k]).2] + n.children[k + 1..])[1..] == n.children[k + 1..];
        SplitFrom(s, m, k + 1)
      else
        SplitFrom(n, m, k + 1)
  }

  /** One step of the split scan, and the measure that shrinks with it. */
  lemma SplitFromStep(n: BNode, m: nat, k: nat)
    requires m >= 1 && k < |n.children|
    ensures B.Load(n.children[k + 1..]) < B.Load(n.children[k..])
    ensures |n.children[k].values| < m ==> SplitFrom(n, m, k) == SplitFrom(n, m, k + 1)
    ensures |n.children[k].values| >= m ==>
              B.Load(SplitChild(n, k).children[k + 1..]) < B.Load(n.children[k..]) &&
              SplitFrom(n, m, k) == SplitFrom(SplitChild(n, k), m, k + 1)
  {
    assert n.children[k..] == [n.children[k]] + n.children[k + 1..];
    if |n.children[k].values| >= m {
      var s := SplitChild(n, k);
      assert s.children[k + 1..] == [Split(n.children[k]).2] + n.children[k + 1..];
      assert ([Split(n.children[k]).2] + n.children[k + 1..])[1..] == n.children[k + 1..];
    }
  }

  /** The split scan keeps the node's keys and shape. */
  lemma {:induction false} SplitFromKeys(n: BNode, m: nat, k: nat)
    requires m >= 1 && k <= |n.children| && Shaped(n)
    ensures Keys(SplitFrom(n, m, k)) == Keys(n) && Shaped(SplitFrom(n, m, k))
    decreases B.Load(n.children[k..])
  {
    if k < |n.children| {
      SplitFromStep(n, m, k);
      if |n.children[k].values| >= m {
        var s := SplitChild(n, k);
        SplitChildKeys(n, k);
        SplitFromKeys(s, m, k + 1);
      } else {
        SplitFromKeys(n, m, k + 1);
      }
    }
  }

  // ---------------------------------------------------------------------------
  // Insertion
  // ---------------------------------------------------------------------------

  /**
   * `__put` with an empty leaf handled: a leaf takes `v` unless it already
   * holds it; an internal node sends `v` down to the child of the first
   * separator not below it (the last child when there is none); then every
   * child that reached the order is split.
   */
  function Put(n: BNode, v: int, m: nat): (r: BNode)
    requires m >= 1 && Shaped(n)
  {
    if IsLeaf(n) then
      if v in n.values then n else BNode(AddVal(n.values, v), [])
    else
      var i := B.Descent(n, v);
      SplitFrom(n.(children := n.children[i := Put(n.children[i], v, m)]), m, 0)
  }

  /** Insertion adds exactly the inserted key, and keeps the tree shaped. */
  lemma {:induction false} PutKeys(n: BNode, v: int, m: nat)
    requires m >= 1 && Shaped(n)
    ensures Keys(Put(n, v, m)) == Keys(n) + {v} && Shaped(Put(n, v, m))
    decreases n
  {
    if IsLeaf(n) {
      if v !in n.values {
        B.ElemsAddVal(n.values, v);
      } else {
        assert v in B.Elems(n.values);
      }
    } else {
      var i := B.Descent(n, v);
      var c := Put(n.children[i], v, m);
      PutKeys(n.children[i], v, m);
      ChildKeysUpdate(n.children, i, c);
      var s := n.(children := n.children[i := c]);
      assert forall j :: 0 <= j < |s.children| ==> Shaped(s.children[j]);
      SplitFromKeys(s, m, 0);
    }
  }

  /**
   * `__put` as written: a leaf with no keys falls through the value scan to
   * `node.childs[-1]` on an empty list, which raises `IndexError` (`None`).
   */
  function PutAsWritten(n: BNode, v: int, m: nat): (r: Option<BNode>)
    requires m >= 1 && Shaped(n)
    ensures r.None? <==> ReachesEmptyLeaf(n, v)
    ensures r.Some? ==> r.value == Put(n, v, m)
  {
    if IsLeaf(n) then
      if n.values == [] then None
      else Some(if v in n.values then n else BNode(AddVal(n.values, v), []))
    else
      var i := B.Descent(n, v);
      match PutAsWritten(n.children[i], v, m)
      case None => None
      case Some(c) => Some(SplitFrom(n.(children := n.children[i := c]), m, 0))
  }

  /** The descent of `v` ends at a leaf without keys. */
  predicate ReachesEmptyLeaf(n: BNode, v: int)
    requires Shaped(n)
  {
    if IsLeaf(n) then n.values == [] else ReachesEmptyLeaf(n.children[B.Descent(n, v)], v)
  }

  /** `_split(None, root)`: the middle value becomes a new root over the two halves. */
  function SplitRoot(n: BNode): (r: BNode)
    requires |n.values| > 0
    ensures |r.values| == 1 && |r.children| == 2
  {
    BNode([Split(n).1], [SplitLeft(n), Split(n).2])
  }

  /** A root split keeps the keys. */
  lemma SplitRootKeys(n: BNode)
    requires |n.values| > 0 && Shaped(n)
    ensures Keys(SplitRoot(n)) == Keys(n) && Shaped(SplitRoot(n))
  {
    var r := SplitRoot(n);
    SplitKeys(n);
    assert r.children == [SplitLeft(n)] + [Split(n).2];
    ChildKeysAppend([SplitLeft(n)], [Split(n).2]);
    ChildKeysOne(SplitLeft(n));
    ChildKeysOne(Split(n).2);
  }

  // ---------------------------------------------------------------------------
  // Insertion keeps the order and the depth
  // ---------------------------------------------------------------------------

  /** Putting a value between its neighbours keeps a list non-decreasing. */
  lemma AscendingInsert(vs: seq<int>, k: nat, t: int)
    requires Ascending(vs) && k <= |vs|
    requires k > 0 ==> vs[k - 1] <= t
    requires k < |vs| ==> t <= vs[k]
    ensures Ascending(vs[..k] + [t] + vs[k..])
  {
    var r := vs[..k] + [t] + vs[k..];
    assert forall a :: 0 <= a < |r| ==> r[a] == if a < k then vs[a] else if a == k then t else vs[a - 1];
    forall a, b | 0 <= a < b < |r| ensures r[a] <= r[b] {
      if a < k && b == k {
        assert vs[a] <= vs[k - 1];
      } else if a == k && b > k {
        assert vs[k] <= vs[b - 1];
      }
    }
  }

  /** The part a split leaves in place is ordered up to the middle value. */
  lemma SplitLeftOrdered(c: BNode, lo: Option<int>, hi: Option<int>)
    requires Ordered(c, lo, hi) && |c.values| > 0
    ensures Ordered(SplitLeft(c), lo, Some(Split(c).1))
  {
    if IsLeaf(c) {
      SplitLeftLeafOrdered(c, lo, hi);
    } else {
      SplitLeftInnerOrdered(c, lo, hi);
    }
  }

  lemma SplitLeftLeafOrdered(c: BNode, lo: Option<int>, hi: Option<int>)
    requires Ordered(c, lo, hi) && |c.values| > 0 && IsLeaf(c)
    ensures Ordered(SplitLeft(c), lo, Some(Split(c).1))
  {
    var mid := |c.values| / 2;
    var l := SplitLeft(c);
    SplitLeftLeaf(c);
    assert IsLeaf(l);
    forall j | 0 <= j < |l.values| ensures B.Gt(l.values[j], lo) && Le(l.values[j], Some(c.values[mid])) {
      assert l.values[j] == c.values[j];
      if j < mid {
        assert c.values[j] < c.values[mid];
      }
    }
  }

  lemma SplitLeftInnerOrdered(c: BNode, lo: Option<int>, hi: Option<int>)
    requires Ordered(c, lo, hi) && |c.values| > 0 && !IsLeaf(c)
    ensures Ordered(SplitLeft(c), lo, Some(Split(c).1))
  {
    var mid := |c.values| / 2;
    var l := SplitLeft(c);
    assert l.values == c.values[..mid] && l.children == c.children[..mid + 1];
    forall j | 0 <= j < |l.values| ensures Ge(l.values[j], lo) && Le(l.values[j], Some(c.values[mid])) {
      assert l.values[j] == c.values[j];
    }
    forall i | 0 <= i < |l.children| ensures Ordered(l.children[i], B.LoOf(l, i, lo), B.HiOf(l, i, Some(c.values[mid]))) {
      assert l.children[i] == c.children[i];
      assert B.LoOf(l, i, lo) == B.LoOf(c, i, lo);
      assert B.HiOf(l, i, Some(c.values[mid])) == B.HiOf(c, i, hi);
    }
  }

  /** The new right sibling of a split is ordered above the middle value. */
  lemma SplitRightOrdered(c: BNode, lo: Option<int>, hi: Option<int>)
    requires Ordered(c, lo, hi) && |c.values| > 0
    ensures Ordered(Split(c).2, Some(Split(c).1), hi)
  {
    if IsLeaf(c) {
      SplitRightLeafOrdered(c, lo, hi);
    } else {
      SplitRightInnerOrdered(c, lo, hi);
    }
  }

  lemma SplitRightLeafOrdered(c: BNode, lo: Option<int>, hi: Option<int>)
    requires Ordered(c, lo, hi) && |c.values| > 0 && IsLeaf(c)
    ensures Ordered(Split(c).2, Some(Split(c).1), hi)
  {
    var mid := |c.values| / 2;
    var rt := Split(c).2;
    SplitSorted(c);
    SortedSuffix(c.values, mid + 1);
    assert IsLeaf(rt);
    forall j | 0 <= j < |rt.values| ensures B.Gt(rt.values[j], Some(c.values[mid])) && Le(rt.values[j], hi) {
      assert rt.values[j] == c.values[mid + 1 + j];
    }
  }

  lemma SplitRightInnerOrdered(c: BNode, lo: Option<int>, hi: Option<int>)
    requires Ordered(c, lo, hi) && |c.values| > 0 && !IsLeaf(c)
    ensures Ordered(Split(c).2, Some(Split(c).1), hi)
  {
    var mid := |c.values| / 2;
    var rt := Split(c).2;
    SplitRightInnerValues(c, lo, hi);
    forall i | 0 <= i < |rt.children| ensures Ordered(rt.children[i], B.LoOf(rt, i, Some(c.values[mid])), B.HiOf(rt, i, hi)) {
      SplitRightInnerChild(c, lo, hi, i);
    }
  }

  lemma SplitRightInnerValues(c: BNode, lo: Option<int>, hi: Option<int>)
    requires Ordered(c, lo, hi) && |c.values| > 0 && !IsLeaf(c)
    ensures Split(c).2.values == c.values[|c.values| / 2 + 1..]
    ensures Ascending(Split(c).2.values)
    ensures forall j :: 0 <= j < |Split(c).2.values| ==> Ge(Split(c).2.values[j], Some(Split(c).1)) && Le(Split(c).2.values[j], hi)
  {
    var mid := |c.values| / 2;
    var ws := c.values[mid + 1..];
    assert Between(c.values, lo, hi);
    AscendingTail(c.values, mid, ws, lo, hi);
    AddValsAscending(ws);
  }

  /** The separators after index `mid` stay non-decreasing and lie at or above the one at `mid`. */
  lemma AscendingTail(vs: seq<int>, mid: nat, ws: seq<int>, lo: Option<int>, hi: Option<int>)
    requires Ascending(vs) && mid < |vs| && Between(vs, lo, hi) && ws == vs[mid + 1..]
    ensures Ascending(ws) && forall j :: 0 <= j < |ws| ==> Ge(ws[j], Some(vs[mid])) && Le(ws[j], hi)
  {
    forall a, b | 0 <= a < b < |ws| ensures ws[a] <= ws[b] {
      assert ws[a] == vs[mid + 1 + a] && ws[b] == vs[mid + 1 + b];
    }
    forall j | 0 <= j < |ws| ensures Ge(ws[j], Some(vs[mid])) && Le(ws[j], hi) {
      assert ws[j] == vs[mid + 1 + j];
    }
  }

  /** Adding a non-decreasing run value by value to an empty list rebuilds the run. */
  lemma AddValsAscending(ws: seq<int>)
    requires Ascending(ws)
    ensures AddVals([], ws) == ws
  {
    var e: seq<int> := [];
    assert e + ws + e == ws && e + e == e;
    AddValsPlace(e, ws, e);
  }

  lemma SplitRightInnerChild(c: BNode, lo: Option<int>, hi: Option<int>, i: nat)
    requires Ordered(c, lo, hi) && |c.values| > 0 && !IsLeaf(c)
    requires Split(c).2.values == c.values[|c.values| / 2 + 1..]
    requires i < |Split(c).2.children|
    ensures Ordered(Split(c).2.children[i], B.LoOf(Split(c).2, i, Some(Split(c).1)), B.HiOf(Split(c).2, i, hi))
  {
    var mid := |c.values| / 2;
    var rt := Split(c).2;
    assert rt.children[i] == c.children[mid + 1 + i];
    assert B.LoOf(rt, i, Some(c.values[mid])) == B.LoOf(c, mid + 1 + i, lo);
    assert B.HiOf(rt, i, hi) == B.HiOf(c, mid + 1 + i, hi);
  }

  /** Each child keeps its bounds when child `k` is replaced by two children around `t`. */
  lemma SpreadChild(n: BNode, k: nat, x: BNode, t: int, y: BNode, lo: Option<int>, hi: Option<int>, i: nat)
    requires Ordered(n, lo, hi) && !IsLeaf(n) && k < |n.children|
    requires Ordered(x, B.LoOf(n, k, lo), Some(t)) && Ordered(y, Some(t), B.HiOf(n, k, hi))
    requires i <= |n.children|
    ensures var r := BNode(n.values[..k] + [t] + n.values[k..], n.children[..k] + [x, y] + n.children[k + 1..]);
            Ordered(r.children[i], B.LoOf(r, i, lo), B.HiOf(r, i, hi))
  {
    var r := BNode(n.values[..k] + [t] + n.values[k..], n.children[..k] + [x, y] + n.children[k + 1..]);
    if i < k {
      SpreadBefore(n, k, x, t, y, lo, hi, i);
    } else if i <= k + 1 {
      SpreadMiddle(n, k, x, t, y, lo, hi, i);
    } else {
      SpreadAfter(n, k, x, t, y, lo, hi, i);
    }
  }

  lemma SpreadBefore(n: BNode, k: nat, x: BNode, t: int, y: BNode, lo: Option<int>, hi: Option<int>, i: nat)
    requires Ordered(n, lo, hi) && !IsLeaf(n) && k < |n.children|
    requires Ordered(x, B.LoOf(n, k, lo), Some(t)) && Ordered(y, Some(t), B.HiOf(n, k, hi))
    requires i < k
    ensures var r := BNode(n.values[..k] + [t] + n.values[k..], n.children[..k] + [x, y] + n.children[k + 1..]);
            Ordered(r.children[i], B.LoOf(r, i, lo), B.HiOf(r, i, hi))
  {
    var r := BNode(n.values[..k] + [t] + n.values[k..], n.children[..k] + [x, y] + n.children[k + 1..]);
    assert r.children[i] == n.children[i];
    if i > 0 {
      assert r.values[i - 1] == n.values[i - 1];
    }
    assert r.values[i] == n.values[i];
  }

  lemma SpreadMiddle(n: BNode, k: nat, x: BNode, t: int, y: BNode, lo: Option<int>, hi: Option<int>, i: nat)
    requires Ordered(n, lo, hi) && !IsLeaf(n) && k < |n.children|
    requires Ordered(x, B.LoOf(n, k, lo), Some(t)) && Ordered(y, Some(t), B.HiOf(n, k, hi))
    requires k <= i <= k + 1
    ensures var r := BNode(n.values[..k] + [t] + n.values[k..], n.children[..k] + [x, y] + n.children[k + 1..]);
            Ordered(r.children[i], B.LoOf(r, i, lo), B.HiOf(r, i, hi))
  {
    var r := BNode(n.values[..k] + [t] + n.values[k..], n.children[..k] + [x, y] + n.children[k + 1..]);
    if i == k {
      assert r.children[i] == x;
      if k > 0 {
        assert r.values[k - 1] == n.values[k - 1];
      }
      assert r.values[k] == t;
    } else {
      assert r.children[i] == y;
      assert r.values[k] == t;
      if k < |n.values| {
        assert r.values[k + 1] == n.values[k];
      }
    }
  }

  lemma SpreadAfter(n: BNode, k: nat, x: BNode, t: int, y: BNode, lo: Option<int>, hi: Option<int>, i: nat)
    requires Ordered(n, lo, hi) && !IsLeaf(n) && k < |n.children|
    requires Ordered(x, B.LoOf(n, k, lo), Some(t)) && Ordered(y, Some(t), B.HiOf(n, k, hi))
    requires k + 1 < i <= |n.children|
    ensures var r := BNode(n.values[..k] + [t] + n.values[k..], n.children[..k] + [x, y] + n.children[k + 1..]);
            Ordered(r.children[i], B.LoOf(r, i, lo), B.HiOf(r, i, hi))
  {
    var r := BNode(n.values[..k] + [t] + n.values[k..], n.children[..k] + [x, y] + n.children[k + 1..]);
    assert r.children[i] == n.children[i - 1];
    assert r.values[i - 1] == n.values[i - 2];
    if i < |r.values| {
      assert r.values[i] == n.values[i - 1];
    }
  }

  /** A parent stays ordered when a child is replaced by two children around a value between its bounds. */
  lemma SpreadOrdered(n: BNode, k: nat, x: BNode, t: int, y: BNode, lo: Option<int>, hi: Option<int>)
    requires Ordered(n, lo, hi) && !IsLeaf(n) && k < |n.children|
    requires Ordered(x, B.LoOf(n, k, lo), Some(t)) && Ordered(y, Some(t), B.HiOf(n, k, hi))
    requires Ge(t, B.LoOf(n, k, lo)) && Le(t, B.HiOf(n, k, hi))
    ensures Ordered(BNode(n.values[..k] + [t] + n.values[k..], n.children[..k] + [x, y] + n.children[k + 1..]), lo, hi)
  {
    SpreadSeparators(n, k, t, lo, hi);
    SpreadChildren(n, k, x, t, y, lo, hi);
  }

  /** The separators with `t` put in at `k` stay non-decreasing and within the bounds. */
  lemma SpreadSeparators(n: BNode, k: nat, t: int, lo: Option<int>, hi: Option<int>)
    requires Ordered(n, lo, hi) && !IsLeaf(n) && k < |n.children|
    requires Ge(t, B.LoOf(n, k, lo)) && Le(t, B.HiOf(n, k, hi))
    ensures Ascending(n.values[..k] + [t] + n.values[k..]) && Between(n.values[..k] + [t] + n.values[k..], lo, hi)
  {
    AscendingInsert(n.values, k, t);
    assert Ge(t, lo) && Le(t, hi) by {
      if k > 0 {
        assert Ge(n.values[k - 1], lo);
      }
      if k < |n.values| {
        assert Le(n.values[k], hi);
      }
    }
    InsertBetween(n.values, k, t, lo, hi);
  }

  /** Putting a value within the bounds into a list within them keeps it within them. */
  lemma InsertBetween(vs: seq<int>, k: nat, t: int, lo: Option<int>, hi: Option<int>)
    requires k <= |vs| && Between(vs, lo, hi) && Ge(t, lo) && Le(t, hi)
    ensures Between(vs[..k] + [t] + vs[k..], lo, hi)
  {
    var r := vs[..k] + [t] + vs[k..];
    forall a | 0 <= a < |r| ensures Ge(r[a], lo) && Le(r[a], hi) {
      if a < k {
        assert r[a] == vs[a];
      } else if a > k {
        assert r[a] == vs[a - 1];
      }
    }
  }

  /** Every child of the spread node is ordered between its new neighbours. */
  lemma SpreadChildren(n: BNode, k: nat, x: BNode, t: int, y: BNode, lo: Option<int>, hi: Option<int>)
    requires Ordered(n, lo, hi) && !IsLeaf(n) && k < |n.children|
    requires Ordered(x, B.LoOf(n, k, lo), Some(t)) && Ordered(y, Some(t), B.HiOf(n, k, hi))
    ensures var r := BNode(n.values[..k] + [t] + n.values[k..], n.children[..k] + [x, y] + n.children[k + 1..]);
            forall i :: 0 <= i < |r.children| ==> Ordered(r.children[i], B.LoOf(r, i, lo), B.HiOf(r, i, hi))
  {
    var r := BNode(n.values[..k] + [t] + n.values[k..], n.children[..k] + [x, y] + n.children[k + 1..]);
    forall i | 0 <= i < |r.children| ensures Ordered(r.children[i], B.LoOf(r, i, lo), B.HiOf(r, i, hi)) {
      SpreadChild(n, k, x, t, y, lo, hi, i);
    }
  }

  /** Splitting a child of an ordered node keeps it ordered. */
  lemma SplitChildOrdered(n: BNode, k: nat, lo: Option<int>, hi: Option<int>)
    requires Ordered(n, lo, hi) && !IsLeaf(n) && k < |n.children| && |n.children[k].values| > 0
    ensures Ordered(SplitChild(n, k), lo, hi)
  {
    var c := n.children[k];
    var l, med, rt := SplitLeft(c), Split(c).1, Split(c).2;
    var clo, chi := B.LoOf(n, k, lo), B.HiOf(n, k, hi);
    SplitLeftOrdered(c, clo, chi);
    SplitRightOrdered(c, clo, chi);
    assert med == c.values[|c.values| / 2];
    assert Ge(med, clo) && Le(med, chi);
    forall j | 0 <= j < k ensures n.values[j] <= med {
      assert n.values[j] <= n.values[k - 1];
    }
    forall j | k <= j < |n.values| ensures med <= n.values[j] {
      assert n.values[k] <= n.values[j];
    }
    AddValPlace(n.values, k, med);
    SpreadOrdered(n, k, l, med, rt, lo, hi);
  }

  /** The split scan keeps an ordered node ordered. */
  lemma {:induction false} SplitFromOrdered(n: BNode, m: nat, k: nat, lo: Option<int>, hi: Option<int>)
    requires m >= 1 && k <= |n.children| && Ordered(n, lo, hi)
    ensures Ordered(SplitFrom(n, m, k), lo, hi)
    decreases B.Load(n.children[k..])
  {
    if k < |n.children| {
      SplitFromStep(n, m, k);
      if |n.children[k].values| >= m {
        var s := SplitChild(n, k);
        SplitChildOrdered(n, k, lo, hi);
        SplitFromOrdered(s, m, k + 1, lo, hi);
      } else {
        SplitFromOrdered(n, m, k + 1, lo, hi);
      }
    }
  }

  /** The child `__put` descends to is bounded around `v`. */
  lemma DescentBounds(n: BNode, v: int, lo: Option<int>, hi: Option<int>)
    requires Ordered(n, lo, hi) && !IsLeaf(n) && B.Gt(v, lo) && Le(v, hi)
    ensures B.Gt(v, B.LoOf(n, B.Descent(n, v), lo)) && Le(v, B.HiOf(n, B.Descent(n, v), hi))
  {
  }

  /** Replacing a child by one ordered between the same neighbours keeps the node ordered. */
  lemma ReplaceChildOrdered(n: BNode, i: nat, c: BNode, lo: Option<int>, hi: Option<int>)
    requires Ordered(n, lo, hi) && !IsLeaf(n) && i < |n.children|
    requires Ordered(c, B.LoOf(n, i, lo), B.HiOf(n, i, hi))
    ensures Ordered(n.(children := n.children[i := c]), lo, hi)
  {
    var r := n.(children := n.children[i := c]);
    forall j | 0 <= j < |r.children| ensures Ordered(r.children[j], B.LoOf(r, j, lo), B.HiOf(r, j, hi)) {
      assert B.LoOf(r, j, lo) == B.LoOf(n, j, lo) && B.HiOf(r, j, hi) == B.HiOf(n, j, hi);
    }
  }

  /** Insertion of a key within the bounds keeps the tree ordered. */
  lemma {:induction false} PutOrdered(n: BNode, v: int, m: nat, lo: Option<int>, hi: Option<int>)
    requires m >= 1 && Ordered(n, lo, hi) && B.Gt(v, lo) && Le(v, hi)
    ensures Shaped(n) && Ordered(Put(n, v, m), lo, hi)
    decreases n
  {
    OrderedShaped(n, lo, hi);
    if IsLeaf(n) {
      if v !in n.values {
        AddValSorted(n.values, v);
        var r := AddVal(n.values, v);
        B.ElemsAddVal(n.values, v);
        forall j | 0 <= j < |r| ensures B.Gt(r[j], lo) && Le(r[j], hi) {
          assert r[j] in B.Elems(r);
        }
      }
    } else {
      var i := B.Descent(n, v);
      DescentBounds(n, v, lo, hi);
      PutOrdered(n.children[i], v, m, B.LoOf(n, i, lo), B.HiOf(n, i, hi));
      ReplaceChildOrdered(n, i, Put(n.children[i], v, m), lo, hi);
      SplitFromOrdered(n.(children := n.children[i := Put(n.children[i], v, m)]), m, 0, lo, hi);
    }
  }

  /** The part a split leaves in place sits where the split node did. */
  lemma SplitLeftUniform(c: BNode, h: nat)
    requires Uniform(c, h) && Shaped(c) && |c.values| > 0
    ensures Uniform(SplitLeft(c), h) && Uniform(Split(c).2, h)
  {
    B.SplitUniform(c, h);
  }

  /** Splitting a child keeps every leaf at the same depth. */
  lemma SplitChildUniform(n: BNode, k: nat, h: nat)
    requires Uniform(n, h) && Shaped(n) && k < |n.children| && |n.children[k].values| > 0
    ensures Uniform(SplitChild(n, k), h)
  {
    SplitLeftUniform(n.children[k], h - 1);
    var r := SplitChild(n, k);
    forall i | 0 <= i < |r.children| ensures Uniform(r.children[i], h - 1) {
      if i < k {
        assert r.children[i] == n.children[i];
      } else if i > k + 1 {
        assert r.children[i] == n.children[i - 1];
      }
    }
  }

  /** The split scan keeps every leaf at the same depth. */
  lemma {:induction false} SplitFromUniform(n: BNode, m: nat, k: nat, h: nat)
    requires m >= 1 && k <= |n.children| && Uniform(n, h) && Shaped(n)
    ensures Uniform(SplitFrom(n, m, k), h)
    decreases B.Load(n.children[k..])
  {
    if k < |n.children| {
      SplitFromStep(n, m, k);
      if |n.children[k].values| >= m {
        var s := SplitChild(n, k);
        SplitChildUniform(n, k, h);
        SplitChildKeys(n, k);
        SplitFromUniform(s, m, k + 1, h);
      } else {
        SplitFromUniform(n, m, k + 1, h);
      }
    }
  }

  /** Insertion keeps every leaf at the same depth. */
  lemma {:induction false} PutUniform(n: BNode, v: int, m: nat, h: nat)
    requires m >= 1 && Shaped(n) && Uniform(n, h)
    ensures Uniform(Put(n, v, m), h)
    decreases n
  {
    if !IsLeaf(n) {
      var i := B.Descent(n, v);
      var c := Put(n.children[i], v, m);
      PutUniform(n.children[i], v, m, h - 1);
      PutKeys(n.children[i], v, m);
      var s := n.(children := n.children[i := c]);
      assert forall j :: 0 <= j < |s.children| ==> Uniform(s.children[j], h - 1) && Shaped(s.children[j]);
      SplitFromUniform(s, m, 0, h);
    }
  }

  /** A root split keeps the order and puts every leaf one level deeper. */
  lemma SplitRootKeeps(n: BNode, lo: Option<int>, hi: Option<int>, h: nat)
    requires |n.values| > 0 && Ordered(n, lo, hi) && Uniform(n, h)
    ensures Ordered(SplitRoot(n), lo, hi) && Uniform(SplitRoot(n), h + 1)
  {
    var med := Split(n).1;
    SplitLeftOrdered(n, lo, hi);
    SplitRightOrdered(n, lo, hi);
    OrderedShaped(n, lo, hi);
    SplitLeftUniform(n, h);
    assert med == n.values[|n.values| / 2];
    assert Ge(med, lo) && Le(med, hi);
  }

  // ---------------------------------------------------------------------------
  // Deletion
  // ---------------------------------------------------------------------------

  /**
   * `_fill_node` when the right brother has values to spare. A leaf child
   * takes the brother's first key, which also becomes the separator; an
   * internal child takes the separator, the brother's first separator goes
   * up, and the brother's first child moves over.
   */
  function BorrowRight(n: BNode, k: nat): (r: BNode)
    requires |n.children| == |n.values| + 1 && k + 1 < |n.children|
    requires |n.children[k + 1].values| > 0
    ensures |r.children| == |n.children| && |r.values| == |n.values|
  {
    var c, b := n.children[k], n.children[k + 1];
    var down := if IsLeaf(c) then b.values[0] else n.values[k];
    var c2 := BNode(AddVal(c.values, down), if IsLeaf(b) then c.children else c.children + [b.children[0]]);
    var b2 := BNode(b.values[1..], if IsLeaf(b) then b.children else b.children[1..]);
    BNode(n.values[k := b.values[0]], n.children[k := c2][k + 1 := b2])
  }

  /**
   * `_fill_node` when the right brother has none to spare: the child's keys
   * (a leaf) or its separators, its children and the parent's separator (an
   * internal node) join the brother, and the child and the separator leave
   * the parent.
   */
  function MergeRight(n: BNode, k: nat): (r: BNode)
    requires |n.children| == |n.values| + 1 && k + 1 < |n.children|
    ensures |r.children| == |n.children| - 1 && |r.values| == |n.values| - 1
  {
    var c, b := n.children[k], n.children[k + 1];
    var b2 := if IsLeaf(c) then BNode(AddVals(b.values, c.values), b.children)
              else BNode(AddVal(AddVals(b.values, c.values), n.values[k]), c.children + b.children);
    BNode(n.values[..k] + n.values[k + 1..], n.children[..k] + [b2] + n.children[k + 2..])
  }

  /**
   * The separator `_fill_node` puts above the last child after it borrows
   * from its left brother: for a leaf, the brother's key before the one that
   * moves over, so that the moved key lies above the separator; for an
   * internal node, the brother's last separator.
   */
  function LeftUp(n: BNode, k: nat): (r: int)
    requires |n.children| == |n.values| + 1 && 0 < k && k + 1 == |n.children|
    requires |n.children[k - 1].values| >= 2
    ensures r in n.children[k - 1].values
  {
    var b := n.children[k - 1];
    if IsLeaf(n.children[k]) then b.values[|b.values| - 2] else b.values[|b.values| - 1]
  }

  /**
   * The separator as balance_plus_tree.py writes it for a leaf: the moved
   * key itself unless the old separator equals it.
   */
  function LeftUpAsWritten(n: BNode, k: nat): (r: int)
    requires |n.children| == |n.values| + 1 && 0 < k && k + 1 == |n.children|
    requires |n.children[k - 1].values| >= 2
    ensures var b := n.children[k - 1];
            if IsLeaf(n.children[k]) && n.values[k - 1] != b.values[|b.values| - 1]
            then r == b.values[|b.values| - 1] else r == LeftUp(n, k)
  {
    var b := n.children[k - 1];
    var last := |b.values| - 1;
    if IsLeaf(n.children[k]) && n.values[k - 1] != b.values[last] then b.values[last]
    else LeftUp(n, k)
  }

  /**
   * `_fill_node` for the last child when its left brother has values to
   * spare: the brother's last key (a leaf) or the parent's last separator
   * (an internal node) goes to the child, `up` becomes the parent's last
   * separator, and the brother's last child moves over.
   */
  function BorrowLeft(n: BNode, k: nat, up: int): (r: BNode)
    requires |n.children| == |n.values| + 1 && 0 < k && k + 1 == |n.children|
    requires |n.children[k - 1].values| > 0
    ensures |r.children| == |n.children| && |r.values| == |n.values|
  {
    var c, b := n.children[k], n.children[k - 1];
    var last := |b.values| - 1;
    var down := if IsLeaf(c) then b.values[last] else n.values[k - 1];
    var c2 := BNode(AddVal(c.values, down), if IsLeaf(b) then c.children else [b.children[|b.children| - 1]] + c.children);
    var b2 := BNode(b.values[..last], if IsLeaf(b) then b.children else b.children[..|b.children| - 1]);
    BNode(n.values[k - 1 := up], n.children[k - 1 := b2][k := c2])
  }

  /**
   * `_fill_node` for the last child when its left brother has none to
   * spare: the child (and, for an internal node, the parent's last
   * separator) joins the brother.
   */
  function MergeLeft(n: BNode, k: nat): (r: BNode)
    requires |n.children| == |n.values| + 1 && 0 < k && k + 1 == |n.children|
    ensures |r.children| == |n.children| - 1 && |r.values| == |n.values| - 1
  {
    var c, b := n.children[k], n.children[k - 1];
    var b2 := if IsLeaf(c) then BNode(AddVals(b.values, c.values), b.children)
              else BNode(AddVal(AddVals(b.values, c.values), n.values[k - 1]), b.children + c.children);
    BNode(n.values[..k - 1], n.children[..k - 1] + [b2])
  }

  /**
   * `_fill_node(parent, child, k)` for a child left with fewer than
   * `ceil(m/2) - 1` values, with the left-borrow separator corrected. The
   * lone child of a node without separators is its own "left brother" in
   * the source, which loops adding the child's keys to themselves or fails
   * on the missing separator: `None`.
   */
  function Fill(n: BNode, k: nat, m: nat): (r: Option<BNode>)
    requires m >= 1 && |n.children| == |n.values| + 1 && k < |n.children|
    requires |n.children[k].values| < Threshold(m)
    ensures r.None? <==> k == 0 && |n.children| == 1
    ensures r.Some? ==> |r.value.children| == |r.value.values| + 1
  {
    if k + 1 < |n.children| then
      if |n.children[k + 1].values| > Threshold(m) then Some(BorrowRight(n, k)) else Some(MergeRight(n, k))
    else if k == 0 then None
    else if |n.children[k - 1].values| > Threshold(m) then Some(BorrowLeft(n, k, LeftUp(n, k)))
    else Some(MergeLeft(n, k))
  }

  /** `_fill_node` as written: it differs from `Fill` only in the separator of a left borrow. */
  function FillAsWritten(n: BNode, k: nat, m: nat): (r: Option<BNode>)
    requires m >= 1 && |n.children| == |n.values| + 1 && k < |n.children|
    requires |n.children[k].values| < Threshold(m)
    ensures r.None? <==> k == 0 && |n.children| == 1
    ensures !(0 < k && k + 1 == |n.children| && |n.children[k - 1].values| > Threshold(m)) ==> r == Fill(n, k, m)
    ensures 0 < k && k + 1 == |n.children| && |n.children[k - 1].values| > Threshold(m) ==>
              r == Some(BorrowLeft(n, k, LeftUpAsWritten(n, k)))
  {
    if 0 < k && k + 1 == |n.children| && |n.children[k - 1].values| > Threshold(m) then
      Some(BorrowLeft(n, k, LeftUpAsWritten(n, k)))
    else Fill(n, k, m)
  }

  /**
   * The scan `for k, child in enumerate(node.childs)` after a deletion: every
   * child left with fewer than `ceil(m/2) - 1` values is filled; the scan
   * goes on at `k + 1` of the list as the fill left it.
   */
  function FillFrom(n: BNode, m: nat, k: nat): (r: Option<BNode>)
    requires m >= 1 && (IsLeaf(n) || |n.children| == |n.values| + 1)
    ensures r.Some? ==> IsLeaf(r.value) == IsLeaf(n)
    ensures r.Some? ==> IsLeaf(r.value) || |r.value.children| == |r.value.values| + 1
    decreases |n.children| - k
  {
    if k >= |n.children| then Some(n)
    else if |n.children[k].values| < Threshold(m) then
      match Fill(n, k, m)
      case None => None
      case Some(n2) => FillFrom(n2, m, k + 1)
    else FillFrom(n, m, k + 1)
  }

  /**
   * `__delete_node`: a leaf drops `v` if it holds it; an internal node sends
   * the deletion down to the child `__put` would choose, then fills its
   * under-filled children. `None` is the failure of a lone-child fill.
   */
  function DeleteNode(n: BNode, v: int, m: nat): (r: Option<BNode>)
    requires m >= 1 && Shaped(n)
    ensures r.Some? ==> IsLeaf(r.value) == IsLeaf(n)
    decreases n
  {
    if IsLeaf(n) then
      var k := B.IndexOf(n.values, v);
      Some(if k < |n.values| then BNode(n.values[..k] + n.values[k + 1..], []) else n)
    else
      var i := B.Descent(n, v);
      match DeleteNode(n.children[i], v, m)
      case None => None
      case Some(c) => FillFrom(n.(children := n.children[i := c]), m, 0)
  }

  // ---------------------------------------------------------------------------
  // Reshaping a parent around its children `j` and `j + 1`
  // ---------------------------------------------------------------------------

  lemma ReplaceAscending(vs: seq<int>, j: nat, t: int)
    requires Ascending(vs) && j < |vs|
    requires j > 0 ==> vs[j - 1] <= t
    requires j + 1 < |vs| ==> t <= vs[j + 1]
    ensures Ascending(vs[j := t])
  {
    var r := vs[j := t];
    forall a, b | 0 <= a < b < |r| ensures r[a] <= r[b] {
      if a == j && b > j + 1 {
        assert vs[j + 1] <= vs[b];
      } else if b == j && a < j - 1 {
        assert vs[a] <= vs[j - 1];
      }
    }
  }

  lemma RemoveAscending(vs: seq<int>, j: nat)
    requires Ascending(vs) && j < |vs|
    ensures Ascending(vs[..j] + vs[j + 1..])
  {
    var r := vs[..j] + vs[j + 1..];
    assert forall i :: 0 <= i < |r| ==> r[i] == if i < j then vs[i] else vs[i + 1];
  }

  /** The keys of a parent below its children other than `j` and `j + 1`. */
  ghost function Rest(n: BNode, j: nat): set<int>
    requires j + 1 < |n.children|
  {
    ChildKeys(n.children[..j]) + ChildKeys(n.children[j + 2..])
  }

  /** Replacing the children `j` and `j + 1` replaces their keys. */
  lemma PairKeys(n: BNode, j: nat, x: BNode, t: int, y: BNode)
    requires j < |n.values| && j + 1 < |n.children|
    ensures Keys(BNode(n.values[j := t], n.children[j := x][j + 1 := y])) == Rest(n, j) + Keys(x) + Keys(y)
  {
    var cs := n.children[j := x][j + 1 := y];
    assert cs == n.children[..j] + [x, y] + n.children[j + 2..];
    assert [x, y] == [x] + [y];
    ChildKeysSplice(n.children[..j], [x, y], n.children[j + 2..]);
    ChildKeysAppend([x], [y]);
    ChildKeysOne(x);
    ChildKeysOne(y);
  }

  /** The keys of an internal node, split around its children `j` and `j + 1`. */
  lemma PairRest(n: BNode, j: nat)
    requires j < |n.values| && j + 1 < |n.children|
    ensures Keys(n) == Rest(n, j) + Keys(n.children[j]) + Keys(n.children[j + 1])
  {
    assert n == BNode(n.values[j := n.values[j]], n.children[j := n.children[j]][j + 1 := n.children[j + 1]]);
    PairKeys(n, j, n.children[j], n.values[j], n.children[j + 1]);
  }

  /** Replacing the children `j` and `j + 1` and the separator between them by one child. */
  lemma MergeKeys(n: BNode, j: nat, x: BNode)
    requires j < |n.values| && j + 1 < |n.children|
    ensures Keys(BNode(n.values[..j] + n.values[j + 1..], n.children[..j] + [x] + n.children[j + 2..])) == Rest(n, j) + Keys(x)
  {
    ChildKeysSplice(n.children[..j], [x], n.children[j + 2..]);
    ChildKeysOne(x);
  }

  /** The bounds of two neighbouring children of an ordered node meet at the separator between them. */
  lemma Neighbours(n: BNode, j: nat, lo: Option<int>, hi: Option<int>)
    requires Ordered(n, lo, hi) && !IsLeaf(n) && j + 1 < |n.children|
    ensures B.HiOf(n, j, hi) == Some(n.values[j]) && B.LoOf(n, j + 1, lo) == Some(n.values[j])
    ensures Ge(n.values[j], B.LoOf(n, j, lo)) && Le(n.values[j], B.HiOf(n, j + 1, hi))
    ensures Ge(n.values[j], lo) && Le(n.values[j], hi)
    ensures Ordered(n.children[j], B.LoOf(n, j, lo), Some(n.values[j]))
    ensures Ordered(n.children[j + 1], Some(n.values[j]), B.HiOf(n, j + 1, hi))
  {
    if j > 0 {
      assert n.values[j - 1] <= n.values[j];
    }
    if j + 1 < |n.values| {
      assert n.values[j] <= n.values[j + 1];
    }
  }

  /** Each child keeps its bounds when the separator between children `j` and `j + 1` changes. */
  lemma PairChild(n: BNode, j: nat, x: BNode, t: int, y: BNode, lo: Option<int>, hi: Option<int>, i: nat)
    requires Ordered(n, lo, hi) && !IsLeaf(n) && j + 1 < |n.children|
    requires Ordered(x, B.LoOf(n, j, lo), Some(t)) && Ordered(y, Some(t), B.HiOf(n, j + 1, hi))
    requires i < |n.children|
    ensures var r := BNode(n.values[j := t], n.children[j := x][j + 1 := y]);
            Ordered(r.children[i], B.LoOf(r, i, lo), B.HiOf(r, i, hi))
  {
    var r := BNode(n.values[j := t], n.children[j := x][j + 1 := y]);
    if i < j || i > j + 1 {
      assert r.children[i] == n.children[i];
      assert B.LoOf(r, i, lo) == B.LoOf(n, i, lo) && B.HiOf(r, i, hi) == B.HiOf(n, i, hi);
    } else if i == j {
      assert B.LoOf(r, i, lo) == B.LoOf(n, j, lo);
    } else {
      assert B.HiOf(r, i, hi) == B.HiOf(n, j + 1, hi);
    }
  }

  /** A parent stays ordered when a separator and the children around it are replaced consistently. */
  lemma PairOrdered(n: BNode, j: nat, x: BNode, t: int, y: BNode, lo: Option<int>, hi: Option<int>)
    requires Ordered(n, lo, hi) && !IsLeaf(n) && j + 1 < |n.children|
    requires Ordered(x, B.LoOf(n, j, lo), Some(t)) && Ordered(y, Some(t), B.HiOf(n, j + 1, hi))
    requires Ge(t, B.LoOf(n, j, lo)) && Le(t, B.HiOf(n, j + 1, hi))
    ensures Ordered(BNode(n.values[j := t], n.children[j := x][j + 1 := y]), lo, hi)
  {
    var r := BNode(n.values[j := t], n.children[j := x][j + 1 := y]);
    ReplaceAscending(n.values, j, t);
    assert Ge(t, lo) && Le(t, hi) by {
      if j > 0 {
        assert Ge(n.values[j - 1], lo);
      }
      if j + 1 < |n.values| {
        assert Le(n.values[j + 1], hi);
      }
    }
    forall i | 0 <= i < |r.children| ensures Ordered(r.children[i], B.LoOf(r, i, lo), B.HiOf(r, i, hi)) {
      PairChild(n, j, x, t, y, lo, hi, i);
    }
  }

  /** Each child keeps its bounds when children `j` and `j + 1` are fused. */
  lemma MergeChild(n: BNode, j: nat, x: BNode, lo: Option<int>, hi: Option<int>, i: nat)
    requires Ordered(n, lo, hi) && !IsLeaf(n) && j + 1 < |n.children|
    requires Ordered(x, B.LoOf(n, j, lo), B.HiOf(n, j + 1, hi))
    requires i < |n.children| - 1
    ensures var r := BNode(n.values[..j] + n.values[j + 1..], n.children[..j] + [x] + n.children[j + 2..]);
            Ordered(r.children[i], B.LoOf(r, i, lo), B.HiOf(r, i, hi))
  {
    var r := BNode(n.values[..j] + n.values[j + 1..], n.children[..j] + [x] + n.children[j + 2..]);
    if i < j {
      B.MergedBounds(n.values, j, r.values, i, i + 1);
      assert r.children[i] == n.children[i];
      assert B.LoOf(r, i, lo) == B.LoOf(n, i, lo) && B.HiOf(r, i, hi) == B.HiOf(n, i, hi);
    } else if i == j {
      B.MergedBounds(n.values, j, r.values, i, i + 1);
      assert B.LoOf(r, i, lo) == B.LoOf(n, j, lo) && B.HiOf(r, i, hi) == B.HiOf(n, j + 1, hi);
    } else {
      B.MergedAbove(n, j, x, i, i + 1);
      B.MergedBounds(n.values, j, r.values, i, i + 1);
      assert B.LoOf(r, i, lo) == B.LoOf(n, i + 1, lo) && B.HiOf(r, i, hi) == B.HiOf(n, i + 1, hi);
    }
  }

  /** A parent stays ordered when children `j` and `j + 1` and the separator between them become one child. */
  lemma MergeOrdered(n: BNode, j: nat, x: BNode, lo: Option<int>, hi: Option<int>)
    requires Ordered(n, lo, hi) && !IsLeaf(n) && j + 1 < |n.children|
    requires Ordered(x, B.LoOf(n, j, lo), B.HiOf(n, j + 1, hi))
    ensures Ordered(BNode(n.values[..j] + n.values[j + 1..], n.children[..j] + [x] + n.children[j + 2..]), lo, hi)
  {
    var r := BNode(n.values[..j] + n.values[j + 1..], n.children[..j] + [x] + n.children[j + 2..]);
    RemoveAscending(n.values, j);
    RemoveBetween(n.values, j, lo, hi);
    forall i | 0 <= i < |r.children| ensures Ordered(r.children[i], B.LoOf(r, i, lo), B.HiOf(r, i, hi)) {
      MergeChild(n, j, x, lo, hi, i);
    }
  }

  /** Every value of `s` lies between the bounds, both included. */
  ghost predicate Between(s: seq<int>, lo: Option<int>, hi: Option<int>)
  {
    forall j :: 0 <= j < |s| ==> Ge(s[j], lo) && Le(s[j], hi)
  }

  /** Removing a separator from a list of separators between two bounds leaves one between them. */
  lemma RemoveBetween(vs: seq<int>, j: nat, lo: Option<int>, hi: Option<int>)
    requires j < |vs| && Between(vs, lo, hi)
    ensures Between(vs[..j] + vs[j + 1..], lo, hi)
  {
    var r := vs[..j] + vs[j + 1..];
    forall a | 0 <= a < |r| ensures Ge(r[a], lo) && Le(r[a], hi) {
      if a < j {
        assert r[a] == vs[a];
      } else {
        assert r[a] == vs[a + 1];
      }
    }
  }

  // ---------------------------------------------------------------------------
  // Leaves laid end to end; internal nodes cut and joined
  // ---------------------------------------------------------------------------

  /** Two leaves ordered on either side of `s`, laid end to end, form one ordered leaf. */
  lemma LeafCat(a: BNode, s: int, b: BNode, lo: Option<int>, hi: Option<int>)
    requires IsLeaf(a) && IsLeaf(b) && Ordered(a, lo, Some(s)) && Ordered(b, Some(s), hi)
    requires Ge(s, lo) && Le(s, hi)
    ensures Sorted(a.values + b.values)
    ensures Ordered(BNode(a.values + b.values, []), lo, hi)
    ensures Keys(BNode(a.values + b.values, [])) == Keys(a) + Keys(b)
  {
    var vs := a.values + b.values;
    assert forall j :: 0 <= j < |vs| ==> vs[j] == if j < |a.values| then a.values[j] else b.values[j - |a.values|];
    forall i, j | 0 <= i < j < |vs| ensures vs[i] < vs[j] {
      if i < |a.values| && j >= |a.values| {
        assert vs[i] <= s < vs[j];
      }
    }
    B.ElemsCat(a.values, b.values);
  }

  /** Two internal nodes ordered on either side of `s` join into one ordered node. */
  lemma JoinOrdered(a: BNode, s: int, b: BNode, lo: Option<int>, hi: Option<int>)
    requires !IsLeaf(a) && !IsLeaf(b) && Ordered(a, lo, Some(s)) && Ordered(b, Some(s), hi)
    requires Ge(s, lo) && Le(s, hi)
    ensures Ordered(B.Join(a, s, b), lo, hi)
  {
    var r := B.Join(a, s, b);
    var vs := r.values;
    assert forall j :: 0 <= j < |vs| ==> vs[j] == if j < |a.values| then a.values[j] else if j == |a.values| then s else b.values[j - |a.values| - 1];
    forall i, j | 0 <= i < j < |vs| ensures vs[i] <= vs[j] {
      if i < |a.values| && j > |a.values| {
        assert vs[i] <= s <= vs[j];
      }
    }
    forall i | 0 <= i < |r.children| ensures Ordered(r.children[i], B.LoOf(r, i, lo), B.HiOf(r, i, hi)) {
      JoinChild(a, s, b, lo, hi, i);
    }
  }

  lemma JoinChild(a: BNode, s: int, b: BNode, lo: Option<int>, hi: Option<int>, i: nat)
    requires !IsLeaf(a) && !IsLeaf(b) && Ordered(a, lo, Some(s)) && Ordered(b, Some(s), hi)
    requires i < |B.Join(a, s, b).children|
    ensures i <= |B.Join(a, s, b).values|
    ensures Ordered(B.Join(a, s, b).children[i], B.LoOf(B.Join(a, s, b), i, lo), B.HiOf(B.Join(a, s, b), i, hi))
  {
    var r := B.Join(a, s, b);
    if i < |a.children| {
      assert r.children[i] == a.children[i];
      assert i > 0 ==> r.values[i - 1] == a.values[i - 1];
      assert r.values[i] == if i < |a.values| then a.values[i] else s;
      assert B.LoOf(r, i, lo) == B.LoOf(a, i, lo) && B.HiOf(r, i, hi) == B.HiOf(a, i, Some(s));
    } else {
      var j := i - |a.children|;
      assert r.children[i] == b.children[j];
      assert r.values[i - 1] == if j == 0 then s else b.values[j - 1];
      assert i < |r.values| ==> r.values[i] == b.values[j];
      assert B.LoOf(r, i, lo) == B.LoOf(b, j, Some(s)) && B.HiOf(r, i, hi) == B.HiOf(b, j, hi);
    }
  }

  /** Joining internal nodes unites their keys: the separator is no key. */
  lemma JoinKeys(a: BNode, s: int, b: BNode)
    requires !IsLeaf(a) && !IsLeaf(b)
    ensures Keys(B.Join(a, s, b)) == Keys(a) + Keys(b)
  {
    ChildKeysAppend(a.children, b.children);
  }

  /** Cutting an internal node at a separator splits its keys. */
  lemma CutKeys(n: BNode, j: nat)
    requires !IsLeaf(n) && |n.children| == |n.values| + 1 && j < |n.values|
    ensures Keys(B.Cut(n, j).0) + Keys(B.Cut(n, j).2) == Keys(n)
    ensures !IsLeaf(B.Cut(n, j).0) && !IsLeaf(B.Cut(n, j).2)
  {
    assert n.children == n.children[..j + 1] + n.children[j + 1..];
    ChildKeysAppend(n.children[..j + 1], n.children[j + 1..]);
  }

  /** The part of an ordered internal node before its `j`-th separator lies at most at that separator. */
  lemma CutLeftOrdered(n: BNode, j: nat, lo: Option<int>, hi: Option<int>)
    requires Ordered(n, lo, hi) && !IsLeaf(n) && j < |n.values|
    ensures Ordered(B.Cut(n, j).0, lo, Some(n.values[j]))
  {
    var l := B.Cut(n, j).0;
    assert l.children == n.children[..j + 1];
    forall i | 0 <= i < |l.values| ensures Le(l.values[i], Some(n.values[j])) {
      assert l.values[i] == n.values[i];
    }
    forall i | 0 <= i < |l.children| ensures Ordered(l.children[i], B.LoOf(l, i, lo), B.HiOf(l, i, Some(n.values[j]))) {
      assert l.children[i] == n.children[i];
      assert B.LoOf(l, i, lo) == B.LoOf(n, i, lo);
      assert B.HiOf(l, i, Some(n.values[j])) == B.HiOf(n, i, hi);
    }
  }

  lemma CutRightChild(n: BNode, j: nat, lo: Option<int>, hi: Option<int>, i: nat)
    requires Ordered(n, lo, hi) && !IsLeaf(n) && j < |n.values|
    requires i < |B.Cut(n, j).2.children|
    ensures i <= |B.Cut(n, j).2.values|
    ensures Ordered(B.Cut(n, j).2.children[i], B.LoOf(B.Cut(n, j).2, i, Some(n.values[j])), B.HiOf(B.Cut(n, j).2, i, hi))
  {
    var rt := B.Cut(n, j).2;
    assert rt.children == n.children[j + 1..];
    assert rt.children[i] == n.children[j + 1 + i];
    assert B.LoOf(rt, i, Some(n.values[j])) == B.LoOf(n, j + 1 + i, lo);
    assert B.HiOf(rt, i, hi) == B.HiOf(n, j + 1 + i, hi);
  }

  /** The part of an ordered internal node after its `j`-th separator lies at or above that separator. */
  lemma CutRightOrdered(n: BNode, j: nat, lo: Option<int>, hi: Option<int>)
    requires Ordered(n, lo, hi) && !IsLeaf(n) && j < |n.values|
    ensures Ordered(B.Cut(n, j).2, Some(n.values[j]), hi)
  {
    var rt := B.Cut(n, j).2;
    assert forall i :: 0 <= i < |rt.values| ==> rt.values[i] == n.values[j + 1 + i];
    forall i | 0 <= i < |rt.children| ensures Ordered(rt.children[i], B.LoOf(rt, i, Some(n.values[j])), B.HiOf(rt, i, hi)) {
      CutRightChild(n, j, lo, hi, i);
    }
  }

  // ---------------------------------------------------------------------------
  // The four ways `_fill_node` refills a child
  // ---------------------------------------------------------------------------

  /** `r` holds the keys of `n`, in the B+-tree order within the bounds, with every leaf at depth `h`. */
  ghost predicate Keeps(n: BNode, r: BNode, lo: Option<int>, hi: Option<int>, h: nat)
  {
    Keys(r) == Keys(n) && Ordered(r, lo, hi) && Uniform(r, h)
  }

  /** Two children at the same depth are both leaves or both internal. */
  lemma SameLevel(n: BNode, i: nat, j: nat, h: nat)
    requires Uniform(n, h) && !IsLeaf(n) && i < |n.children| && j < |n.children|
    ensures IsLeaf(n.children[i]) == IsLeaf(n.children[j])
  {
  }

  /** A key above every key of a leaf goes to its end. */
  lemma LeafAppend(c: BNode, s: int, x: int, lo: Option<int>)
    requires IsLeaf(c) && Ordered(c, lo, Some(s)) && s < x && Ge(s, lo)
    ensures AddVal(c.values, x) == c.values + [x]
    ensures Ordered(BNode(c.values + [x], []), lo, Some(x))
    ensures Keys(BNode(c.values + [x], [])) == Keys(c) + {x}
  {
    forall y | y in c.values ensures y < x {
    }
    AddValBack(c.values, x);
    LeafCat(c, s, BNode([x], []), lo, Some(x));
  }

  /** A key below every key of a leaf goes to its front. */
  lemma LeafPrepend(c: BNode, s: int, x: int, t: int, hi: Option<int>)
    requires IsLeaf(c) && Ordered(c, Some(s), hi) && t < x <= s && Le(s, hi)
    ensures AddVal(c.values, x) == [x] + c.values
    ensures Ordered(BNode([x] + c.values, []), Some(t), hi)
    ensures Keys(BNode([x] + c.values, [])) == {x} + Keys(c)
  {
    forall y | y in c.values ensures x < y {
    }
    AddValFront(c.values, x);
    LeafCat(BNode([x], []), s, c, Some(t), hi);
  }

  /** A leaf without its first key lies above that key. */
  lemma LeafTail(b: BNode, s: int, hi: Option<int>)
    requires IsLeaf(b) && Ordered(b, Some(s), hi) && |b.values| > 0
    ensures s < b.values[0] && Le(b.values[0], hi)
    ensures Ordered(BNode(b.values[1..], []), Some(b.values[0]), hi)
    ensures Keys(b) == {b.values[0]} + Keys(BNode(b.values[1..], []))
  {
    var t := b.values[1..];
    SortedSuffix(b.values, 1);
    forall j | 0 <= j < |t| ensures B.Gt(t[j], Some(b.values[0])) && Le(t[j], hi) {
      assert t[j] == b.values[1 + j];
    }
    assert b.values == [b.values[0]] + t;
    B.ElemsCat([b.values[0]], t);
  }

  /** A leaf without its last key lies at most at the key before it. */
  lemma LeafInit(b: BNode, lo: Option<int>, s: int)
    requires IsLeaf(b) && Ordered(b, lo, Some(s)) && |b.values| >= 2
    ensures var last := |b.values| - 1;
            b.values[last - 1] < b.values[last] <= s && B.Gt(b.values[last - 1], lo) &&
            Ordered(BNode(b.values[..last], []), lo, Some(b.values[last - 1])) &&
            Keys(b) == Keys(BNode(b.values[..last], [])) + {b.values[last]}
  {
    var last := |b.values| - 1;
    var p := b.values[..last];
    forall j | 0 <= j < |p| ensures B.Gt(p[j], lo) && Le(p[j], Some(b.values[last - 1])) {
      assert p[j] == b.values[j];
    }
    assert b.values == p + [b.values[last]];
    B.ElemsCat(p, [b.values[last]]);
  }

  /** `add_val` of each key of one leaf into the other, when they lie on either side of `s`. */
  lemma LeafMerge(a: BNode, s: int, b: BNode, lo: Option<int>, hi: Option<int>)
    requires IsLeaf(a) && IsLeaf(b) && Ordered(a, lo, Some(s)) && Ordered(b, Some(s), hi)
    requires Ge(s, lo) && Le(s, hi)
    ensures AddVals(b.values, a.values) == a.values + b.values
    ensures AddVals(a.values, b.values) == a.values + b.values
    ensures Ordered(BNode(a.values + b.values, []), lo, hi)
    ensures Keys(BNode(a.values + b.values, [])) == Keys(a) + Keys(b)
  {
    LeafCat(a, s, b, lo, hi);
    B.AddValsBefore(a.values, b.values);
    B.AddValsAfter(a.values, b.values);
  }

  /** The runs on either side of a value in a non-decreasing list. */
  lemma AscendingAround(a: seq<int>, s: int, b: seq<int>)
    requires Ascending(a + [s] + b)
    ensures Ascending(a + b)
    ensures forall j :: 0 <= j < |a| ==> a[j] <= s
    ensures forall j :: 0 <= j < |b| ==> s <= b[j]
  {
    var vs := a + [s] + b;
    var i := |a|;
    assert vs[..i] + vs[i + 1..] == a + b;
    RemoveAscending(vs, i);
    assert vs[i] == s;
    forall j | 0 <= j < |a| ensures a[j] <= s {
      assert a[j] == vs[j] <= vs[i];
    }
    forall j | 0 <= j < |b| ensures s <= b[j] {
      assert b[j] == vs[i + 1 + j] && vs[i] <= vs[i + 1 + j];
    }
  }

  /** `add_val` of the runs of two joined internal nodes, then of the separator, rebuilds the joined values. */
  lemma JoinRuns(a: BNode, s: int, b: BNode)
    requires Ascending(a.values + [s] + b.values)
    ensures AddVal(AddVals(b.values, a.values), s) == a.values + [s] + b.values
    ensures AddVal(AddVals(a.values, b.values), s) == a.values + [s] + b.values
  {
    AscendingAround(a.values, s, b.values);
    RunsPlace(a.values, b.values);
    AddValBetweenRuns(a.values, s, b.values);
  }

  /** `add_val` puts a value between two runs it separates. */
  lemma AddValBetweenRuns(x: seq<int>, s: int, y: seq<int>)
    requires forall j :: 0 <= j < |x| ==> x[j] <= s
    requires forall j :: 0 <= j < |y| ==> s <= y[j]
    ensures AddVal(x + y, s) == x + [s] + y
  {
    var xy := x + y;
    var i := |x|;
    forall j | 0 <= j < i ensures xy[j] <= s {
      assert xy[j] == x[j];
    }
    forall j | i <= j < |xy| ensures s <= xy[j] {
      assert xy[j] == y[j - i];
    }
    AddValPlace(xy, i, s);
    assert xy[..i] == x && xy[i..] == y;
  }

  /** `add_val` of each value of one run into another that it precedes. */
  lemma RunsPlace(a: seq<int>, b: seq<int>)
    requires Ascending(a + b)
    ensures AddVals(b, a) == a + b && AddVals(a, b) == a + b
  {
    var e: seq<int> := [];
    assert e + a + b == a + b && e + b == b;
    assert a + b + e == a + b && a + e == a;
    AddValsPlace(e, a, b);
    AddValsPlace(a, b, e);
  }

  /** The values of an ordered node are non-decreasing. */
  lemma OrderedAscending(n: BNode, lo: Option<int>, hi: Option<int>)
    requires Ordered(n, lo, hi)
    ensures Ascending(n.values)
  {
  }

  /** `BorrowRight` from a leaf brother, spelled out. */
  lemma BorrowRightLeafIs(n: BNode, k: nat)
    requires |n.children| == |n.values| + 1 && k + 1 < |n.children|
    requires IsLeaf(n.children[k]) && IsLeaf(n.children[k + 1]) && |n.children[k + 1].values| > 0
    requires AddVal(n.children[k].values, n.children[k + 1].values[0]) == n.children[k].values + [n.children[k + 1].values[0]]
    ensures var c, b := n.children[k], n.children[k + 1];
            BorrowRight(n, k) == BNode(n.values[k := b.values[0]], n.children[k := BNode(c.values + [b.values[0]], [])][k + 1 := BNode(b.values[1..], [])])
  {
  }

  /** `BorrowRight` from an internal brother: cut off its first separator and join it to the child. */
  lemma BorrowRightInnerIs(n: BNode, k: nat)
    requires |n.children| == |n.values| + 1 && k + 1 < |n.children|
    requires !IsLeaf(n.children[k]) && !IsLeaf(n.children[k + 1]) && |n.children[k + 1].values| > 0
    requires AddVal(n.children[k].values, n.values[k]) == n.children[k].values + [n.values[k]]
    ensures var c, b := n.children[k], n.children[k + 1];
            BorrowRight(n, k) == BNode(n.values[k := b.values[0]], n.children[k := B.Join(c, n.values[k], B.Cut(b, 0).0)][k + 1 := B.Cut(b, 0).2])
  {
    var c, b, s := n.children[k], n.children[k + 1], n.values[k];
    assert Take(b.children, 1) == [b.children[0]] && Drop(b.children, 1) == b.children[1..];
    assert b.values[..0] == [];
    assert B.Cut(b, 0).0 == BNode([], [b.children[0]]);
    assert B.Cut(b, 0).2 == BNode(b.values[1..], b.children[1..]);
    assert c.values + [s] + [] == c.values + [s];
    assert B.Join(c, s, B.Cut(b, 0).0) == BNode(AddVal(c.values, s), c.children + [b.children[0]]);
  }

  /** `BorrowLeft` from a leaf brother, spelled out. */
  lemma BorrowLeftLeafIs(n: BNode, k: nat, up: int)
    requires |n.children| == |n.values| + 1 && 0 < k && k + 1 == |n.children|
    requires IsLeaf(n.children[k]) && IsLeaf(n.children[k - 1]) && |n.children[k - 1].values| > 0
    requires var b := n.children[k - 1];
             AddVal(n.children[k].values, b.values[|b.values| - 1]) == [b.values[|b.values| - 1]] + n.children[k].values
    ensures var c, b := n.children[k], n.children[k - 1];
            var last := |b.values| - 1;
            BorrowLeft(n, k, up) == BNode(n.values[k - 1 := up], n.children[k - 1 := BNode(b.values[..last], [])][k := BNode([b.values[last]] + c.values, [])])
  {
  }

  /** `BorrowLeft` from an internal brother: cut off its last separator and join it to the child. */
  lemma BorrowLeftInnerIs(n: BNode, k: nat, up: int)
    requires |n.children| == |n.values| + 1 && 0 < k && k + 1 == |n.children|
    requires !IsLeaf(n.children[k]) && !IsLeaf(n.children[k - 1]) && |n.children[k - 1].values| > 0
    requires |n.children[k - 1].children| == |n.children[k - 1].values| + 1
    requires AddVal(n.children[k].values, n.values[k - 1]) == [n.values[k - 1]] + n.children[k].values
    ensures var c, b := n.children[k], n.children[k - 1];
            var last := |b.values| - 1;
            BorrowLeft(n, k, up) == BNode(n.values[k - 1 := up], n.children[k - 1 := B.Cut(b, last).0][k := B.Join(B.Cut(b, last).2, n.values[k - 1], c)])
  {
    var c, b, s := n.children[k], n.children[k - 1], n.values[k - 1];
    var last := |b.values| - 1;
    assert Take(b.children, last + 1) == b.children[..|b.children| - 1];
    assert Drop(b.children, last + 1) == [b.children[|b.children| - 1]];
    assert b.values[last + 1..] == [];
    assert B.Cut(b, last).0 == BNode(b.values[..last], b.children[..|b.children| - 1]);
    assert B.Cut(b, last).2 == BNode([], [b.children[|b.children| - 1]]);
    assert [] + [s] + c.values == [s] + c.values;
    assert B.Join(B.Cut(b, last).2, s, c) == BNode(AddVal(c.values, s), [b.children[|b.children| - 1]] + c.children);
  }

  /**
   * Replacing children `j` and `j + 1` and the separator between them by two
   * nodes that hold the same keys, ordered around the new separator and at
   * the same depth, keeps the parent's keys, order and leaf depth.
   */
  lemma PairKeeps(n: BNode, j: nat, j1: nat, x: BNode, t: int, y: BNode, lo: Option<int>, hi: Option<int>, h: nat)
    requires Ordered(n, lo, hi) && Uniform(n, h) && !IsLeaf(n) && j1 == j + 1 && j1 < |n.children|
    requires Ordered(x, B.LoOf(n, j, lo), Some(t)) && Ordered(y, Some(t), B.HiOf(n, j1, hi))
    requires Ge(t, B.LoOf(n, j, lo)) && Le(t, B.HiOf(n, j1, hi))
    requires Keys(x) + Keys(y) == Keys(n.children[j]) + Keys(n.children[j1])
    requires Uniform(x, h - 1) && Uniform(y, h - 1)
    ensures Keeps(n, BNode(n.values[j := t], n.children[j := x][j1 := y]), lo, hi, h)
  {
    PairOrdered(n, j, x, t, y, lo, hi);
    PairSameKeys(n, j, j1, x, t, y);
    B.PairUniform(n, j, x, t, y, h);
  }

  /** Replacing children `j` and `j + 1` by two nodes with the same keys keeps the parent's keys. */
  lemma PairSameKeys(n: BNode, j: nat, j1: nat, x: BNode, t: int, y: BNode)
    requires j < |n.values| && j1 == j + 1 && j1 < |n.children|
    requires Keys(x) + Keys(y) == Keys(n.children[j]) + Keys(n.children[j1])
    ensures Keys(BNode(n.values[j := t], n.children[j := x][j1 := y])) == Keys(n)
  {
    PairKeys(n, j, x, t, y);
    PairRest(n, j);
  }

  /**
   * Replacing children `j` and `j + 1` and the separator between them by one
   * node that holds their keys, within their bounds and at their depth,
   * keeps the parent's keys, order and leaf depth.
   */
  lemma MergeKeeps(n: BNode, j: nat, j1: nat, j2: nat, x: BNode, lo: Option<int>, hi: Option<int>, h: nat)
    requires Ordered(n, lo, hi) && Uniform(n, h) && !IsLeaf(n) && j1 == j + 1 && j2 == j + 2 && j1 < |n.children|
    requires Ordered(x, B.LoOf(n, j, lo), B.HiOf(n, j1, hi))
    requires Keys(x) == Keys(n.children[j]) + Keys(n.children[j1])
    requires Uniform(x, h - 1)
    ensures Keeps(n, BNode(n.values[..j] + n.values[j1..], n.children[..j] + [x] + n.children[j2..]), lo, hi, h)
  {
    MergeOrdered(n, j, x, lo, hi);
    MergeSameKeys(n, j, j1, j2, x);
    B.MergeUniform(n, j, x, h);
  }

  /** Replacing children `j` and `j + 1` by one node with their keys keeps the parent's keys. */
  lemma MergeSameKeys(n: BNode, j: nat, j1: nat, j2: nat, x: BNode)
    requires j < |n.values| && j1 == j + 1 && j2 == j + 2 && j1 < |n.children|
    requires Keys(x) == Keys(n.children[j]) + Keys(n.children[j1])
    ensures Keys(BNode(n.values[..j] + n.values[j1..], n.children[..j] + [x] + n.children[j2..])) == Keys(n)
  {
    MergeKeys(n, j, x);
    PairRest(n, j);
  }

  /** Two neighbouring leaves fused into one keep the parent's keys, order and leaf depth. */
  lemma MergeLeafKeeps(n: BNode, j: nat, j1: nat, j2: nat, lo: Option<int>, hi: Option<int>, h: nat)
    requires Ordered(n, lo, hi) && Uniform(n, h) && !IsLeaf(n) && j1 == j + 1 && j2 == j + 2 && j1 < |n.children|
    requires IsLeaf(n.children[j]) || IsLeaf(n.children[j1])
    ensures IsLeaf(n.children[j]) && IsLeaf(n.children[j1])
    ensures AddVals(n.children[j1].values, n.children[j].values) == n.children[j].values + n.children[j1].values
    ensures AddVals(n.children[j].values, n.children[j1].values) == n.children[j].values + n.children[j1].values
    ensures Keeps(n, BNode(n.values[..j] + n.values[j1..], n.children[..j] + [BNode(n.children[j].values + n.children[j1].values, [])] + n.children[j2..]), lo, hi, h)
  {
    Neighbours(n, j, lo, hi);
    SameLevel(n, j, j1, h);
    LeafMerged(n.children[j], n.values[j], n.children[j1], B.LoOf(n, j, lo), B.HiOf(n, j1, hi), h - 1);
    MergeKeeps(n, j, j1, j2, BNode(n.children[j].values + n.children[j1].values, []), lo, hi, h);
  }

  /** Two neighbouring internal nodes joined around their separator keep the parent's keys, order and leaf depth. */
  lemma MergeInnerKeeps(n: BNode, j: nat, j1: nat, j2: nat, lo: Option<int>, hi: Option<int>, h: nat)
    requires Ordered(n, lo, hi) && Uniform(n, h) && !IsLeaf(n) && j1 == j + 1 && j2 == j + 2 && j1 < |n.children|
    requires !IsLeaf(n.children[j]) || !IsLeaf(n.children[j1])
    ensures !IsLeaf(n.children[j]) && !IsLeaf(n.children[j1])
    ensures AddVal(AddVals(n.children[j1].values, n.children[j].values), n.values[j]) == B.Join(n.children[j], n.values[j], n.children[j1]).values
    ensures AddVal(AddVals(n.children[j].values, n.children[j1].values), n.values[j]) == B.Join(n.children[j], n.values[j], n.children[j1]).values
    ensures Keeps(n, BNode(n.values[..j] + n.values[j1..], n.children[..j] + [B.Join(n.children[j], n.values[j], n.children[j1])] + n.children[j2..]), lo, hi, h)
  {
    Neighbours(n, j, lo, hi);
    SameLevel(n, j, j1, h);
    InnerMerged(n.children[j], n.values[j], n.children[j1], B.LoOf(n, j, lo), B.HiOf(n, j1, hi), h - 1);
    MergeKeeps(n, j, j1, j2, B.Join(n.children[j], n.values[j], n.children[j1]), lo, hi, h);
  }

  /** A leaf taking the first key of the leaf after it, which becomes the separator. */
  lemma LeafShiftBack(c: BNode, s: int, b: BNode, L: Option<int>, H: Option<int>)
    requires IsLeaf(c) && IsLeaf(b) && Ordered(c, L, Some(s)) && Ordered(b, Some(s), H) && |b.values| > 0
    requires Ge(s, L)
    ensures var b0 := b.values[0];
            AddVal(c.values, b0) == c.values + [b0] &&
            Ordered(BNode(c.values + [b0], []), L, Some(b0)) && Ordered(BNode(b.values[1..], []), Some(b0), H) &&
            Ge(b0, L) && Le(b0, H) &&
            Keys(BNode(c.values + [b0], [])) + Keys(BNode(b.values[1..], [])) == Keys(c) + Keys(b)
  {
    LeafTail(b, s, H);
    LeafAppend(c, s, b.values[0], L);
  }

  lemma BorrowRightLeaf(n: BNode, k: nat, lo: Option<int>, hi: Option<int>, h: nat)
    requires Ordered(n, lo, hi) && Uniform(n, h) && !IsLeaf(n) && k + 1 < |n.children|
    requires |n.children[k + 1].values| > 0 && IsLeaf(n.children[k])
    ensures Keeps(n, BorrowRight(n, k), lo, hi, h)
  {
    Neighbours(n, k, lo, hi);
    SameLevel(n, k, k + 1, h);
    var c, b := n.children[k], n.children[k + 1];
    var b0 := b.values[0];
    LeafShiftBack(c, n.values[k], b, B.LoOf(n, k, lo), B.HiOf(n, k + 1, hi));
    BorrowRightLeafIs(n, k);
    PairKeeps(n, k, k + 1, BNode(c.values + [b0], []), b0, BNode(b.values[1..], []), lo, hi, h);
  }

  /** An internal node taking the separator and the first child of the internal node after it. */
  lemma InnerShiftBack(c: BNode, s: int, b: BNode, L: Option<int>, H: Option<int>, h: nat)
    requires !IsLeaf(c) && !IsLeaf(b) && Ordered(c, L, Some(s)) && Ordered(b, Some(s), H) && |b.values| > 0
    requires Ge(s, L) && Uniform(c, h) && Uniform(b, h)
    ensures var t := B.Cut(b, 0).1;
            AddVal(c.values, s) == c.values + [s] &&
            Ordered(B.Join(c, s, B.Cut(b, 0).0), L, Some(t)) && Ordered(B.Cut(b, 0).2, Some(t), H) &&
            Ge(t, L) && Le(t, H) &&
            Keys(B.Join(c, s, B.Cut(b, 0).0)) + Keys(B.Cut(b, 0).2) == Keys(c) + Keys(b) &&
            Uniform(B.Join(c, s, B.Cut(b, 0).0), h) && Uniform(B.Cut(b, 0).2, h)
  {
    OrderedShaped(b, Some(s), H);
    var b0, t, b2 := B.Cut(b, 0).0, B.Cut(b, 0).1, B.Cut(b, 0).2;
    AddValPlace(c.values, |c.values|, s);
    assert c.values[..|c.values|] == c.values && c.values[|c.values|..] == [];
    CutLeftOrdered(b, 0, Some(s), H);
    CutRightOrdered(b, 0, Some(s), H);
    CutKeys(b, 0);
    JoinOrdered(c, s, b0, L, Some(t));
    JoinKeys(c, s, b0);
    B.CutUniform(b, 0, h);
    B.JoinUniform(c, s, b0, h);
  }

  lemma BorrowRightInner(n: BNode, k: nat, lo: Option<int>, hi: Option<int>, h: nat)
    requires Ordered(n, lo, hi) && Uniform(n, h) && !IsLeaf(n) && k + 1 < |n.children|
    requires |n.children[k + 1].values| > 0 && !IsLeaf(n.children[k])
    ensures Keeps(n, BorrowRight(n, k), lo, hi, h)
  {
    Neighbours(n, k, lo, hi);
    SameLevel(n, k, k + 1, h);
    var c, b, s := n.children[k], n.children[k + 1], n.values[k];
    InnerShiftBack(c, s, b, B.LoOf(n, k, lo), B.HiOf(n, k + 1, hi), h - 1);
    BorrowRightInnerIs(n, k);
    PairKeeps(n, k, k + 1, B.Join(c, s, B.Cut(b, 0).0), B.Cut(b, 0).1, B.Cut(b, 0).2, lo, hi, h);
  }

  /** Two leaves ordered on either side of `s` merge into one leaf, whichever `add_val`s into the other. */
  lemma LeafMerged(a: BNode, s: int, b: BNode, lo: Option<int>, hi: Option<int>, h: nat)
    requires IsLeaf(a) && IsLeaf(b) && Ordered(a, lo, Some(s)) && Ordered(b, Some(s), hi)
    requires Ge(s, lo) && Le(s, hi) && Uniform(a, h)
    ensures AddVals(b.values, a.values) == a.values + b.values
    ensures AddVals(a.values, b.values) == a.values + b.values
    ensures Ordered(BNode(a.values + b.values, []), lo, hi)
    ensures Keys(BNode(a.values + b.values, [])) == Keys(a) + Keys(b)
    ensures Uniform(BNode(a.values + b.values, []), h)
  {
    LeafMerge(a, s, b, lo, hi);
  }

  /** Two internal nodes ordered on either side of `s` join into one node with their keys. */
  lemma InnerMerged(a: BNode, s: int, b: BNode, lo: Option<int>, hi: Option<int>, h: nat)
    requires !IsLeaf(a) && !IsLeaf(b) && Ordered(a, lo, Some(s)) && Ordered(b, Some(s), hi)
    requires Ge(s, lo) && Le(s, hi) && Uniform(a, h) && Uniform(b, h)
    ensures AddVal(AddVals(b.values, a.values), s) == B.Join(a, s, b).values
    ensures AddVal(AddVals(a.values, b.values), s) == B.Join(a, s, b).values
    ensures Ordered(B.Join(a, s, b), lo, hi)
    ensures Keys(B.Join(a, s, b)) == Keys(a) + Keys(b)
    ensures Uniform(B.Join(a, s, b), h)
  {
    JoinOrdered(a, s, b, lo, hi);
    OrderedAscending(B.Join(a, s, b), lo, hi);
    JoinRuns(a, s, b);
    JoinKeys(a, s, b);
    B.JoinUniform(a, s, b, h);
  }

  lemma MergeRightLeaf(n: BNode, k: nat, lo: Option<int>, hi: Option<int>, h: nat)
    requires Ordered(n, lo, hi) && Uniform(n, h) && !IsLeaf(n) && k + 1 < |n.children|
    requires IsLeaf(n.children[k])
    ensures Keeps(n, MergeRight(n, k), lo, hi, h)
  {
    MergeLeafKeeps(n, k, k + 1, k + 2, lo, hi, h);
    MergeRightLeafIs(n, k);
  }

  lemma MergeRightInner(n: BNode, k: nat, lo: Option<int>, hi: Option<int>, h: nat)
    requires Ordered(n, lo, hi) && Uniform(n, h) && !IsLeaf(n) && k + 1 < |n.children|
    requires !IsLeaf(n.children[k])
    ensures Keeps(n, MergeRight(n, k), lo, hi, h)
  {
    MergeInnerKeeps(n, k, k + 1, k + 2, lo, hi, h);
    MergeRightInnerIs(n, k);
  }

  /** A leaf taking the last key of the leaf before it, under the key before that as separator. */
  lemma LeafShiftForward(b: BNode, s: int, c: BNode, L: Option<int>, H: Option<int>)
    requires IsLeaf(b) && IsLeaf(c) && Ordered(b, L, Some(s)) && Ordered(c, Some(s), H) && |b.values| >= 2
    requires Le(s, H)
    ensures var last := |b.values| - 1;
            var t := b.values[last - 1];
            AddVal(c.values, b.values[last]) == [b.values[last]] + c.values &&
            Ordered(BNode(b.values[..last], []), L, Some(t)) && Ordered(BNode([b.values[last]] + c.values, []), Some(t), H) &&
            Ge(t, L) && Le(t, H) &&
            Keys(BNode(b.values[..last], [])) + Keys(BNode([b.values[last]] + c.values, [])) == Keys(b) + Keys(c)
  {
    var last := |b.values| - 1;
    LeafInit(b, L, s);
    LeafPrepend(c, s, b.values[last], b.values[last - 1], H);
  }

  lemma BorrowLeftLeaf(n: BNode, k: nat, lo: Option<int>, hi: Option<int>, h: nat)
    requires Ordered(n, lo, hi) && Uniform(n, h) && !IsLeaf(n) && 0 < k && k + 1 == |n.children|
    requires |n.children[k - 1].values| >= 2 && IsLeaf(n.children[k])
    ensures Keeps(n, BorrowLeft(n, k, LeftUp(n, k)), lo, hi, h)
  {
    Neighbours(n, k - 1, lo, hi);
    SameLevel(n, k - 1, k, h);
    var b, c := n.children[k - 1], n.children[k];
    var last := |b.values| - 1;
    var up := LeftUp(n, k);
    assert up == b.values[last - 1];
    LeafShiftForward(b, n.values[k - 1], c, B.LoOf(n, k - 1, lo), B.HiOf(n, k, hi));
    BorrowLeftLeafIs(n, k, up);
    PairKeeps(n, k - 1, k, BNode(b.values[..last], []), up, BNode([b.values[last]] + c.values, []), lo, hi, h);
  }

  /** An internal node taking the separator and the last child of the internal node before it keeps the keys and the depth. */
  lemma InnerShiftForwardKeys(b: BNode, last: nat, s: int, c: BNode, h: nat)
    requires !IsLeaf(b) && !IsLeaf(c) && |b.children| == |b.values| + 1 && last + 1 == |b.values|
    requires Uniform(b, h) && Uniform(c, h)
    ensures Keys(B.Cut(b, last).0) + Keys(B.Join(B.Cut(b, last).2, s, c)) == Keys(b) + Keys(c)
    ensures Uniform(B.Cut(b, last).0, h) && Uniform(B.Join(B.Cut(b, last).2, s, c), h)
  {
    CutKeys(b, last);
    JoinKeys(B.Cut(b, last).2, s, c);
    B.CutUniform(b, last, h);
    B.JoinUniform(B.Cut(b, last).2, s, c, h);
  }

  /** The same move keeps both nodes ordered around the separator that goes up. */
  lemma InnerShiftForwardOrdered(b: BNode, last: nat, s: int, c: BNode, L: Option<int>, H: Option<int>)
    requires !IsLeaf(b) && !IsLeaf(c) && Ordered(b, L, Some(s)) && Ordered(c, Some(s), H)
    requires last + 1 == |b.values| && Le(s, H)
    ensures var t := B.Cut(b, last).1;
            AddVal(c.values, s) == [s] + c.values &&
            Ordered(B.Cut(b, last).0, L, Some(t)) && Ordered(B.Join(B.Cut(b, last).2, s, c), Some(t), H) &&
            Ge(t, L) && Le(t, H)
  {
    var t, bl := B.Cut(b, last).1, B.Cut(b, last).2;
    AddValPlace(c.values, 0, s);
    assert c.values[..0] == [] && c.values[0..] == c.values;
    CutLeftOrdered(b, last, L, Some(s));
    CutRightOrdered(b, last, L, Some(s));
    assert bl.children == [b.children[last + 1]];
    JoinOrdered(bl, s, c, Some(t), H);
  }

  lemma BorrowLeftInner(n: BNode, k: nat, lo: Option<int>, hi: Option<int>, h: nat)
    requires Ordered(n, lo, hi) && Uniform(n, h) && !IsLeaf(n) && 0 < k && k + 1 == |n.children|
    requires |n.children[k - 1].values| >= 2 && !IsLeaf(n.children[k])
    ensures Keeps(n, BorrowLeft(n, k, LeftUp(n, k)), lo, hi, h)
  {
    Neighbours(n, k - 1, lo, hi);
    SameLevel(n, k - 1, k, h);
    var b, c, s := n.children[k - 1], n.children[k], n.values[k - 1];
    var last := |b.values| - 1;
    var up := LeftUp(n, k);
    assert up == B.Cut(b, last).1;
    var x, y := B.Cut(b, last).0, B.Join(B.Cut(b, last).2, s, c);
    InnerShiftForwardOrdered(b, last, s, c, B.LoOf(n, k - 1, lo), B.HiOf(n, k, hi));
    InnerShiftForwardKeys(b, last, s, c, h - 1);
    BorrowLeftInnerIs(n, k, up);
    PairKeeps(n, k - 1, k, x, up, y, lo, hi, h);
    KeepsSame(n, BNode(n.values[k - 1 := up], n.children[k - 1 := x][k := y]), BorrowLeft(n, k, up), lo, hi, h);
  }

  /** `Keeps` carries over to an equal result. */
  lemma KeepsSame(n: BNode, r: BNode, r2: BNode, lo: Option<int>, hi: Option<int>, h: nat)
    requires Keeps(n, r, lo, hi, h) && r == r2
    ensures Keeps(n, r2, lo, hi, h)
  {
  }

  /** `MergeRight` of a leaf, spelled out. */
  lemma MergeRightLeafIs(n: BNode, k: nat)
    requires |n.children| == |n.values| + 1 && k + 1 < |n.children|
    requires IsLeaf(n.children[k]) && IsLeaf(n.children[k + 1])
    requires AddVals(n.children[k + 1].values, n.children[k].values) == n.children[k].values + n.children[k + 1].values
    ensures MergeRight(n, k) == BNode(n.values[..k] + n.values[k + 1..], n.children[..k] + [BNode(n.children[k].values + n.children[k + 1].values, [])] + n.children[k + 2..])
  {
  }

  /** `MergeRight` of an internal node, spelled out. */
  lemma MergeRightInnerIs(n: BNode, k: nat)
    requires |n.children| == |n.values| + 1 && k + 1 < |n.children| && !IsLeaf(n.children[k])
    requires AddVal(AddVals(n.children[k + 1].values, n.children[k].values), n.values[k]) == B.Join(n.children[k], n.values[k], n.children[k + 1]).values
    ensures MergeRight(n, k) == BNode(n.values[..k] + n.values[k + 1..], n.children[..k] + [B.Join(n.children[k], n.values[k], n.children[k + 1])] + n.children[k + 2..])
  {
  }

  /** `MergeLeft` of a leaf, spelled out as the merge of the last two children. */
  lemma MergeLeftLeafIs(n: BNode, k: nat, k1: nat)
    requires |n.children| == |n.values| + 1 && 0 < k && k + 1 == |n.children| && k1 == k + 1
    requires IsLeaf(n.children[k]) && IsLeaf(n.children[k - 1])
    requires AddVals(n.children[k - 1].values, n.children[k].values) == n.children[k - 1].values + n.children[k].values
    ensures MergeLeft(n, k) == BNode(n.values[..k - 1] + n.values[k..], n.children[..k - 1] + [BNode(n.children[k - 1].values + n.children[k].values, [])] + n.children[k1..])
  {
    assert n.values[k..] == [] && n.children[k1..] == [];
  }

  /** `MergeLeft` of an internal node, spelled out as the merge of the last two children. */
  lemma MergeLeftInnerIs(n: BNode, k: nat, k1: nat)
    requires |n.children| == |n.values| + 1 && 0 < k && k + 1 == |n.children| && k1 == k + 1 && !IsLeaf(n.children[k])
    requires AddVal(AddVals(n.children[k - 1].values, n.children[k].values), n.values[k - 1]) == B.Join(n.children[k - 1], n.values[k - 1], n.children[k]).values
    ensures MergeLeft(n, k) == BNode(n.values[..k - 1] + n.values[k..], n.children[..k - 1] + [B.Join(n.children[k - 1], n.values[k - 1], n.children[k])] + n.children[k1..])
  {
    assert n.values[k..] == [] && n.children[k1..] == [];
  }

  lemma MergeLeftLeaf(n: BNode, k: nat, lo: Option<int>, hi: Option<int>, h: nat)
    requires Ordered(n, lo, hi) && Uniform(n, h) && !IsLeaf(n) && 0 < k && k + 1 == |n.children|
    requires IsLeaf(n.children[k])
    ensures Keeps(n, MergeLeft(n, k), lo, hi, h)
  {
    SameLevel(n, k - 1, k, h);
    MergeLeafKeeps(n, k - 1, k, k + 1, lo, hi, h);
    MergeLeftLeafIs(n, k, k + 1);
  }

  lemma MergeLeftInner(n: BNode, k: nat, lo: Option<int>, hi: Option<int>, h: nat)
    requires Ordered(n, lo, hi) && Uniform(n, h) && !IsLeaf(n) && 0 < k && k + 1 == |n.children|
    requires !IsLeaf(n.children[k])
    ensures Keeps(n, MergeLeft(n, k), lo, hi, h)
  {
    SameLevel(n, k - 1, k, h);
    MergeInnerKeeps(n, k - 1, k, k + 1, lo, hi, h);
    MergeLeftInnerIs(n, k, k + 1);
  }

  // ---------------------------------------------------------------------------
  // Deletion keeps the keys, the order and the leaf depth
  // ---------------------------------------------------------------------------

  /** One `_fill_node` keeps the keys, the order and the leaf depth. */
  lemma FillKeeps(n: BNode, k: nat, m: nat, lo: Option<int>, hi: Option<int>, h: nat)
    requires m >= 1 && Ordered(n, lo, hi) && Uniform(n, h) && !IsLeaf(n) && k < |n.children|
    requires |n.children[k].values| < Threshold(m) && !(k == 0 && |n.children| == 1)
    ensures Fill(n, k, m).Some?
    ensures Keys(Fill(n, k, m).value) == Keys(n)
    ensures Ordered(Fill(n, k, m).value, lo, hi) && Uniform(Fill(n, k, m).value, h)
  {
    var leaf := IsLeaf(n.children[k]);
    if k + 1 < |n.children| {
      if |n.children[k + 1].values| > Threshold(m) {
        if leaf { BorrowRightLeaf(n, k, lo, hi, h); } else { BorrowRightInner(n, k, lo, hi, h); }
      } else {
        if leaf { MergeRightLeaf(n, k, lo, hi, h); } else { MergeRightInner(n, k, lo, hi, h); }
      }
    } else if |n.children[k - 1].values| > Threshold(m) {
      if leaf { BorrowLeftLeaf(n, k, lo, hi, h); } else { BorrowLeftInner(n, k, lo, hi, h); }
    } else {
      if leaf { MergeLeftLeaf(n, k, lo, hi, h); } else { MergeLeftInner(n, k, lo, hi, h); }
    }
  }

  /** The fill scan keeps the keys, the order and the leaf depth whenever it succeeds. */
  lemma {:induction false} FillFromKeeps(n: BNode, m: nat, k: nat, lo: Option<int>, hi: Option<int>, h: nat)
    requires m >= 1 && Ordered(n, lo, hi) && Uniform(n, h)
    ensures FillFrom(n, m, k).Some? ==> Keeps(n, FillFrom(n, m, k).value, lo, hi, h)
    decreases |n.children| - k, 1
  {
    if k >= |n.children| {
      assert Keeps(n, n, lo, hi, h);
    } else if |n.children[k].values| >= Threshold(m) {
      FillFromKeeps(n, m, k + 1, lo, hi, h);
      FillFromSkip(n, m, k, lo, hi, h);
    } else if !(k == 0 && |n.children| == 1) {
      FillFromShortKeeps(n, m, k, lo, hi, h);
    } else {
      FillFromUnfold(n, m, k);
    }
  }

  /** The scan keeps the tree when it fills the short `k`-th child and goes on. */
  lemma {:induction false} FillFromShortKeeps(n: BNode, m: nat, k: nat, lo: Option<int>, hi: Option<int>, h: nat)
    requires m >= 1 && Ordered(n, lo, hi) && Uniform(n, h) && !IsLeaf(n) && k < |n.children|
    requires |n.children[k].values| < Threshold(m) && !(k == 0 && |n.children| == 1)
    ensures FillFrom(n, m, k).Some? ==> Keeps(n, FillFrom(n, m, k).value, lo, hi, h)
    decreases |n.children| - k, 0
  {
    FillKeeps(n, k, m, lo, hi, h);
    FillFromKeeps(Fill(n, k, m).value, m, k + 1, lo, hi, h);
    FillFromShort(n, m, k, lo, hi, h);
  }

  /** One step of the scan: fill the `k`-th child if it is short, then go on at `k + 1`. */
  lemma FillFromUnfold(n: BNode, m: nat, k: nat)
    requires m >= 1 && !IsLeaf(n) && |n.children| == |n.values| + 1 && k < |n.children|
    ensures |n.children[k].values| >= Threshold(m) ==> FillFrom(n, m, k) == FillFrom(n, m, k + 1)
    ensures |n.children[k].values| < Threshold(m) && k == 0 && |n.children| == 1 ==> FillFrom(n, m, k).None?
    ensures |n.children[k].values| < Threshold(m) && !(k == 0 && |n.children| == 1) ==>
              FillFrom(n, m, k) == FillFrom(Fill(n, k, m).value, m, k + 1)
  {
  }

  /** The scan step past a child that is full enough. */
  lemma FillFromSkip(n: BNode, m: nat, k: nat, lo: Option<int>, hi: Option<int>, h: nat)
    requires m >= 1 && !IsLeaf(n) && |n.children| == |n.values| + 1 && k < |n.children|
    requires |n.children[k].values| >= Threshold(m)
    requires FillFrom(n, m, k + 1).Some? ==> Keeps(n, FillFrom(n, m, k + 1).value, lo, hi, h)
    ensures FillFrom(n, m, k).Some? ==> Keeps(n, FillFrom(n, m, k).value, lo, hi, h)
  {
    FillFromUnfold(n, m, k);
  }

  /** The scan step that fills a short child. */
  lemma FillFromShort(n: BNode, m: nat, k: nat, lo: Option<int>, hi: Option<int>, h: nat)
    requires m >= 1 && !IsLeaf(n) && |n.children| == |n.values| + 1 && k < |n.children|
    requires |n.children[k].values| < Threshold(m) && !(k == 0 && |n.children| == 1)
    requires Fill(n, k, m).Some? && Keys(Fill(n, k, m).value) == Keys(n)
    requires var n2 := Fill(n, k, m).value;
             FillFrom(n2, m, k + 1).Some? ==> Keeps(n2, FillFrom(n2, m, k + 1).value, lo, hi, h)
    ensures FillFrom(n, m, k).Some? ==> Keeps(n, FillFrom(n, m, k).value, lo, hi, h)
  {
    FillFromUnfold(n, m, k);
    KeepsFrom(n, Fill(n, k, m).value, FillFrom(n, m, k), lo, hi, h);
  }

  /** A result kept from a node with the same keys is kept from the first. */
  lemma KeepsFrom(n: BNode, n2: BNode, r: Option<BNode>, lo: Option<int>, hi: Option<int>, h: nat)
    requires Keys(n2) == Keys(n) && (r.Some? ==> Keeps(n2, r.value, lo, hi, h))
    ensures r.Some? ==> Keeps(n, r.value, lo, hi, h)
  {
  }

  /** A key can only lie below the child `__delete_node` and `_search` descend to. */
  lemma DescentOnly(n: BNode, v: int, lo: Option<int>, hi: Option<int>, j: nat)
    requires Ordered(n, lo, hi) && !IsLeaf(n)
    requires j < |n.children| && j != B.Descent(n, v)
    ensures v !in Keys(n.children[j])
  {
    var i := B.Descent(n, v);
    OrderedBounds(n.children[j], B.LoOf(n, j, lo), B.HiOf(n, j, hi));
    if j > i {
      assert n.values[i] <= n.values[j - 1];
    }
  }

  /** Dropping `v` from the one part of a union that may hold it. */
  lemma DropOne(a: set<int>, p: set<int>, q: set<int>, c: set<int>, v: int)
    requires v !in a && v !in c && q == p - {v}
    ensures a + q + c == (a + p + c) - {v}
  {
  }

  /** Deleting from the child `__delete_node` descends to deletes from the node. */
  lemma DescentKeys(n: BNode, v: int, c: BNode, lo: Option<int>, hi: Option<int>)
    requires Ordered(n, lo, hi) && !IsLeaf(n)
    requires Keys(c) == Keys(n.children[B.Descent(n, v)]) - {v}
    ensures Keys(n.(children := n.children[B.Descent(n, v) := c])) == Keys(n) - {v}
  {
    var i := B.Descent(n, v);
    var cs := n.children;
    ChildKeysUpdate(cs, i, c);
    ChildKeysAt(cs[..i], v);
    ChildKeysAt(cs[i + 1..], v);
    if v in ChildKeys(cs[..i]) {
      var j :| 0 <= j < |cs[..i]| && v in Keys(cs[..i][j]);
      DescentOnly(n, v, lo, hi, j);
    }
    if v in ChildKeys(cs[i + 1..]) {
      var j :| 0 <= j < |cs[i + 1..]| && v in Keys(cs[i + 1..][j]);
      DescentOnly(n, v, lo, hi, i + 1 + j);
    }
    DropOne(ChildKeys(cs[..i]), Keys(cs[i]), Keys(c), ChildKeys(cs[i + 1..]), v);
  }

  /** A leaf that drops `v` keeps its order and every other key. */
  lemma DeleteLeaf(n: BNode, v: int, m: nat, lo: Option<int>, hi: Option<int>)
    requires m >= 1 && Ordered(n, lo, hi) && IsLeaf(n)
    ensures DeleteNode(n, v, m).Some?
    ensures Keys(DeleteNode(n, v, m).value) == Keys(n) - {v} && Ordered(DeleteNode(n, v, m).value, lo, hi)
  {
    var k := B.IndexOf(n.values, v);
    if k < |n.values| {
      var r := n.values[..k] + n.values[k + 1..];
      B.ElemsRemove(n.values, k);
      RemoveSorted(n.values, k);
      assert forall j :: 0 <= j < |r| ==> r[j] == if j < k then n.values[j] else n.values[j + 1];
    } else {
      assert v !in n.values;
    }
  }

  /** Deletion below an internal node, then its fill scan. */
  lemma {:induction false} DeleteBelow(n: BNode, v: int, m: nat, lo: Option<int>, hi: Option<int>, h: nat, c: BNode)
    requires m >= 1 && Ordered(n, lo, hi) && Uniform(n, h) && !IsLeaf(n)
    requires var i := B.Descent(n, v);
             Keys(c) == Keys(n.children[i]) - {v} && Ordered(c, B.LoOf(n, i, lo), B.HiOf(n, i, hi)) && Uniform(c, h - 1)
    ensures Shaped(n)
    ensures var r := FillFrom(n.(children := n.children[B.Descent(n, v) := c]), m, 0);
            r.Some? ==> Keys(r.value) == Keys(n) - {v} && Ordered(r.value, lo, hi) && Uniform(r.value, h)
  {
    OrderedShaped(n, lo, hi);
    var i := B.Descent(n, v);
    var n2 := n.(children := n.children[i := c]);
    ReplaceChildOrdered(n, i, c, lo, hi);
    DescentKeys(n, v, c, lo, hi);
    assert Uniform(n2, h) by {
      forall j | 0 <= j < |n2.children| ensures Uniform(n2.children[j], h - 1) {
      }
    }
    FillFromKeeps(n2, m, 0, lo, hi, h);
  }

  /**
   * `__delete_node` removes `v` and nothing else, and keeps the B+-tree
   * order and every leaf at the same depth, whenever it succeeds.
   */
  lemma {:induction false} DeleteKeeps(n: BNode, v: int, m: nat, lo: Option<int>, hi: Option<int>, h: nat)
    requires m >= 1 && Ordered(n, lo, hi) && Uniform(n, h)
    ensures Shaped(n)
    ensures var r := DeleteNode(n, v, m);
            r.Some? ==> Keys(r.value) == Keys(n) - {v} && Ordered(r.value, lo, hi) && Uniform(r.value, h)
    decreases n
  {
    OrderedShaped(n, lo, hi);
    if IsLeaf(n) {
      DeleteLeaf(n, v, m, lo, hi);
    } else {
      var i := B.Descent(n, v);
      DeleteKeeps(n.children[i], v, m, B.LoOf(n, i, lo), B.HiOf(n, i, hi), h - 1);
      match DeleteNode(n.children[i], v, m)
      case None =>
      case Some(c) => DeleteBelow(n, v, m, lo, hi, h, c);
    }
  }

  /** Every internal node of the subtree holds at least one separator; leaves may be empty. */
  ghost predicate Branching(n: BNode)
  {
    IsLeaf(n) || (|n.values| > 0 && forall i :: 0 <= i < |n.children| ==> Branching(n.children[i]))
  }

  /** The scan of fills can only fail at its first child, when that child is the node's only one. */
  lemma {:induction false} FillFromSucceeds(n: BNode, m: nat, k: nat)
    requires m >= 1 && (IsLeaf(n) || |n.children| == |n.values| + 1)
    requires k > 0 || |n.children| != 1
    ensures FillFrom(n, m, k).Some?
    decreases |n.children| - k
  {
    if k < |n.children| {
      if |n.children[k].values| < Threshold(m) {
        FillFromSucceeds(Fill(n, k, m).value, m, k + 1);
      } else {
        FillFromSucceeds(n, m, k + 1);
      }
    }
  }

  /**
   * `__delete_node` succeeds on every subtree whose internal nodes all hold
   * a separator, a lone leaf included: no fill then meets a lone child.
   */
  lemma {:induction false} DeleteSucceeds(n: BNode, v: int, m: nat)
    requires m >= 1 && Shaped(n) && Branching(n)
    ensures DeleteNode(n, v, m).Some?
    decreases n
  {
    if !IsLeaf(n) {
      var i := B.Descent(n, v);
      DeleteSucceeds(n.children[i], v, m);
      var d := DeleteNode(n.children[i], v, m);
      FillFromSucceeds(n.(children := n.children[i := d.value]), m, 0);
    }
  }

  // ---------------------------------------------------------------------------
  // Search
  // ---------------------------------------------------------------------------

  /**
   * `_search` on a subtree: an internal node sends `v` down to the child of
   * the first separator not below it (the last child when there is none); a
   * leaf answers `v` when its scan meets `v` before any larger key.
   */
  function Lookup(n: BNode, v: int): (r: Option<int>)
    requires Shaped(n)
    ensures r.Some? ==> r.value == v && v in Keys(n)
    decreases n
  {
    if IsLeaf(n) then
      var k := Slot(n.values, v);
      if k < |n.values| && n.values[k] == v then Some(v) else None
    else
      var i := B.Descent(n, v);
      ChildKeysAt(n.children, v);
      Lookup(n.children[i], v)
  }

  /** A key lies in an ordered node exactly when it lies in the child the descent picks. */
  lemma DescentFinds(n: BNode, v: int, lo: Option<int>, hi: Option<int>)
    requires Ordered(n, lo, hi) && !IsLeaf(n)
    ensures v in Keys(n) <==> v in Keys(n.children[B.Descent(n, v)])
  {
    ChildKeysAt(n.children, v);
    if v in Keys(n) {
      var j :| 0 <= j < |n.children| && v in Keys(n.children[j]);
      if j != B.Descent(n, v) {
        DescentOnly(n, v, lo, hi, j);
      }
    }
  }

  /** In an ordered tree `_search` finds `v` exactly when the tree holds it. */
  lemma {:induction false} LookupFinds(n: BNode, v: int, lo: Option<int>, hi: Option<int>)
    requires Ordered(n, lo, hi)
    ensures Shaped(n)
    ensures Lookup(n, v) == if v in Keys(n) then Some(v) else None
    decreases n
  {
    OrderedShaped(n, lo, hi);
    if IsLeaf(n) {
      var k := Slot(n.values, v);
      if !(k < |n.values| && n.values[k] == v) {
        B.SlotMisses(n.values, v);
      }
    } else {
      var i := B.Descent(n, v);
      DescentFinds(n, v, lo, hi);
      LookupFinds(n.children[i], v, B.LoOf(n, i, lo), B.HiOf(n, i, hi));
    }
  }

  // ---------------------------------------------------------------------------
  // The chain of leaves and `_mid_order`
  // ---------------------------------------------------------------------------

  /** The leaves of a subtree from left to right: the chain `right` links run along. */
  function Leaves(n: BNode): (r: seq<BNode>)
    ensures |r| > 0
    ensures forall i :: 0 <= i < |r| ==> IsLeaf(r[i])
    decreases n, 1
  {
    if IsLeaf(n) then [n] else ChildLeaves(n.children)
  }

  /** The leaves below a list of siblings, from left to right. */
  function ChildLeaves(cs: seq<BNode>): (r: seq<BNode>)
    ensures forall i :: 0 <= i < |r| ==> IsLeaf(r[i])
    ensures cs != [] ==> |r| > 0
    decreases cs, 0
  {
    if cs == [] then [] else Leaves(cs[0]) + ChildLeaves(cs[1..])
  }

  /** `_leaf_head`, the start of the chain, is the leftmost leaf. */
  lemma {:induction false} LeafHeadFirst(n: BNode)
    requires Shaped(n)
    ensures Leaves(n)[0] == LeftLeaf(n)
    decreases n
  {
    if !IsLeaf(n) {
      LeafHeadFirst(n.children[0]);
    }
  }

  /** The keys of a chain of leaves, read from its start. */
  function Cat(ls: seq<BNode>): seq<int>
  {
    if ls == [] then [] else Cat(ls[..|ls| - 1]) + ls[|ls| - 1].values
  }

  lemma {:induction false} CatAppend(a: seq<BNode>, b: seq<BNode>)
    ensures Cat(a + b) == Cat(a) + Cat(b)
    decreases |b|
  {
    if b == [] {
      assert a + b == a;
    } else {
      var l, z := b[..|b| - 1], b[|b| - 1];
      assert b == l + [z];
      assert a + b == (a + l) + [z];
      CatSnoc(a + l, z);
      CatSnoc(l, z);
      CatAppend(a, l);
    }
  }

  lemma CatSnoc(ls: seq<BNode>, z: BNode)
    ensures Cat(ls + [z]) == Cat(ls) + z.values
  {
    assert (ls + [z])[..|ls|] == ls;
  }

  /** `_mid_order`: the keys of every leaf of the chain, one leaf after the other. */
  method MidOrder(chain: seq<BNode>) returns (out: seq<int>)
    ensures out == Cat(chain)
  {
    out := [];
    var i := 0;
    while i < |chain|
      invariant i <= |chain| && out == Cat(chain[..i])
    {
      assert chain[..i + 1][..i] == chain[..i];
      out := out + chain[i].values;
      i := i + 1;
    }
    assert chain[..|chain|] == chain;
  }

  /** Every element of `s` lies above `lo` and at most at `hi`. */
  ghost predicate Within(s: seq<int>, lo: Option<int>, hi: Option<int>)
  {
    forall j :: 0 <= j < |s| ==> B.Gt(s[j], lo) && Le(s[j], hi)
  }

  /** The chain below an ordered subtree lists its keys, strictly increasing and within its bounds. */
  lemma {:induction false} ListSorted(n: BNode, lo: Option<int>, hi: Option<int>)
    requires Ordered(n, lo, hi)
    ensures var s := Cat(Leaves(n));
            Sorted(s) && Within(s, lo, hi) && B.Elems(s) == Keys(n)
    decreases n, |n.children| + 1
  {
    if IsLeaf(n) {
      ListLeaf(n, lo, hi);
    } else {
      SuffixListSorted(n, 0, lo, hi);
      assert n.children[0..] == n.children;
    }
  }

  lemma ListLeaf(n: BNode, lo: Option<int>, hi: Option<int>)
    requires Ordered(n, lo, hi) && IsLeaf(n)
    ensures Leaves(n) == [n] && Cat([n]) == n.values
    ensures Sorted(n.values) && Within(n.values, lo, hi) && B.Elems(n.values) == Keys(n)
  {
    assert [n][..0] == [];
  }

  /** The chain below the children from `i` on lists their keys in order, above the bound of child `i`. */
  lemma {:induction false} SuffixListSorted(n: BNode, i: nat, lo: Option<int>, hi: Option<int>)
    requires Ordered(n, lo, hi) && !IsLeaf(n) && i <= |n.children|
    ensures var s := Cat(ChildLeaves(n.children[i..]));
            Sorted(s) && B.Elems(s) == ChildKeys(n.children[i..]) &&
            (i < |n.children| ==> Within(s, B.LoOf(n, i, lo), hi))
    decreases n, |n.children| - i
  {
    var cs := n.children[i..];
    if i < |n.children| {
      var c := n.children[i];
      assert cs[0] == c && cs[1..] == n.children[i + 1..];
      ListSorted(c, B.LoOf(n, i, lo), B.HiOf(n, i, hi));
      SuffixListSorted(n, i + 1, lo, hi);
      var a, b := Cat(Leaves(c)), Cat(ChildLeaves(n.children[i + 1..]));
      CatAppend(Leaves(c), ChildLeaves(n.children[i + 1..]));
      if i + 1 < |n.children| {
        Neighbours(n, i, lo, hi);
        ListJoin(a, b, n.values[i], B.LoOf(n, i, lo), hi, Keys(c), ChildKeys(n.children[i + 1..]));
      } else {
        assert b == [] && a + b == a;
      }
    } else {
      assert cs == [];
    }
  }

  /** Two sorted listings on either side of `x` make one sorted listing of both. */
  lemma ListJoin(a: seq<int>, b: seq<int>, x: int, lo: Option<int>, hi: Option<int>, ka: set<int>, kb: set<int>)
    requires Sorted(a) && Sorted(b) && Within(a, lo, Some(x)) && Within(b, Some(x), hi) && Ge(x, lo) && Le(x, hi)
    requires B.Elems(a) == ka && B.Elems(b) == kb
    ensures Sorted(a + b) && Within(a + b, lo, hi) && B.Elems(a + b) == ka + kb
  {
    B.SortedCat(a, b, x);
    SuffixWithin(a, b, lo, x, hi);
    B.ElemsCat(a, b);
  }

  lemma SuffixWithin(a: seq<int>, b: seq<int>, lo: Option<int>, x: int, hi: Option<int>)
    requires Within(a, lo, Some(x)) && Within(b, Some(x), hi) && Ge(x, lo) && Le(x, hi)
    ensures Within(a + b, lo, hi)
  {
    assert forall j :: 0 <= j < |a + b| ==> (a + b)[j] == if j < |a| then a[j] else b[j - |a|];
  }

  // ---------------------------------------------------------------------------
  // Two defects of the source
  // ---------------------------------------------------------------------------

  /**
   * Deleting the only key leaves the root as a leaf without keys, on which
   * `__put` as written fails, while the corrected `Put` stores the new key.
   */
  lemma InsertAfterEmptying(m: nat)
    requires m >= 1
    ensures DeleteNode(BNode([5], []), 5, m) == Some(BNode([], []))
    ensures ReachesEmptyLeaf(BNode([], []), 7) && PutAsWritten(BNode([], []), 7, m).None?
    ensures Put(BNode([], []), 7, m) == BNode([7], []) && Keys(BNode([7], [])) == {7}
  {
    assert B.IndexOf([5], 5) == 0;
    assert [5][..0] + [5][1..] == [];
    assert B.Elems([7]) == {7};
  }

  /** The tree of keys 1, 2, 4 under separator 3 is a valid B+-tree. */
  lemma TreeOneTwoFour()
    ensures Ordered(BNode([3], [BNode([1, 2], []), BNode([4], [])]), None, None)
  {
    var t := BNode([3], [BNode([1, 2], []), BNode([4], [])]);
    assert B.LoOf(t, 1, None) == Some(3) && B.HiOf(t, 0, None) == Some(3);
    assert B.LoOf(t, 0, None) == None && B.HiOf(t, 1, None) == None;
  }

  /** Deleting 4 from it empties its right leaf. */
  lemma DeleteFour()
    ensures var t := BNode([3], [BNode([1, 2], []), BNode([4], [])]);
            B.Descent(t, 4) == 1 && DeleteNode(t.children[1], 4, 3) == Some(BNode([], []))
  {
    assert Slot([3], 4) == 1;
    assert B.IndexOf([4], 4) == 0;
    assert [4][..0] + [4][1..] == [];
  }

  /** The tree the deletion leaves before its fill scan is still ordered. */
  lemma EmptiedOrdered()
    ensures Ordered(BNode([3], [BNode([1, 2], []), BNode([], [])]), None, None)
  {
    var n := BNode([3], [BNode([1, 2], []), BNode([], [])]);
    assert B.LoOf(n, 1, None) == Some(3) && B.HiOf(n, 0, None) == Some(3);
    assert B.LoOf(n, 0, None) == None && B.HiOf(n, 1, None) == None;
  }

  /**
   * The left borrow as written makes the borrowed key its own separator, so
   * the key, now in the right leaf, is looked for in the left one: after
   * deleting 4 from keys 1, 2, 4 (order 3) the tree holds 2 where `_search`
   * cannot find it.
   */
  lemma LeftBorrowAsWritten()
    ensures var n := BNode([3], [BNode([1, 2], []), BNode([], [])]);
            var w := BNode([2], [BNode([1], []), BNode([2], [])]);
            FillAsWritten(n, 1, 3) == Some(w) && 2 in Keys(w) && Lookup(w, 2).None?
  {
    var n := BNode([3], [BNode([1, 2], []), BNode([], [])]);
    var w := BNode([2], [BNode([1], []), BNode([2], [])]);
    assert LeftUpAsWritten(n, 1) == 2;
    assert AddVal([], 2) == [2];
    assert [1, 2][..1] == [1];
    assert BorrowLeft(n, 1, 2) == w;
    assert B.Elems([2]) == {2};
    ChildKeysAt(w.children, 2);
    assert w.children[1] == BNode([2], []);
    assert Slot([2], 2) == 0 && Slot([1], 2) == 1;
  }

  /** The corrected separator, the key before the borrowed one, keeps 2 findable. */
  lemma LeftBorrowCorrected()
    ensures var n := BNode([3], [BNode([1, 2], []), BNode([], [])]);
            var f := BNode([1], [BNode([1], []), BNode([2], [])]);
            Fill(n, 1, 3) == Some(f) && Lookup(f, 2) == Some(2)
  {
    var n := BNode([3], [BNode([1, 2], []), BNode([], [])]);
    var f := BNode([1], [BNode([1], []), BNode([2], [])]);
    assert LeftUp(n, 1) == 1;
    assert AddVal([], 2) == [2];
    assert [1, 2][..1] == [1];
    assert BorrowLeft(n, 1, 1) == f;
    assert Slot([1], 2) == 1 && Slot([2], 2) == 0;
  }

  // ---------------------------------------------------------------------------
  // The tree
  // ---------------------------------------------------------------------------

  /**
   * `BalancePlusTree`: a B+-tree of order `m`. Its keys are in the B+-tree
   * order and every leaf lies at the same depth.
   */
  class BalancePlusTree {
    /** `_m`: the order. */
    const m: nat
    /** `_root`. */
    var root: Option<BNode>
    /** The depth of every leaf. */
    ghost var height: nat

    ghost predicate Valid()
      reads this
    {
      m >= 1 &&
      (root.Some? ==> Shaped(root.value) && Ordered(root.value, None, None) && Uniform(root.value, height))
    }

    /** The keys the tree holds. */
    ghost function Contents(): set<int>
      reads this
    {
      if root.None? then {} else Keys(root.value)
    }

    constructor (order: nat)
      requires order >= 1
      ensures Valid() && m == order && root.None? && Contents() == {}
    {
      m := order;
      root := None;
      height := 0;
    }

    /** `_insert`: the tree gains `v`; a root that reached the order splits. */
    method Insert(v: int)
      requires Valid()
      modifies this
      ensures Valid()
      ensures Contents() == old(Contents()) + {v}
    {
      match root
      case None =>
        var leaf := BNode([v], []);
        assert Keys(leaf) == {v} by {
          assert B.Elems([v]) == {v};
        }
        root := Some(leaf);
        height := 0;
      case Some(n) =>
        OrderedShaped(n, None, None);
        var r := Put(n, v, m);
        PutKeys(n, v, m);
        PutOrdered(n, v, m, None, None);
        PutUniform(n, v, m, height);
        if |r.values| >= m && |r.values| > 2 {
          SplitRootKeeps(r, None, None, height);
          SplitRootKeys(r);
          OrderedShaped(SplitRoot(r), None, None);
          root := Some(SplitRoot(r));
          height := height + 1;
        } else {
          root := Some(r);
        }
    }

    /** `_search`: `v` when the tree holds it, otherwise nothing. */
    method Search(v: int) returns (r: Option<int>)
      requires Valid()
      ensures r == if v in Contents() then Some(v) else None
      ensures root.Some? ==> r == Lookup(root.value, v)
    {
      var current := root;
      ghost var lo: Option<int>, hi: Option<int>, h := None, None, height;
      while current.Some?
        invariant current.Some? ==> Ordered(current.value, lo, hi) && Uniform(current.value, h)
        invariant current.Some? ==> (v in Contents() <==> v in Keys(current.value))
        invariant current.Some? ==> Shaped(current.value) && Lookup(current.value, v) == Lookup(root.value, v)
        invariant current.None? ==> v !in Contents()
        invariant current.None? && root.Some? ==> Lookup(root.value, v).None?
        decreases if current.Some? then h + 1 else 0
      {
        var n := current.value;
        LookupFinds(n, v, lo, hi);
        var k := 0;
        while k < |n.values|
          invariant k <= |n.values|
          invariant forall j :: 0 <= j < k ==> n.values[j] < v
        {
          if IsLeaf(n) && n.values[k] == v {
            B.SlotIs(n.values, v, k);
            return Some(v);
          }
          if v <= n.values[k] {
            break;
          }
          k := k + 1;
        }
        B.SlotIs(n.values, v, k);
        if IsLeaf(n) {
          current := None;
        } else {
          DescentFinds(n, v, lo, hi);
          lo, hi, h := B.LoOf(n, k, lo), B.HiOf(n, k, hi), h - 1;
          current := Some(n.children[k]);
        }
      }
      return None;
    }

    /** `mid_order`: the keys of the chain of leaves, in increasing order, each once. */
    method MidOrderList() returns (r: seq<int>)
      requires Valid()
      ensures Sorted(r) && B.Elems(r) == Contents()
    {
      match root
      case None =>
        r := [];
      case Some(n) =>
        ListSorted(n, None, None);
        r := MidOrder(Leaves(n));
    }

    /**
     * `_delete`: the tree loses `v`, and a root left without separators gives
     * way to its only child. An empty tree raises `AttributeError`; a fill
     * with no brother raises `IndexError`, and the tree is then left as it was.
     */
    method Delete(v: int) returns (e: B.Outcome)
      requires Valid()
      modifies this
      ensures Valid()
      ensures e == B.AttributeError <==> old(root).None?
      ensures e == B.Done ==> Contents() == old(Contents()) - {v}
      ensures e != B.Done ==> root == old(root)
      ensures old(root).Some? && Branching(old(root).value) ==> e == B.Done
    {
      if root.None? {
        return B.AttributeError;
      }
      var n := root.value;
      DeleteKeeps(n, v, m, None, None, height);
      if Branching(n) {
        DeleteSucceeds(n, v, m);
      }
      var d := DeleteNode(n, v, m);
      if d.None? {
        return B.IndexError;
      }
      var r := d.value;
      if r.values == [] && r.children != [] {
        assert Keys(r) == Keys(r.children[0]) by {
          ChildKeysOne(r.children[0]);
          assert r.children == [r.children[0]];
        }
        OrderedShaped(r, None, None);
        root := Some(r.children[0]);
        height := height - 1;
      } else {
        OrderedShaped(r, None, None);
        root := Some(r);
      }
      e := B.Done;
    }
  }
}
