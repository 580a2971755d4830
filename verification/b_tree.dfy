/**
 * The B-tree of order `m` (tree/b_tree/balance_tree.py). Every node keeps
 * its values sorted; an internal node with `n` values has `n + 1` children,
 * the `i`-th holding the values between the node's `(i-1)`-th and `i`-th.
 * Insertion splits a node that reaches `m` values; deletion refills a child
 * that falls below `ceil(m/2) - 1` values from a sibling or merges it.
 *
 * Nodes are values here: `__put` and `__delete_node` return the rebuilt
 * subtree, and the tree object holds its root in a field.
 */
module BalanceTree {
  import opened Wrappers
  import opened BNodes

  // ---------------------------------------------------------------------------
  // Contents and order
  // ---------------------------------------------------------------------------

  /** The values of a list, as a set. */
  function Elems(vs: seq<int>): set<int>
  {
    set x | x in vs
  }

  /** The values stored in the subtree. */
  ghost function Keys(n: BNode): set<int>
    decreases n, 1
  {
    Elems(n.values) + ChildKeys(n.children)
  }

  /** The values stored below a list of siblings. */
  ghost function ChildKeys(cs: seq<BNode>): set<int>
    decreases cs, 0
  {
    if cs == [] then {} else Keys(cs[0]) + ChildKeys(cs[1..])
  }

  lemma {:induction false} ChildKeysAppend(a: seq<BNode>, b: seq<BNode>)
    ensures ChildKeys(a + b) == ChildKeys(a) + ChildKeys(b)
    decreases |a|
  {
    if a == [] {
      assert a + b == b;
    } else {
      assert (a + b)[1..] == a[1..] + b;
      ChildKeysAppend(a[1..], b);
    }
  }

  lemma ChildKeysOne(c: BNode)
    ensures ChildKeys([c]) == Keys(c)
  {
    assert [c][1..] == [];
  }

  /** The siblings' values are the union of each sibling's values. */
  lemma {:induction false} ChildKeysAt(cs: seq<BNode>, x: int)
    ensures x in ChildKeys(cs) <==> exists i :: 0 <= i < |cs| && x in Keys(cs[i])
    decreases |cs|
  {
    if cs != [] {
      ChildKeysAt(cs[1..], x);
      if x in ChildKeys(cs[1..]) {
        var i :| 0 <= i < |cs[1..]| && x in Keys(cs[1..][i]);
        assert x in Keys(cs[i + 1]);
      }
      forall i | 0 <= i < |cs| && x in Keys(cs[i]) ensures x in ChildKeys(cs) {
        if i > 0 {
          assert cs[1..][i - 1] == cs[i];
        }
      }
    }
  }

  /** Replacing one sibling replaces its values in the union. */
  lemma ChildKeysSplice(a: seq<BNode>, mid: seq<BNode>, b: seq<BNode>)
    ensures ChildKeys(a + mid + b) == ChildKeys(a) + ChildKeys(mid) + ChildKeys(b)
  {
    ChildKeysAppend(a + mid, b);
    ChildKeysAppend(a, mid);
  }

  /** `add_val` adds exactly the one value. */
  lemma ElemsAddVal(vs: seq<int>, v: int)
    ensures Elems(AddVal(vs, v)) == Elems(vs) + {v}
  {
    var r := AddVal(vs, v);
    AddValMultiset(vs, v);
    forall x ensures x in r <==> x in multiset(r) {
    }
    forall x ensures x in vs <==> x in multiset(vs) {
    }
  }

  /** `x` lies above the lower bound, if there is one. */
  predicate Gt(x: int, lo: Option<int>)
  {
    lo.None? || lo.value < x
  }

  /** `x` lies below the upper bound, if there is one. */
  predicate Lt(x: int, hi: Option<int>)
  {
    hi.None? || x < hi.value
  }

  /** The lower bound of child `i`: the value before it, or the node's own bound. */
  function LoOf(n: BNode, i: nat, lo: Option<int>): Option<int>
    requires i <= |n.values|
  {
    if i == 0 then lo else Some(n.values[i - 1])
  }

  /** The upper bound of child `i`: the value after it, or the node's own bound. */
  function HiOf(n: BNode, i: nat, hi: Option<int>): Option<int>
    requires i <= |n.values|
  {
    if i == |n.values| then hi else Some(n.values[i])
  }

  /**
   * The search-tree order: sorted values strictly between `lo` and `hi`, and
   * each child ordered between the values on either side of it.
   */
  ghost predicate Ordered(n: BNode, lo: Option<int>, hi: Option<int>)
  {
    Sorted(n.values) &&
    (forall j :: 0 <= j < |n.values| ==> Gt(n.values[j], lo) && Lt(n.values[j], hi)) &&
    (IsLeaf(n) ||
      (|n.children| == |n.values| + 1 &&
       forall i :: 0 <= i < |n.children| ==> Ordered(n.children[i], LoOf(n, i, lo), HiOf(n, i, hi))))
  }

  /** Every value of an ordered subtree lies between its bounds. */
  lemma {:induction false} OrderedBounds(n: BNode, lo: Option<int>, hi: Option<int>)
    requires Ordered(n, lo, hi)
    ensures forall x :: x in Keys(n) ==> Gt(x, lo) && Lt(x, hi)
  {
    forall x | x in Keys(n) ensures Gt(x, lo) && Lt(x, hi) {
      if x !in n.values {
        ChildKeysAt(n.children, x);
        var i :| 0 <= i < |n.children| && x in Keys(n.children[i]);
        OrderedBounds(n.children[i], LoOf(n, i, lo), HiOf(n, i, hi));
        if i > 0 {
          assert n.values[i - 1] in n.values;
        }
        if i < |n.values| {
          assert n.values[i] in n.values;
        }
      }
    }
  }

  /** An ordered subtree is shaped. */
  lemma {:induction false} OrderedShaped(n: BNode, lo: Option<int>, hi: Option<int>)
    requires Ordered(n, lo, hi)
    ensures Shaped(n)
  {
    forall i | 0 <= i < |n.children| ensures Shaped(n.children[i]) {
      OrderedShaped(n.children[i], LoOf(n, i, lo), HiOf(n, i, hi));
    }
  }

  /** Order does not depend on the bounds beyond the values actually stored. */
  lemma {:induction false} Rebound(n: BNode, lo: Option<int>, hi: Option<int>, lo2: Option<int>, hi2: Option<int>)
    requires Ordered(n, lo, hi)
    requires forall x :: x in Keys(n) ==> Gt(x, lo2) && Lt(x, hi2)
    ensures Ordered(n, lo2, hi2)
  {
    forall j | 0 <= j < |n.values| ensures Gt(n.values[j], lo2) && Lt(n.values[j], hi2) {
      assert n.values[j] in Elems(n.values);
    }
    if !IsLeaf(n) {
      forall i | 0 <= i < |n.children| ensures Ordered(n.children[i], LoOf(n, i, lo2), HiOf(n, i, hi2)) {
        var c := n.children[i];
        OrderedBounds(c, LoOf(n, i, lo), HiOf(n, i, hi));
        forall x | x in Keys(c) ensures Gt(x, LoOf(n, i, lo2)) && Lt(x, HiOf(n, i, hi2)) {
          ChildKeysAt(n.children, x);
        }
        Rebound(c, LoOf(n, i, lo), HiOf(n, i, hi), LoOf(n, i, lo2), HiOf(n, i, hi2));
      }
    }
  }

  // ---------------------------------------------------------------------------
  // Splitting
  // ---------------------------------------------------------------------------

  /**
   * `_split(parent, child)` for the child at index `k`: its middle value
   * joins the parent's values, and the new right sibling is linked just
   * after it.
   */
  function SplitChild(n: BNode, k: nat): (r: BNode)
    requires k < |n.children| && |n.children[k].values| > 0
    ensures |r.children| == |n.children| + 1 && |r.values| == |n.values| + 1
  {
    var (l, med, rt) := Split(n.children[k]);
    BNode(AddVal(n.values, med), n.children[..k] + [l, rt] + n.children[k + 1..])
  }

  /** The right half of a split gets the values after the middle one. */
  lemma SplitRightElems(c: BNode)
    requires |c.values| > 0
    ensures Elems(Split(c).2.values) == Elems(c.values[|c.values| / 2 + 1..])
  {
    var rt := Split(c).2;
    var mid := |c.values| / 2;
    SplitRightValues(c);
    forall x | x in rt.values ensures x in c.values[mid + 1..] {
      assert x in multiset(rt.values);
    }
    forall x | x in c.values[mid + 1..] ensures x in rt.values {
      assert x in multiset(c.values[mid + 1..]);
    }
  }

  /** The left half and the middle value take the values up to the middle. */
  lemma SplitLeftElems(c: BNode)
    requires |c.values| > 0
    ensures Elems(c.values) == Elems(Split(c).0.values) + {Split(c).1} + Elems(c.values[|c.values| / 2 + 1..])
  {
    var mid := |c.values| / 2;
    assert c.values == c.values[..mid] + [c.values[mid]] + c.values[mid + 1..];
  }

  /** The two halves share the children out between them. */
  lemma SplitChildKeys2(c: BNode)
    requires |c.values| > 0
    ensures ChildKeys(c.children) == ChildKeys(Split(c).0.children) + ChildKeys(Split(c).2.children)
  {
    var l, rt := Split(c).0, Split(c).2;
    var mid := |c.values| / 2;
    if mid + 1 <= |c.children| {
      assert c.children == l.children + rt.children;
      ChildKeysAppend(l.children, rt.children);
    } else {
      assert l.children == c.children && rt.children == [];
    }
  }

  /** The two halves of a split hold the node's values but the middle one. */
  lemma SplitKeys(c: BNode)
    requires |c.values| > 0
    ensures Keys(Split(c).0) + {Split(c).1} + Keys(Split(c).2) == Keys(c)
  {
    SplitRightElems(c);
    SplitLeftElems(c);
    SplitChildKeys2(c);
  }

  /** The left half of an ordered node is ordered below the middle value. */
  lemma SplitLeftOrdered(c: BNode, lo: Option<int>, hi: Option<int>)
    requires Ordered(c, lo, hi) && |c.values| > 0
    ensures Ordered(Split(c).0, lo, Some(Split(c).1))
  {
    var (l, med, rt) := Split(c);
    var mid := |c.values| / 2;
    forall i | 0 <= i < |l.values| ensures Gt(l.values[i], lo) && l.values[i] < med {
      assert l.values[i] == c.values[i];
    }
    if !IsLeaf(c) {
      forall i | 0 <= i < |l.children| ensures Ordered(l.children[i], LoOf(l, i, lo), HiOf(l, i, Some(med))) {
        SplitLeftChild(c, lo, hi, i);
      }
    }
  }

  /** Each child of the left half keeps the bounds it had in the split node. */
  lemma SplitLeftChild(c: BNode, lo: Option<int>, hi: Option<int>, i: nat)
    requires Ordered(c, lo, hi) && |c.values| > 0 && !IsLeaf(c)
    requires i < |Split(c).0.children|
    ensures i <= |Split(c).0.values|
    ensures Ordered(Split(c).0.children[i], LoOf(Split(c).0, i, lo), HiOf(Split(c).0, i, Some(Split(c).1)))
  {
    var l, med := Split(c).0, Split(c).1;
    var mid := |c.values| / 2;
    assert l.children == c.children[..mid + 1];
    assert l.children[i] == c.children[i];
    assert LoOf(l, i, lo) == LoOf(c, i, lo);
    assert HiOf(l, i, Some(med)) == HiOf(c, i, hi);
  }

  /** The values of the right half of an ordered node lie above the middle value. */
  lemma SplitRightSorted(c: BNode, hi: Option<int>)
    requires |c.values| > 0 && Sorted(c.values)
    requires forall j :: 0 <= j < |c.values| ==> Lt(c.values[j], hi)
    ensures Sorted(Split(c).2.values)
    ensures forall j :: 0 <= j < |Split(c).2.values| ==> Gt(Split(c).2.values[j], Some(Split(c).1)) && Lt(Split(c).2.values[j], hi)
  {
    SplitSorted(c);
    var rt := Split(c).2;
    var mid := |c.values| / 2;
    assert forall j :: 0 <= j < |rt.values| ==> rt.values[j] == c.values[mid + 1 + j];
  }

  /** Each child of the right half keeps the bounds it had in the split node. */
  lemma SplitRightChild(c: BNode, lo: Option<int>, hi: Option<int>, i: nat)
    requires Ordered(c, lo, hi) && |c.values| > 0 && !IsLeaf(c)
    requires i < |Split(c).2.children| && i <= |Split(c).2.values|
    ensures Ordered(Split(c).2.children[i], LoOf(Split(c).2, i, Some(Split(c).1)), HiOf(Split(c).2, i, hi))
  {
    SplitSorted(c);
    var mid := |c.values| / 2;
    SuffixChild(c, lo, hi, mid + 1, Split(c).2, i, mid + 1 + i);
  }

  /** A child of the node made of the values and children from the `k`-th on keeps its bounds. */
  lemma SuffixChild(c: BNode, lo: Option<int>, hi: Option<int>, k: nat, rt: BNode, i: nat, j: nat)
    requires Ordered(c, lo, hi) && !IsLeaf(c) && 0 < k <= |c.values|
    requires rt.values == c.values[k..] && rt.children == Drop(c.children, k)
    requires i < |rt.children| && j == k + i
    ensures Ordered(rt.children[i], LoOf(rt, i, Some(c.values[k - 1])), HiOf(rt, i, hi))
  {
    assert rt.children[i] == c.children[j];
    assert Ordered(c.children[j], LoOf(c, j, lo), HiOf(c, j, hi));
    if i > 0 {
      assert rt.values[i - 1] == c.values[j - 1];
    }
    if i < |rt.values| {
      assert rt.values[i] == c.values[j];
    }
  }

  /** The right half of an ordered node is ordered above the middle value. */
  lemma SplitRightOrdered(c: BNode, lo: Option<int>, hi: Option<int>)
    requires Ordered(c, lo, hi) && |c.values| > 0
    ensures Ordered(Split(c).2, Some(Split(c).1), hi)
  {
    SplitRightSorted(c, hi);
    var rt, med := Split(c).2, Split(c).1;
    if !IsLeaf(c) {
      assert |rt.children| == |rt.values| + 1 by {
        SplitSorted(c);
      }
      forall i | 0 <= i < |rt.children| ensures Ordered(rt.children[i], LoOf(rt, i, Some(med)), HiOf(rt, i, hi)) {
        SplitRightChild(c, lo, hi, i);
      }
    }
  }

  /** Splitting a child keeps the values of the node. */
  lemma SplitChildKeys(n: BNode, k: nat)
    requires k < |n.children| && |n.children[k].values| > 0
    ensures Keys(SplitChild(n, k)) == Keys(n)
  {
    var c := n.children[k];
    SplitKeys(c);
    SplitMedianKey(c);
    ElemsAddVal(n.values, Split(c).1);
    ChildKeysReplace(n.children, k, Split(c).0, Split(c).2);
  }

  /** The value that moves up in a split is one of the node's. */
  lemma SplitMedianKey(c: BNode)
    requires |c.values| > 0
    ensures Split(c).1 in Keys(c)
  {
    assert Split(c).1 == c.values[|c.values| / 2];
  }

  /** Replacing the `k`-th sibling by two nodes replaces its values by theirs. */
  lemma ChildKeysReplace(cs: seq<BNode>, k: nat, l: BNode, rt: BNode)
    requires k < |cs|
    ensures ChildKeys(cs[..k] + [l, rt] + cs[k + 1..]) == ChildKeys(cs[..k]) + Keys(l) + Keys(rt) + ChildKeys(cs[k + 1..])
    ensures ChildKeys(cs) == ChildKeys(cs[..k]) + Keys(cs[k]) + ChildKeys(cs[k + 1..])
  {
    assert cs == cs[..k] + [cs[k]] + cs[k + 1..];
    ChildKeysSplice(cs[..k], [cs[k]], cs[k + 1..]);
    ChildKeysSplice(cs[..k], [l, rt], cs[k + 1..]);
    ChildKeysOne(cs[k]);
    ChildKeysTwo(l, rt);
  }

  lemma ChildKeysTwo(l: BNode, rt: BNode)
    ensures ChildKeys([l, rt]) == Keys(l) + Keys(rt)
  {
    assert [l, rt] == [l] + [rt];
    ChildKeysAppend([l], [rt]);
    ChildKeysOne(l);
    ChildKeysOne(rt);
  }

  /** The middle value of a child lies between the parent's values on either side of it. */
  lemma MiddleBetween(n: BNode, k: nat, lo: Option<int>, hi: Option<int>)
    requires Ordered(n, lo, hi) && k < |n.children| && |n.children[k].values| > 0
    ensures Gt(Split(n.children[k]).1, LoOf(n, k, lo)) && Lt(Split(n.children[k]).1, HiOf(n, k, hi))
  {
    var c := n.children[k];
    assert Split(c).1 == c.values[|c.values| / 2];
  }

  /** The middle value of child `k` goes to index `k` of its ordered parent. */
  lemma SplitChildValues(n: BNode, k: nat, lo: Option<int>, hi: Option<int>)
    requires Ordered(n, lo, hi) && k < |n.children| && |n.children[k].values| > 0
    ensures SplitChild(n, k).values == n.values[..k] + [Split(n.children[k]).1] + n.values[k..]
    ensures Sorted(SplitChild(n, k).values)
    ensures Gt(Split(n.children[k]).1, LoOf(n, k, lo)) && Lt(Split(n.children[k]).1, HiOf(n, k, hi))
  {
    MiddleBetween(n, k, lo, hi);
    InsertAt(n.values, k, Split(n.children[k]).1);
  }

  /** After a split each child of the parent is ordered between its new neighbouring values. */
  lemma SplitChildChild(n: BNode, k: nat, lo: Option<int>, hi: Option<int>, i: nat)
    requires Ordered(n, lo, hi) && k < |n.children| && |n.children[k].values| > 0
    requires i < |SplitChild(n, k).children|
    ensures Ordered(SplitChild(n, k).children[i], LoOf(SplitChild(n, k), i, lo), HiOf(SplitChild(n, k), i, hi))
  {
    var c := n.children[k];
    var l, med, rt := Split(c).0, Split(c).1, Split(c).2;
    SplitChildValues(n, k, lo, hi);
    SplitChildPlaces(n, k, med, l, rt, lo, hi, i);
    if i == k {
      SplitLeftOrdered(c, LoOf(n, k, lo), HiOf(n, k, hi));
    } else if i == k + 1 {
      SplitRightOrdered(c, LoOf(n, k, lo), HiOf(n, k, hi));
    } else {
      var i' := if i < k then i else i - 1;
      assert Ordered(n.children[i'], LoOf(n, i', lo), HiOf(n, i', hi));
    }
  }

  /** Where each child of the parent comes from after child `k` is split around `med`, and its bounds. */
  lemma SplitChildPlaces(n: BNode, k: nat, med: int, l: BNode, rt: BNode, lo: Option<int>, hi: Option<int>, i: nat)
    requires |n.children| == |n.values| + 1 && k < |n.children| && i < |n.children| + 1
    ensures var r := BNode(n.values[..k] + [med] + n.values[k..], n.children[..k] + [l, rt] + n.children[k + 1..]);
            i <= |r.values| &&
            (i < k ==> r.children[i] == n.children[i] && LoOf(r, i, lo) == LoOf(n, i, lo) && HiOf(r, i, hi) == HiOf(n, i, hi)) &&
            (i == k ==> r.children[i] == l && LoOf(r, i, lo) == LoOf(n, k, lo) && HiOf(r, i, hi) == Some(med)) &&
            (i == k + 1 ==> r.children[i] == rt && LoOf(r, i, lo) == Some(med) && HiOf(r, i, hi) == HiOf(n, k, hi)) &&
            (i > k + 1 ==> r.children[i] == n.children[i - 1] && LoOf(r, i, lo) == LoOf(n, i - 1, lo) && HiOf(r, i, hi) == HiOf(n, i - 1, hi))
  {
  }

  /** Splitting a child of an ordered node keeps the node ordered. */
  lemma SplitChildOrdered(n: BNode, k: nat, lo: Option<int>, hi: Option<int>)
    requires Ordered(n, lo, hi) && k < |n.children| && |n.children[k].values| > 0
    ensures Ordered(SplitChild(n, k), lo, hi)
  {
    var med := Split(n.children[k]).1;
    SplitChildValues(n, k, lo, hi);
    var r := SplitChild(n, k);
    forall j | 0 <= j < |r.values| ensures Gt(r.values[j], lo) && Lt(r.values[j], hi) {
      if j < k {
        assert r.values[j] == n.values[j];
      } else if j > k {
        assert r.values[j] == n.values[j - 1];
      } else if k > 0 {
        assert r.values[k - 1] == n.values[k - 1];
      } else if k < |n.values| {
        assert r.values[k + 1] == n.values[k];
      }
    }
    forall i | 0 <= i < |r.children| ensures Ordered(r.children[i], LoOf(r, i, lo), HiOf(r, i, hi)) {
      SplitChildChild(n, k, lo, hi, i);
    }
  }

  /** The two halves of a split sit at the height of the node they came from. */
  lemma SplitUniform(c: BNode, h: nat)
    requires Uniform(c, h) && Shaped(c) && |c.values| > 0
    ensures Uniform(Split(c).0, h) && Uniform(Split(c).2, h)
    ensures Shaped(Split(c).0) && Shaped(Split(c).2)
  {
    var l, rt := Split(c).0, Split(c).2;
    var mid := |c.values| / 2;
    if !IsLeaf(c) {
      assert l.children == c.children[..mid + 1];
      assert rt.children == c.children[mid + 1..];
      assert l.children[0] == c.children[0];
      assert rt.children[0] == c.children[mid + 1];
      forall i | 0 <= i < |l.children| ensures Uniform(l.children[i], h - 1) && Shaped(l.children[i]) {
        assert l.children[i] == c.children[i];
      }
      forall i | 0 <= i < |rt.children| ensures Uniform(rt.children[i], h - 1) && Shaped(rt.children[i]) {
        assert rt.children[i] == c.children[mid + 1 + i];
      }
    }
  }

  /** Splitting a child keeps every leaf at the same depth. */
  lemma SplitChildUniform(n: BNode, k: nat, h: nat)
    requires Uniform(n, h) && Shaped(n) && k < |n.children| && |n.children[k].values| > 0
    ensures Uniform(SplitChild(n, k), h) && Shaped(SplitChild(n, k))
  {
    var c := n.children[k];
    SplitUniform(c, h - 1);
    var r := SplitChild(n, k);
    forall i | 0 <= i < |r.children| ensures Uniform(r.children[i], h - 1) && Shaped(r.children[i]) {
      if i < k {
        assert r.children[i] == n.children[i];
      } else if i > k + 1 {
        assert r.children[i] == n.children[i - 1];
      }
    }
  }

  /** A node that reached the order splits into two halves with fewer values. */
  lemma SplitUnder(c: BNode, m: nat)
    requires m >= 1 && |c.values| == m
    requires forall i :: 0 <= i < |c.children| ==> AllUnder(c.children[i], m)
    ensures AllUnder(Split(c).0, m) && AllUnder(Split(c).2, m)
  {
    var l, rt := Split(c).0, Split(c).2;
    var mid := |c.values| / 2;
    forall i | 0 <= i < |l.children| ensures AllUnder(l.children[i], m) {
      assert l.children[i] == c.children[i];
    }
    forall i | 0 <= i < |rt.children| ensures AllUnder(rt.children[i], m) {
      assert rt.children[i] == c.children[mid + 1 + i];
    }
  }

  // ---------------------------------------------------------------------------
  // Insertion
  // ---------------------------------------------------------------------------

  /** Values still to be visited by the split scan, plus one per child. */
  function Load(cs: seq<BNode>): nat
  {
    if cs == [] then 0 else |cs[0].values| + 1 + Load(cs[1..])
  }

  /**
   * The scan `for k, child in enumerate(node.childs)` from index `k`: a child
   * holding `m` or more values is split, and the scan goes on with the new
   * right sibling, which now sits at `k + 1`.
   */
  function SplitFrom(n: BNode, m: nat, k: nat): (r: BNode)
    requires m >= 1 && k <= |n.children|
    ensures |r.children| - |n.children| == |r.values| - |n.values|
    decreases Load(n.children[k..])
  {
    if k == |n.children| then n
    else
      assert n.children[k..] == [n.children[k]] + n.children[k + 1..];
      if |n.children[k].values| >= m then
        var s := SplitChild(n, k);
        assert s.children[k + 1..] == [Split(n.children[k]).2] + n.children[k + 1..];
        assert ([Split(n.children[k]).2] + n.children[k + 1..])[1..] == n.children[k + 1..];
        SplitFrom(s, m, k + 1)
      else
        SplitFrom(n, m, k + 1)
  }

  /** The scan splits nothing when no child has reached the order. */
  lemma {:induction false} SplitFromNoop(n: BNode, m: nat, k: nat)
    requires m >= 1 && k <= |n.children|
    requires forall j :: k <= j < |n.children| ==> |n.children[j].values| < m
    ensures SplitFrom(n, m, k) == n
    decreases |n.children| - k
  {
    if k < |n.children| {
      SplitFromNoop(n, m, k + 1);
    }
  }

  /** The split scan keeps the values of the node. */
  lemma {:induction false} SplitFromKeys(n: BNode, m: nat, k: nat)
    requires m >= 1 && k <= |n.children|
    ensures Keys(SplitFrom(n, m, k)) == Keys(n)
    decreases Load(n.children[k..])
  {
    if k < |n.children| {
      assert n.children[k..] == [n.children[k]] + n.children[k + 1..];
      if |n.children[k].values| >= m {
        var s := SplitChild(n, k);
        SplitChildKeys(n, k);
        assert s.children[k + 1..] == [Split(n.children[k]).2] + n.children[k + 1..];
        assert ([Split(n.children[k]).2] + n.children[k + 1..])[1..] == n.children[k + 1..];
        SplitFromKeys(s, m, k + 1);
      } else {
        SplitFromKeys(n, m, k + 1);
      }
    }
  }

  /** The split scan keeps an ordered node ordered. */
  lemma {:induction false} SplitFromOrdered(n: BNode, m: nat, k: nat, lo: Option<int>, hi: Option<int>)
    requires m >= 1 && k <= |n.children| && Ordered(n, lo, hi)
    ensures Ordered(SplitFrom(n, m, k), lo, hi)
    decreases Load(n.children[k..])
  {
    if k < |n.children| {
      assert n.children[k..] == [n.children[k]] + n.children[k + 1..];
      if |n.children[k].values| >= m {
        var s := SplitChild(n, k);
        SplitChildOrdered(n, k, lo, hi);
        assert s.children[k + 1..] == [Split(n.children[k]).2] + n.children[k + 1..];
        assert ([Split(n.children[k]).2] + n.children[k + 1..])[1..] == n.children[k + 1..];
        SplitFromOrdered(s, m, k + 1, lo, hi);
      } else {
        SplitFromOrdered(n, m, k + 1, lo, hi);
      }
    }
  }

  /** The split scan keeps every leaf at the same depth. */
  lemma {:induction false} SplitFromUniform(n: BNode, m: nat, k: nat, h: nat)
    requires m >= 1 && k <= |n.children| && Uniform(n, h) && Shaped(n)
    ensures Uniform(SplitFrom(n, m, k), h) && Shaped(SplitFrom(n, m, k))
    decreases Load(n.children[k..])
  {
    if k < |n.children| {
      assert n.children[k..] == [n.children[k]] + n.children[k + 1..];
      if |n.children[k].values| >= m {
        var s := SplitChild(n, k);
        SplitChildUniform(n, k, h);
        assert s.children[k + 1..] == [Split(n.children[k]).2] + n.children[k + 1..];
        assert ([Split(n.children[k]).2] + n.children[k + 1..])[1..] == n.children[k + 1..];
        SplitFromUniform(s, m, k + 1, h);
      } else {
        SplitFromUniform(n, m, k + 1, h);
      }
    }
  }

  /** A node holds at most `m` values and every node below it fewer than `m`. */
  ghost predicate AtMost(n: BNode, m: nat)
  {
    |n.values| <= m && forall i :: 0 <= i < |n.children| ==> AllUnder(n.children[i], m)
  }

  /** Splitting the `k`-th child leaves the other children where they were, shifted past the new one. */
  lemma SplitChildSibling(n: BNode, k: nat, j: nat)
    requires k < |n.children| && |n.children[k].values| > 0 && j < |SplitChild(n, k).children|
    ensures j < k ==> SplitChild(n, k).children[j] == n.children[j]
    ensures j > k + 1 ==> SplitChild(n, k).children[j] == n.children[j - 1]
    ensures j == k ==> SplitChild(n, k).children[j] == Split(n.children[k]).0
    ensures j == k + 1 ==> SplitChild(n, k).children[j] == Split(n.children[k]).2
  {
  }

  /**
   * When at most child `i` has reached the order, the scan leaves every child
   * under it and adds at most one value to the node.
   */
  lemma {:induction false} SplitFromBounded(n: BNode, m: nat, k: nat, i: nat)
    requires m >= 1 && k <= i < |n.children|
    requires forall j :: 0 <= j < |n.children| && j != i ==> AllUnder(n.children[j], m)
    requires AtMost(n.children[i], m)
    ensures forall j :: 0 <= j < |SplitFrom(n, m, k).children| ==> AllUnder(SplitFrom(n, m, k).children[j], m)
    ensures |SplitFrom(n, m, k).values| <= |n.values| + 1
    decreases i - k
  {
    if |n.children[k].values| >= m {
      assert k == i;
      var c := n.children[k];
      var s := SplitChild(n, k);
      SplitUnder(c, m);
      forall j | 0 <= j < |s.children| ensures AllUnder(s.children[j], m) {
        SplitChildSibling(n, k, j);
      }
      SplitFromNoop(s, m, k + 1);
    } else if k == i {
      assert AllUnder(n.children[i], m);
      SplitFromNoop(n, m, k + 1);
    } else {
      SplitFromBounded(n, m, k + 1, i);
    }
  }

  /** Where `__put` descends in an internal node: the first value not below `v`, or the last child. */
  function Descent(n: BNode, v: int): (i: nat)
    requires !IsLeaf(n) && |n.children| == |n.values| + 1
    ensures i < |n.children|
  {
    var k := Slot(n.values, v);
    if k < |n.values| then k else |n.children| - 1
  }

  /**
   * `__put` with an empty leaf handled: a leaf takes `v` unless it already
   * holds it; an internal node that holds `v` is left alone, otherwise `v`
   * goes down to the child before the first larger value (the last child
   * when there is none); then every child that reached the order is split.
   */
  function Put(n: BNode, v: int, m: nat): (r: BNode)
    requires m >= 1 && Shaped(n)
  {
    if IsLeaf(n) then
      if v in n.values then n else BNode(AddVal(n.values, v), [])
    else
      var k := Slot(n.values, v);
      if k < |n.values| && n.values[k] == v then SplitFrom(n, m, 0)
      else
        var i := Descent(n, v);
        SplitFrom(n.(children := n.children[i := Put(n.children[i], v, m)]), m, 0)
  }

  /** Replacing one child replaces its values in the union. */
  lemma ChildKeysUpdate(cs: seq<BNode>, i: nat, c: BNode)
    requires i < |cs|
    ensures ChildKeys(cs) == ChildKeys(cs[..i]) + Keys(cs[i]) + ChildKeys(cs[i + 1..])
    ensures ChildKeys(cs[i := c]) == ChildKeys(cs[..i]) + Keys(c) + ChildKeys(cs[i + 1..])
  {
    assert cs == cs[..i] + [cs[i]] + cs[i + 1..];
    assert cs[i := c] == cs[..i] + [c] + cs[i + 1..];
    ChildKeysSplice(cs[..i], [cs[i]], cs[i + 1..]);
    ChildKeysSplice(cs[..i], [c], cs[i + 1..]);
    ChildKeysOne(cs[i]);
    ChildKeysOne(c);
  }

  /** Insertion adds exactly the inserted value. */
  lemma {:induction false} PutKeys(n: BNode, v: int, m: nat)
    requires m >= 1 && Shaped(n)
    ensures Keys(Put(n, v, m)) == Keys(n) + {v}
    decreases n
  {
    if IsLeaf(n) {
      if v !in n.values {
        ElemsAddVal(n.values, v);
      }
    } else {
      var k := Slot(n.values, v);
      SplitFromKeys(n, m, 0);
      if !(k < |n.values| && n.values[k] == v) {
        var i := Descent(n, v);
        var c := Put(n.children[i], v, m);
        PutKeys(n.children[i], v, m);
        ChildKeysUpdate(n.children, i, c);
        SplitFromKeys(n.(children := n.children[i := c]), m, 0);
      }
    }
  }

  /** The child `__put` descends to is bounded around `v`. */
  lemma DescentBounds(n: BNode, v: int, lo: Option<int>, hi: Option<int>)
    requires Ordered(n, lo, hi) && !IsLeaf(n) && Gt(v, lo) && Lt(v, hi)
    requires var k := Slot(n.values, v); !(k < |n.values| && n.values[k] == v)
    ensures Gt(v, LoOf(n, Descent(n, v), lo)) && Lt(v, HiOf(n, Descent(n, v), hi))
  {
  }

  /** Replacing a child by one ordered between the same neighbours keeps the node ordered. */
  lemma ReplaceChildOrdered(n: BNode, i: nat, c: BNode, lo: Option<int>, hi: Option<int>)
    requires Ordered(n, lo, hi) && !IsLeaf(n) && i < |n.children|
    requires Ordered(c, LoOf(n, i, lo), HiOf(n, i, hi))
    ensures Ordered(n.(children := n.children[i := c]), lo, hi)
  {
    var r := n.(children := n.children[i := c]);
    forall j | 0 <= j < |r.children| ensures Ordered(r.children[j], LoOf(r, j, lo), HiOf(r, j, hi)) {
      assert LoOf(r, j, lo) == LoOf(n, j, lo) && HiOf(r, j, hi) == HiOf(n, j, hi);
    }
  }

  /** Insertion of a value within the bounds keeps the tree ordered. */
  lemma {:induction false} PutOrdered(n: BNode, v: int, m: nat, lo: Option<int>, hi: Option<int>)
    requires m >= 1 && Ordered(n, lo, hi) && Gt(v, lo) && Lt(v, hi)
    ensures Shaped(n) && Ordered(Put(n, v, m), lo, hi)
    decreases n
  {
    OrderedShaped(n, lo, hi);
    if IsLeaf(n) {
      if v !in n.values {
        AddValSorted(n.values, v);
        var r := AddVal(n.values, v);
        ElemsAddVal(n.values, v);
        forall j | 0 <= j < |r| ensures Gt(r[j], lo) && Lt(r[j], hi) {
          assert r[j] in Elems(r);
        }
      }
    } else {
      var k := Slot(n.values, v);
      if k < |n.values| && n.values[k] == v {
        SplitFromOrdered(n, m, 0, lo, hi);
      } else {
        var i := Descent(n, v);
        DescentBounds(n, v, lo, hi);
        PutOrdered(n.children[i], v, m, LoOf(n, i, lo), HiOf(n, i, hi));
        ReplaceChildOrdered(n, i, Put(n.children[i], v, m), lo, hi);
        SplitFromOrdered(n.(children := n.children[i := Put(n.children[i], v, m)]), m, 0, lo, hi);
      }
    }
  }

  /** Insertion keeps every leaf at the same depth. */
  lemma {:induction false} PutUniform(n: BNode, v: int, m: nat, h: nat)
    requires m >= 1 && Shaped(n) && Uniform(n, h)
    ensures Uniform(Put(n, v, m), h) && Shaped(Put(n, v, m))
    decreases n
  {
    if !IsLeaf(n) {
      var k := Slot(n.values, v);
      if k < |n.values| && n.values[k] == v {
        SplitFromUniform(n, m, 0, h);
      } else {
        var i := Descent(n, v);
        var c := Put(n.children[i], v, m);
        PutUniform(n.children[i], v, m, h - 1);
        var s := n.(children := n.children[i := c]);
        assert forall j :: 0 <= j < |s.children| ==> Uniform(s.children[j], h - 1) && Shaped(s.children[j]);
        SplitFromUniform(s, m, 0, h);
      }
    }
  }

  /** Insertion into a tree whose nodes are all under the order leaves at most `m` values at the top. */
  lemma {:induction false} PutBounded(n: BNode, v: int, m: nat)
    requires m >= 1 && Shaped(n) && AllUnder(n, m)
    ensures AtMost(Put(n, v, m), m)
    decreases n
  {
    if !IsLeaf(n) {
      var k := Slot(n.values, v);
      if k < |n.values| && n.values[k] == v {
        SplitFromNoop(n, m, 0);
      } else {
        var i := Descent(n, v);
        var c := Put(n.children[i], v, m);
        PutBounded(n.children[i], v, m);
        var s := n.(children := n.children[i := c]);
        SplitFromBounded(s, m, 0, i);
      }
    }
  }

  /** `_split(None, root)`: the middle value becomes a new root over the two halves. */
  function SplitRoot(n: BNode): (r: BNode)
    requires |n.values| > 0
    ensures |r.values| == 1 && |r.children| == 2
  {
    BNode([Split(n).1], [Split(n).0, Split(n).2])
  }

  /** A root split keeps the values, the order, and puts every leaf one level deeper. */
  lemma SplitRootKeeps(n: BNode, lo: Option<int>, hi: Option<int>, h: nat)
    requires |n.values| > 0 && Ordered(n, lo, hi) && Uniform(n, h)
    ensures Keys(SplitRoot(n)) == Keys(n)
    ensures Ordered(SplitRoot(n), lo, hi)
    ensures Uniform(SplitRoot(n), h + 1)
  {
    SplitRootKeys(n);
    SplitRootOrdered(n, lo, hi);
    OrderedShaped(n, lo, hi);
    SplitUniform(n, h);
  }

  lemma SplitRootKeys(n: BNode)
    requires |n.values| > 0
    ensures Keys(SplitRoot(n)) == Keys(n)
  {
    SplitKeys(n);
    SplitMedianKey(n);
    ChildKeysTwo(Split(n).0, Split(n).2);
  }

  lemma SplitRootOrdered(n: BNode, lo: Option<int>, hi: Option<int>)
    requires |n.values| > 0 && Ordered(n, lo, hi)
    ensures Ordered(SplitRoot(n), lo, hi)
  {
    SplitLeftOrdered(n, lo, hi);
    SplitRightOrdered(n, lo, hi);
    OrderedBounds(n, lo, hi);
    SplitMedianKey(n);
  }

  /** A root that reached the order splits into a root whose nodes are all under it. */
  lemma SplitRootUnder(n: BNode, m: nat)
    requires m >= 2 && |n.values| == m && AtMost(n, m)
    ensures AllUnder(SplitRoot(n), m)
  {
    SplitUnder(n, m);
  }

  /**
   * `__put` as written: a leaf with no values falls through the value scan
   * to `node.childs[-1]` on an empty list, which raises `IndexError`.
   */
  predicate ReachesEmptyLeaf(n: BNode, v: int)
    requires Shaped(n)
  {
    if IsLeaf(n) then n.values == []
    else
      var k := Slot(n.values, v);
      !(k < |n.values| && n.values[k] == v) && ReachesEmptyLeaf(n.children[Descent(n, v)], v)
  }

  /** `__put` as written; `None` is the `IndexError`. */
  function PutAsWritten(n: BNode, v: int, m: nat): (r: Option<BNode>)
    requires m >= 1 && Shaped(n)
    ensures r.None? <==> ReachesEmptyLeaf(n, v)
    ensures r.Some? ==> r.value == Put(n, v, m)
  {
    if ReachesEmptyLeaf(n, v) then None else Some(Put(n, v, m))
  }

  /**
   * Deleting the only value leaves the root as a leaf without values, on
   * which `__put` as written fails, while the corrected `Put` stores the
   * new value there.
   */
  lemma InsertAfterEmptying(m: nat)
    requires m >= 1
    ensures DeleteNode(BNode([1], []), 1, m) == Some(BNode([], []))
    ensures PutAsWritten(BNode([], []), 2, m).None?
    ensures Put(BNode([], []), 2, m) == BNode([2], [])
  {
    assert IndexOf([1], 1) == 0;
    assert [1][..0] + [1][1..] == [];
  }

  // ---------------------------------------------------------------------------
  // In-order listing
  // ---------------------------------------------------------------------------

  /** The values of the first `k` children and the first `k` values, interleaved. */
  function FlattenUpTo(n: BNode, k: nat): seq<int>
    requires Shaped(n) && k <= |n.values|
    decreases n, 0, k
  {
    if k == 0 then []
    else FlattenUpTo(n, k - 1) + (if IsLeaf(n) then [] else Flatten(n.children[k - 1])) + [n.values[k - 1]]
  }

  /** `_mid_order`: each child's listing before the value after it, then the last child's. */
  function Flatten(n: BNode): seq<int>
    requires Shaped(n)
    decreases n, 1, 0
  {
    FlattenUpTo(n, |n.values|) + (if IsLeaf(n) then [] else Flatten(n.children[|n.children| - 1]))
  }

  // ---------------------------------------------------------------------------
  // Deletion
  // ---------------------------------------------------------------------------

  /** The leaf scan in `__delete_node`: the first index holding `v`, or the length. */
  function IndexOf(vs: seq<int>, v: int): (k: nat)
    ensures k <= |vs|
    ensures k < |vs| ==> vs[k] == v
    ensures forall j :: 0 <= j < k ==> vs[j] != v
  {
    if vs == [] || vs[0] == v then 0 else 1 + IndexOf(vs[1..], v)
  }

  /**
   * `_fill_node` when the right brother has values to spare: the parent's
   * value goes down to the child, the brother's first value goes up, and the
   * brother's first child moves over to the child.
   */
  function BorrowRight(n: BNode, k: nat): (r: BNode)
    requires |n.children| == |n.values| + 1 && k + 1 < |n.children|
    requires |n.children[k + 1].values| > 0
    ensures |r.children| == |n.children| && |r.values| == |n.values|
  {
    var c, b := n.children[k], n.children[k + 1];
    var c2 := BNode(AddVal(c.values, n.values[k]), if IsLeaf(b) then c.children else c.children + [b.children[0]]);
    var b2 := BNode(b.values[1..], if IsLeaf(b) then b.children else b.children[1..]);
    BNode(n.values[k := b.values[0]], n.children[k := c2][k + 1 := b2])
  }

  /**
   * `_fill_node` when the right brother has none to spare: the child's
   * values and children, and the parent's value between them, join the
   * brother, and the child leaves the parent.
   */
  function MergeRight(n: BNode, k: nat): (r: BNode)
    requires |n.children| == |n.values| + 1 && k + 1 < |n.children|
    ensures |r.children| == |n.children| - 1 && |r.values| == |n.values| - 1
  {
    var c, b := n.children[k], n.children[k + 1];
    var b2 := BNode(AddVal(AddVals(b.values, c.values), n.values[k]), c.children + b.children);
    BNode(n.values[..k] + n.values[k + 1..], n.children[..k] + [b2] + n.children[k + 2..])
  }

  /**
   * `_fill_node` for the last child when its left brother has values to
   * spare: the parent's last value goes down, the brother's last value goes
   * up, and the brother's last child moves over.
   */
  function BorrowLeft(n: BNode, k: nat): (r: BNode)
    requires |n.children| == |n.values| + 1 && 0 < k && k + 1 == |n.children|
    requires |n.children[k - 1].values| > 0
    ensures |r.children| == |n.children| && |r.values| == |n.values|
  {
    var c, b := n.children[k], n.children[k - 1];
    var c2 := BNode(AddVal(c.values, n.values[k - 1]), if IsLeaf(b) then c.children else [b.children[|b.children| - 1]] + c.children);
    var b2 := BNode(b.values[..|b.values| - 1], if IsLeaf(b) then b.children else b.children[..|b.children| - 1]);
    BNode(n.values[k - 1 := b.values[|b.values| - 1]], n.children[k - 1 := b2][k := c2])
  }

  /**
   * `_fill_node` for the last child when its left brother has none to
   * spare: the child and the parent's last value join the brother.
   */
  function MergeLeft(n: BNode, k: nat): (r: BNode)
    requires |n.children| == |n.values| + 1 && 0 < k && k + 1 == |n.children|
    ensures |r.children| == |n.children| - 1 && |r.values| == |n.values| - 1
  {
    var c, b := n.children[k], n.children[k - 1];
    var b2 := BNode(AddVal(AddVals(b.values, c.values), n.values[k - 1]), b.children + c.children);
    BNode(n.values[..k - 1], n.children[..k - 1] + [b2])
  }

  /**
   * `_fill_node(parent, child, k)`. The lone child of a node without values
   * is its own "left brother" in the source (`childs[k-1]` with `k == 0`),
   * which either loops forever adding the child's values to themselves or
   * raises `IndexError` on the parent's missing value: `None`.
   */
  function Fill(n: BNode, k: nat, m: nat): (r: Option<BNode>)
    requires m >= 1 && |n.children| == |n.values| + 1 && k < |n.children|
    ensures r.None? <==> k == 0 && |n.children| == 1
    ensures r.Some? ==> |r.value.children| == |r.value.values| + 1
    ensures r.Some? ==> |n.children| - 1 <= |r.value.children| <= |n.children|
  {
    if k + 1 < |n.children| then
      if |n.children[k + 1].values| > Threshold(m) then Some(BorrowRight(n, k)) else Some(MergeRight(n, k))
    else if k == 0 then None
    else if |n.children[k - 1].values| > Threshold(m) then Some(BorrowLeft(n, k))
    else Some(MergeLeft(n, k))
  }

  /**
   * The scan `for k, child in enumerate(node.childs)` after a deletion: every
   * child left with fewer than `ceil(m/2) - 1` values is filled; the scan
   * goes on at `k + 1` of the list as the fill left it.
   */
  function FillFrom(n: BNode, m: nat, k: nat): (r: Option<BNode>)
    requires m >= 1 && (IsLeaf(n) || |n.children| == |n.values| + 1)
    ensures r.Some? ==> IsLeaf(r.value) || |r.value.children| == |r.value.values| + 1
    decreases |n.children| - k
  {
    if k >= |n.children| then Some(n)
    else if |n.children[k].values| < Threshold(m) then
      match Fill(n, k, m)
      case None => None
      case Some(n2) => FillFrom(n2, m, k + 1)
    else FillFrom(n, m, k + 1)
  }

  /**
   * `__delete_node`. A leaf drops `v` if it holds it. An internal node
   * holding `v` takes in its place the first value of the leftmost leaf of
   * the next child and deletes that value there; otherwise the deletion goes
   * down as insertion does. Then the under-filled children are filled.
   * `None` is the `IndexError` of an empty successor leaf or of `Fill`.
   */
  function DeleteNode(n: BNode, v: int, m: nat): (r: Option<BNode>)
    requires m >= 1 && Shaped(n)
    decreases n
  {
    if IsLeaf(n) then
      var k := IndexOf(n.values, v);
      Some(if k < |n.values| then BNode(n.values[..k] + n.values[k + 1..], []) else n)
    else
      var k := Slot(n.values, v);
      if k < |n.values| && n.values[k] == v then
        var after := LeftLeaf(n.children[k + 1]);
        if after.values == [] then None
        else
          match DeleteNode(n.children[k + 1], after.values[0], m)
          case None => None
          case Some(c) => FillFrom(BNode(n.values[k := after.values[0]], n.children[k + 1 := c]), m, 0)
      else
        var i := Descent(n, v);
        match DeleteNode(n.children[i], v, m)
        case None => None
        case Some(c) => FillFrom(n.(children := n.children[i := c]), m, 0)
  }

  // ---------------------------------------------------------------------------
  // Cutting a node at a value and joining two nodes around one
  // ---------------------------------------------------------------------------

  /** Two nodes and the value between them, as one node. */
  function Join(a: BNode, s: int, b: BNode): (r: BNode)
    ensures |r.values| == |a.values| + 1 + |b.values|
  {
    BNode(a.values + [s] + b.values, a.children + b.children)
  }

  /** A node cut at its `j`-th value: the part before it, the value, and the part after it. */
  function Cut(n: BNode, j: nat): (r: (BNode, int, BNode))
    requires j < |n.values|
  {
    (BNode(n.values[..j], Take(n.children, j + 1)), n.values[j], BNode(n.values[j + 1..], Drop(n.children, j + 1)))
  }

  lemma JoinKeys(a: BNode, s: int, b: BNode)
    ensures Keys(Join(a, s, b)) == Keys(a) + {s} + Keys(b)
  {
    ChildKeysAppend(a.children, b.children);
  }

  lemma CutKeys(n: BNode, j: nat)
    requires j < |n.values|
    ensures Keys(Cut(n, j).0) + {Cut(n, j).1} + Keys(Cut(n, j).2) == Keys(n)
  {
    ElemsSplit(n.values, j);
    var p, q := Take(n.children, j + 1), Drop(n.children, j + 1);
    TakeDrop(n.children, j + 1);
    ChildKeysAppend(p, q);
    Interleave(Elems(n.values[..j]), n.values[j], Elems(n.values[j + 1..]), ChildKeys(p), ChildKeys(q));
  }

  /** The values of a list are those before index `j`, the one at `j`, and those after it. */
  lemma ElemsSplit(vs: seq<int>, j: nat)
    requires j < |vs|
    ensures Elems(vs) == Elems(vs[..j]) + {vs[j]} + Elems(vs[j + 1..])
  {
    forall x | x in vs ensures x in vs[..j] || x == vs[j] || x in vs[j + 1..] {
      var i :| 0 <= i < |vs| && vs[i] == x;
      if i < j {
        assert vs[..j][i] == x;
      } else if i > j {
        assert vs[j + 1..][i - j - 1] == x;
      }
    }
  }

  lemma TakeDrop<T>(s: seq<T>, k: nat)
    ensures Take(s, k) + Drop(s, k) == s
  {
    if k > |s| {
      assert Take(s, k) + Drop(s, k) == s + [];
    }
  }

  /** Regrouping the unions of the two parts of a cut node. */
  lemma Interleave(a: set<int>, t: int, b: set<int>, p: set<int>, q: set<int>)
    ensures (a + p) + {t} + (b + q) == (a + {t} + b) + (p + q)
  {
  }

  /** The values of a joined node, when the parts are ordered around the separator. */
  lemma JoinSorted(a: BNode, s: int, b: BNode, lo: Option<int>, hi: Option<int>)
    requires Ordered(a, lo, Some(s)) && Ordered(b, Some(s), hi) && Gt(s, lo) && Lt(s, hi)
    ensures Sorted(Join(a, s, b).values)
    ensures forall j :: 0 <= j < |Join(a, s, b).values| ==> Gt(Join(a, s, b).values[j], lo) && Lt(Join(a, s, b).values[j], hi)
  {
    var vs := Join(a, s, b).values;
    assert forall j :: 0 <= j < |vs| ==> vs[j] == if j < |a.values| then a.values[j] else if j == |a.values| then s else b.values[j - |a.values| - 1];
    forall i, j | 0 <= i < j < |vs| ensures vs[i] < vs[j] {
      if i < |a.values| && j > |a.values| {
        assert vs[i] < s < vs[j];
      }
    }
  }

  /** Each child of a joined node keeps the bounds it had in its part. */
  lemma JoinChild(a: BNode, s: int, b: BNode, lo: Option<int>, hi: Option<int>, i: nat)
    requires Ordered(a, lo, Some(s)) && Ordered(b, Some(s), hi) && !IsLeaf(a) && !IsLeaf(b)
    requires i < |Join(a, s, b).children|
    ensures i <= |Join(a, s, b).values|
    ensures Ordered(Join(a, s, b).children[i], LoOf(Join(a, s, b), i, lo), HiOf(Join(a, s, b), i, hi))
  {
    var r := Join(a, s, b);
    if i < |a.children| {
      assert r.children[i] == a.children[i];
      assert i > 0 ==> r.values[i - 1] == a.values[i - 1];
      assert r.values[i] == if i < |a.values| then a.values[i] else s;
      assert LoOf(r, i, lo) == LoOf(a, i, lo) && HiOf(r, i, hi) == HiOf(a, i, Some(s));
    } else {
      var j := i - |a.children|;
      assert r.children[i] == b.children[j];
      assert r.values[i - 1] == if j == 0 then s else b.values[j - 1];
      assert i < |r.values| ==> r.values[i] == b.values[j];
      assert LoOf(r, i, lo) == LoOf(b, j, Some(s)) && HiOf(r, i, hi) == HiOf(b, j, hi);
    }
  }

  /** Two nodes ordered on either side of a value join into one ordered node. */
  lemma JoinOrdered(a: BNode, s: int, b: BNode, lo: Option<int>, hi: Option<int>)
    requires Ordered(a, lo, Some(s)) && Ordered(b, Some(s), hi) && Gt(s, lo) && Lt(s, hi)
    requires IsLeaf(a) == IsLeaf(b)
    ensures Ordered(Join(a, s, b), lo, hi)
  {
    JoinSorted(a, s, b, lo, hi);
    var r := Join(a, s, b);
    if !IsLeaf(a) {
      forall i | 0 <= i < |r.children| ensures Ordered(r.children[i], LoOf(r, i, lo), HiOf(r, i, hi)) {
        JoinChild(a, s, b, lo, hi, i);
      }
    }
  }

  /** The part of an ordered node before its `j`-th value is ordered below that value. */
  lemma CutLeftOrdered(n: BNode, j: nat, lo: Option<int>, hi: Option<int>)
    requires Ordered(n, lo, hi) && j < |n.values|
    ensures Ordered(Cut(n, j).0, lo, Some(n.values[j]))
  {
    var l := Cut(n, j).0;
    if !IsLeaf(n) {
      assert l.children == n.children[..j + 1];
      forall i | 0 <= i < |l.children| ensures Ordered(l.children[i], LoOf(l, i, lo), HiOf(l, i, Some(n.values[j]))) {
        assert l.children[i] == n.children[i];
        assert LoOf(l, i, lo) == LoOf(n, i, lo);
        assert HiOf(l, i, Some(n.values[j])) == HiOf(n, i, hi);
      }
    }
  }

  /** Each child of the part after the cut keeps the bounds it had. */
  lemma CutRightChild(n: BNode, j: nat, lo: Option<int>, hi: Option<int>, i: nat)
    requires Ordered(n, lo, hi) && j < |n.values| && !IsLeaf(n)
    requires i < |Cut(n, j).2.children|
    ensures i <= |Cut(n, j).2.values|
    ensures Ordered(Cut(n, j).2.children[i], LoOf(Cut(n, j).2, i, Some(n.values[j])), HiOf(Cut(n, j).2, i, hi))
  {
    var rt := Cut(n, j).2;
    var cs := n.children;
    assert rt.children == cs[j + 1..];
    assert rt.children[i] == cs[j + 1 + i];
    assert LoOf(rt, i, Some(n.values[j])) == LoOf(n, j + 1 + i, lo);
    assert HiOf(rt, i, hi) == HiOf(n, j + 1 + i, hi);
  }

  /** The part of an ordered node after its `j`-th value is ordered above that value. */
  lemma CutRightOrdered(n: BNode, j: nat, lo: Option<int>, hi: Option<int>)
    requires Ordered(n, lo, hi) && j < |n.values|
    ensures Ordered(Cut(n, j).2, Some(n.values[j]), hi)
  {
    var rt := Cut(n, j).2;
    SortedSuffix(n.values, j + 1);
    assert forall i :: 0 <= i < |rt.values| ==> rt.values[i] == n.values[j + 1 + i];
    if !IsLeaf(n) {
      forall i | 0 <= i < |rt.children| ensures Ordered(rt.children[i], LoOf(rt, i, Some(n.values[j])), HiOf(rt, i, hi)) {
        CutRightChild(n, j, lo, hi, i);
      }
    }
  }

  lemma JoinUniform(a: BNode, s: int, b: BNode, h: nat)
    requires Uniform(a, h) && Uniform(b, h)
    ensures Uniform(Join(a, s, b), h)
  {
    var r := Join(a, s, b);
    if h > 0 {
      assert r.children[0] == a.children[0];
      forall i | 0 <= i < |r.children| ensures Uniform(r.children[i], h - 1) {
        if i < |a.children| {
          assert r.children[i] == a.children[i];
        } else {
          assert r.children[i] == b.children[i - |a.children|];
        }
      }
    }
  }

  lemma CutUniform(n: BNode, j: nat, h: nat)
    requires Uniform(n, h) && (IsLeaf(n) || |n.children| == |n.values| + 1) && j < |n.values|
    ensures Uniform(Cut(n, j).0, h) && Uniform(Cut(n, j).2, h)
  {
    var l, rt := Cut(n, j).0, Cut(n, j).2;
    if h > 0 {
      assert l.children == n.children[..j + 1] && rt.children == n.children[j + 1..];
      assert l.children[0] == n.children[0] && rt.children[0] == n.children[j + 1];
      forall i | 0 <= i < |l.children| ensures Uniform(l.children[i], h - 1) {
        assert l.children[i] == n.children[i];
      }
      forall i | 0 <= i < |rt.children| ensures Uniform(rt.children[i], h - 1) {
        assert rt.children[i] == n.children[j + 1 + i];
      }
    }
  }

  // ---------------------------------------------------------------------------
  // Reshaping a parent around its children `j` and `j + 1`
  // ---------------------------------------------------------------------------

  /** The values of a parent other than its `j`-th value and its children `j` and `j + 1`. */
  ghost function Rest(n: BNode, j: nat): set<int>
    requires j < |n.values| && j + 1 < |n.children|
  {
    Elems(n.values[..j]) + Elems(n.values[j + 1..]) + ChildKeys(n.children[..j]) + ChildKeys(n.children[j + 2..])
  }

  /** Replacing the `j`-th value and the two children around it. */
  lemma PairKeys(n: BNode, j: nat, x: BNode, t: int, y: BNode)
    requires j < |n.values| && j + 1 < |n.children|
    ensures Keys(BNode(n.values[j := t], n.children[j := x][j + 1 := y])) == Rest(n, j) + {t} + Keys(x) + Keys(y)
  {
    var vs, cs := n.values[j := t], n.children[j := x][j + 1 := y];
    assert vs == n.values[..j] + [t] + n.values[j + 1..];
    assert cs == n.children[..j] + [x, y] + n.children[j + 2..];
    assert [x, y] == [x] + [y];
    ChildKeysSplice(n.children[..j], [x, y], n.children[j + 2..]);
    ChildKeysAppend([x], [y]);
    ChildKeysOne(x);
    ChildKeysOne(y);
  }

  /** Replacing the `j`-th value and the two children around it by a single child. */
  lemma MergeKeys(n: BNode, j: nat, x: BNode)
    requires j < |n.values| && j + 1 < |n.children|
    ensures Keys(BNode(n.values[..j] + n.values[j + 1..], n.children[..j] + [x] + n.children[j + 2..])) == Rest(n, j) + Keys(x)
  {
    ChildKeysSplice(n.children[..j], [x], n.children[j + 2..]);
    ChildKeysOne(x);
  }

  /** Each child keeps its bounds when the value between children `j` and `j + 1` changes. */
  lemma PairChild(n: BNode, j: nat, x: BNode, t: int, y: BNode, lo: Option<int>, hi: Option<int>, i: nat)
    requires Ordered(n, lo, hi) && !IsLeaf(n) && j + 1 < |n.children|
    requires Ordered(x, LoOf(n, j, lo), Some(t)) && Ordered(y, Some(t), HiOf(n, j + 1, hi))
    requires i < |n.children|
    ensures var r := BNode(n.values[j := t], n.children[j := x][j + 1 := y]);
            Ordered(r.children[i], LoOf(r, i, lo), HiOf(r, i, hi))
  {
    var r := BNode(n.values[j := t], n.children[j := x][j + 1 := y]);
    if i < j || i > j + 1 {
      assert r.children[i] == n.children[i];
      assert LoOf(r, i, lo) == LoOf(n, i, lo) && HiOf(r, i, hi) == HiOf(n, i, hi);
    } else if i == j {
      assert LoOf(r, i, lo) == LoOf(n, j, lo);
    } else {
      assert HiOf(r, i, hi) == HiOf(n, j + 1, hi);
    }
  }

  /** A parent stays ordered when its `j`-th value and the children around it are replaced consistently. */
  lemma PairOrdered(n: BNode, j: nat, x: BNode, t: int, y: BNode, lo: Option<int>, hi: Option<int>)
    requires Ordered(n, lo, hi) && !IsLeaf(n) && j + 1 < |n.children|
    requires Ordered(x, LoOf(n, j, lo), Some(t)) && Ordered(y, Some(t), HiOf(n, j + 1, hi))
    requires Gt(t, LoOf(n, j, lo)) && Lt(t, HiOf(n, j + 1, hi))
    ensures Ordered(BNode(n.values[j := t], n.children[j := x][j + 1 := y]), lo, hi)
  {
    var r := BNode(n.values[j := t], n.children[j := x][j + 1 := y]);
    ReplaceSorted(n.values, j, t);
    forall i | 0 <= i < |r.values| ensures Gt(r.values[i], lo) && Lt(r.values[i], hi) {
      if i == j {
        if j > 0 {
          assert Gt(n.values[j - 1], lo);
        }
        if j + 1 < |n.values| {
          assert Lt(n.values[j + 1], hi);
        }
      }
    }
    forall i | 0 <= i < |r.children| ensures Ordered(r.children[i], LoOf(r, i, lo), HiOf(r, i, hi)) {
      PairChild(n, j, x, t, y, lo, hi, i);
    }
  }

  /** Each child keeps its bounds when children `j` and `j + 1` are fused. */
  lemma MergeChild(n: BNode, j: nat, x: BNode, lo: Option<int>, hi: Option<int>, i: nat)
    requires Ordered(n, lo, hi) && !IsLeaf(n) && j + 1 < |n.children|
    requires Ordered(x, LoOf(n, j, lo), HiOf(n, j + 1, hi))
    requires i < |n.children| - 1
    ensures var r := BNode(n.values[..j] + n.values[j + 1..], n.children[..j] + [x] + n.children[j + 2..]);
            Ordered(r.children[i], LoOf(r, i, lo), HiOf(r, i, hi))
  {
    var r := BNode(n.values[..j] + n.values[j + 1..], n.children[..j] + [x] + n.children[j + 2..]);
    if i < j {
      MergedBounds(n.values, j, r.values, i, i + 1);
      assert r.children[i] == n.children[i];
      assert LoOf(r, i, lo) == LoOf(n, i, lo) && HiOf(r, i, hi) == HiOf(n, i, hi);
    } else if i == j {
      MergedBounds(n.values, j, r.values, i, i + 1);
      assert LoOf(r, i, lo) == LoOf(n, j, lo) && HiOf(r, i, hi) == HiOf(n, j + 1, hi);
    } else {
      MergedAbove(n, j, x, i, i + 1);
      MergedBounds(n.values, j, r.values, i, i + 1);
      assert LoOf(r, i, lo) == LoOf(n, i + 1, lo) && HiOf(r, i, hi) == HiOf(n, i + 1, hi);
    }
  }

  /** The values on both sides of the `i`-th gap of a list with its `j`-th value removed. */
  lemma MergedBounds(vs: seq<int>, j: nat, rv: seq<int>, i: nat, i1: nat)
    requires j < |vs| && rv == vs[..j] + vs[j + 1..] && i1 == i + 1 && i <= |rv|
    ensures 0 < i <= j ==> rv[i - 1] == vs[i - 1]
    ensures j < i ==> rv[i - 1] == vs[i]
    ensures i < j ==> rv[i] == vs[i]
    ensures j <= i < |rv| ==> rv[i] == vs[i1]
  {
  }

  /** A child after the merged one is the one after it in the original node. */
  lemma MergedAbove(n: BNode, j: nat, x: BNode, i: nat, i1: nat)
    requires j + 1 < |n.children| && j < i && i1 == i + 1 && i1 < |n.children|
    ensures (n.children[..j] + [x] + n.children[j + 2..])[i] == n.children[i1]
  {
  }

  /** A parent stays ordered when children `j` and `j + 1` and the value between them become one child. */
  lemma MergeOrdered(n: BNode, j: nat, x: BNode, lo: Option<int>, hi: Option<int>)
    requires Ordered(n, lo, hi) && !IsLeaf(n) && j + 1 < |n.children|
    requires Ordered(x, LoOf(n, j, lo), HiOf(n, j + 1, hi))
    ensures Ordered(BNode(n.values[..j] + n.values[j + 1..], n.children[..j] + [x] + n.children[j + 2..]), lo, hi)
  {
    var r := BNode(n.values[..j] + n.values[j + 1..], n.children[..j] + [x] + n.children[j + 2..]);
    RemoveSorted(n.values, j);
    RemoveBetween(n.values, j, lo, hi);
    forall i | 0 <= i < |r.children| ensures Ordered(r.children[i], LoOf(r, i, lo), HiOf(r, i, hi)) {
      MergeChild(n, j, x, lo, hi, i);
    }
  }

  /** Removing a value from a list of values between two bounds leaves one between them. */
  lemma RemoveBetween(vs: seq<int>, j: nat, lo: Option<int>, hi: Option<int>)
    requires j < |vs| && Within(vs, lo, hi)
    ensures Within(vs[..j] + vs[j + 1..], lo, hi)
  {
    var r := vs[..j] + vs[j + 1..];
    forall a | 0 <= a < |r| ensures Gt(r[a], lo) && Lt(r[a], hi) {
      if a < j {
        assert r[a] == vs[a];
      } else {
        assert r[a] == vs[a + 1];
      }
    }
  }

  lemma PairUniform(n: BNode, j: nat, x: BNode, t: int, y: BNode, h: nat)
    requires Uniform(n, h) && |n.children| == |n.values| + 1 && j + 1 < |n.children|
    requires Uniform(x, h - 1) && Uniform(y, h - 1)
    ensures Uniform(BNode(n.values[j := t], n.children[j := x][j + 1 := y]), h)
  {
  }

  lemma MergeUniform(n: BNode, j: nat, x: BNode, h: nat)
    requires Uniform(n, h) && |n.children| == |n.values| + 1 && j + 1 < |n.children| && Uniform(x, h - 1)
    ensures Uniform(BNode(n.values[..j] + n.values[j + 1..], n.children[..j] + [x] + n.children[j + 2..]), h)
  {
    var r := BNode(n.values[..j] + n.values[j + 1..], n.children[..j] + [x] + n.children[j + 2..]);
    forall i | 0 <= i < |r.children| ensures Uniform(r.children[i], h - 1) {
      if i < j {
        assert r.children[i] == n.children[i];
      } else if i > j {
        assert r.children[i] == n.children[i + 1];
      }
    }
  }

  // ---------------------------------------------------------------------------
  // The four ways `_fill_node` refills a child
  // ---------------------------------------------------------------------------

  /** All values of an ordered node lie below its upper bound, so `add_val` appends there. */
  lemma AppendsAbove(c: BNode, lo: Option<int>, s: int)
    requires Ordered(c, lo, Some(s))
    ensures AddVal(c.values, s) == c.values + [s]
  {
    forall x | x in c.values ensures x < s {
    }
    AddValBack(c.values, s);
  }

  /** All values of an ordered node lie above its lower bound, so `add_val` prepends there. */
  lemma PrependsBelow(c: BNode, s: int, hi: Option<int>)
    requires Ordered(c, Some(s), hi)
    ensures AddVal(c.values, s) == [s] + c.values
  {
    forall x | x in c.values ensures s < x {
    }
    AddValFront(c.values, s);
  }

  /** Borrowing from the right brother: cut off its first value and join it to the child. */
  lemma BorrowRightIs(n: BNode, k: nat, lo: Option<int>, hi: Option<int>)
    requires Ordered(n, lo, hi) && !IsLeaf(n) && k + 1 < |n.children| && |n.children[k + 1].values| > 0
    ensures var b := n.children[k + 1];
            BorrowRight(n, k) == BNode(n.values[k := b.values[0]], n.children[k := Join(n.children[k], n.values[k], Cut(b, 0).0)][k + 1 := Cut(b, 0).2])
  {
    AppendsAbove(n.children[k], LoOf(n, k, lo), n.values[k]);
    OrderedShaped(n.children[k + 1], Some(n.values[k]), HiOf(n, k + 1, hi));
    BorrowRightCut(n, k);
  }

  /** `BorrowRight` as a cut and a join, once `add_val` is known to append. */
  lemma BorrowRightCut(n: BNode, k: nat)
    requires |n.children| == |n.values| + 1 && k + 1 < |n.children|
    requires var b := n.children[k + 1]; |b.values| > 0 && (IsLeaf(b) || |b.children| == |b.values| + 1)
    requires AddVal(n.children[k].values, n.values[k]) == n.children[k].values + [n.values[k]]
    ensures var b := n.children[k + 1];
            BorrowRight(n, k) == BNode(n.values[k := b.values[0]], n.children[k := Join(n.children[k], n.values[k], Cut(b, 0).0)][k + 1 := Cut(b, 0).2])
  {
    var c, b, s := n.children[k], n.children[k + 1], n.values[k];
    assert b.values[..0] == [];
    var c2 := BNode(AddVal(c.values, s), if IsLeaf(b) then c.children else c.children + [b.children[0]]);
    var b2 := BNode(b.values[1..], if IsLeaf(b) then b.children else b.children[1..]);
    if IsLeaf(b) {
      assert Take(b.children, 1) == [] && Drop(b.children, 1) == [];
    } else {
      assert Take(b.children, 1) == [b.children[0]] && Drop(b.children, 1) == b.children[1..];
    }
    assert c2 == Join(c, s, Cut(b, 0).0);
    assert b2 == Cut(b, 0).2;
  }

  /** Borrowing from the left brother: cut off its last value and join it to the child. */
  lemma BorrowLeftIs(n: BNode, k: nat, lo: Option<int>, hi: Option<int>)
    requires Ordered(n, lo, hi) && !IsLeaf(n) && 0 < k && k + 1 == |n.children| && |n.children[k - 1].values| > 0
    ensures var b := n.children[k - 1];
            var j := |b.values| - 1;
            BorrowLeft(n, k) == BNode(n.values[k - 1 := b.values[j]], n.children[k - 1 := Cut(b, j).0][k := Join(Cut(b, j).2, n.values[k - 1], n.children[k])])
  {
    PrependsBelow(n.children[k], n.values[k - 1], HiOf(n, k, hi));
    OrderedShaped(n.children[k - 1], LoOf(n, k - 1, lo), Some(n.values[k - 1]));
    BorrowLeftCut(n, k);
  }

  /** `BorrowLeft` as a cut and a join, once `add_val` is known to prepend. */
  lemma BorrowLeftCut(n: BNode, k: nat)
    requires |n.children| == |n.values| + 1 && 0 < k && k + 1 == |n.children|
    requires var b := n.children[k - 1]; |b.values| > 0 && (IsLeaf(b) || |b.children| == |b.values| + 1)
    requires AddVal(n.children[k].values, n.values[k - 1]) == [n.values[k - 1]] + n.children[k].values
    ensures var b := n.children[k - 1];
            var j := |b.values| - 1;
            BorrowLeft(n, k) == BNode(n.values[k - 1 := b.values[j]], n.children[k - 1 := Cut(b, j).0][k := Join(Cut(b, j).2, n.values[k - 1], n.children[k])])
  {
    var c, b, s := n.children[k], n.children[k - 1], n.values[k - 1];
    var j := |b.values| - 1;
    var cut := Cut(b, j);
    assert cut.2.values == [] by {
      assert b.values[j + 1..] == [];
    }
    assert Join(cut.2, s, c).values == [s] + c.values;
    if IsLeaf(b) {
      assert Take(b.children, j + 1) == [] && Drop(b.children, j + 1) == [];
      assert Join(cut.2, s, c).children == c.children;
    } else {
      assert Take(b.children, j + 1) == b.children[..|b.children| - 1];
      assert Drop(b.children, j + 1) == [b.children[|b.children| - 1]];
    }
  }

  /** Adding the values of one sorted run to another that follows it. */
  lemma AddValsBefore(a: seq<int>, b: seq<int>)
    requires Sorted(a + b)
    ensures AddVals(b, a) == a + b
  {
    var e: seq<int> := [];
    assert e + a + b == a + b && e + b == b;
    AddValsAt(e, a, b);
  }

  /** Adding the values of one sorted run to another that precedes it. */
  lemma AddValsAfter(a: seq<int>, b: seq<int>)
    requires Sorted(a + b)
    ensures AddVals(a, b) == a + b
  {
    var e: seq<int> := [];
    assert a + b + e == a + b && a + e == a;
    AddValsAt(a, b, e);
  }

  /** The two sorted runs of a joined node, without the separator, form a sorted run. */
  lemma JoinRuns(a: BNode, s: int, b: BNode, lo: Option<int>, hi: Option<int>)
    requires Ordered(a, lo, Some(s)) && Ordered(b, Some(s), hi) && Gt(s, lo) && Lt(s, hi)
    ensures Sorted(a.values + b.values)
    ensures AddVal(a.values + b.values, s) == Join(a, s, b).values
  {
    JoinSorted(a, s, b, lo, hi);
    RunsApart(a.values, s, b.values);
  }

  /** A sorted run with one value taken out stays sorted, and putting the value back restores it. */
  lemma RunsApart(p: seq<int>, s: int, q: seq<int>)
    requires Sorted(p + [s] + q)
    ensures Sorted(p + q)
    ensures AddVal(p + q, s) == p + [s] + q
  {
    var all := p + [s] + q;
    RemoveSorted(all, |p|);
    assert all[..|p|] + all[|p| + 1..] == p + q;
    forall x | x in p ensures x < s {
      var i :| 0 <= i < |p| && p[i] == x;
      assert all[i] == x && all[|p|] == s;
    }
    forall x | x in q ensures s < x {
      var i :| 0 <= i < |q| && q[i] == x;
      assert all[|p| + 1 + i] == x && all[|p|] == s;
    }
    AddValAt(p, q, s);
  }

  /** Merging into the right brother: the child, the parent's value and the brother joined. */
  lemma MergeRightIs(n: BNode, k: nat, lo: Option<int>, hi: Option<int>)
    requires Ordered(n, lo, hi) && !IsLeaf(n) && k + 1 < |n.children|
    ensures MergeRight(n, k) == BNode(n.values[..k] + n.values[k + 1..], n.children[..k] + [Join(n.children[k], n.values[k], n.children[k + 1])] + n.children[k + 2..])
  {
    var c, b := n.children[k], n.children[k + 1];
    JoinRuns(c, n.values[k], b, LoOf(n, k, lo), HiOf(n, k + 1, hi));
    AddValsBefore(c.values, b.values);
  }

  /** Merging into the left brother: the brother, the parent's last value and the child joined. */
  lemma MergeLeftIs(n: BNode, k: nat, lo: Option<int>, hi: Option<int>)
    requires Ordered(n, lo, hi) && !IsLeaf(n) && 0 < k && k + 1 == |n.children|
    ensures MergeLeft(n, k) == BNode(n.values[..k - 1] + n.values[k..], n.children[..k - 1] + [Join(n.children[k - 1], n.values[k - 1], n.children[k])] + n.children[k + 1..])
  {
    var c, b := n.children[k], n.children[k - 1];
    JoinRuns(b, n.values[k - 1], c, LoOf(n, k - 1, lo), HiOf(n, k, hi));
    AddValsAfter(b.values, c.values);
    assert n.values[k..] == [] && n.children[k + 1..] == [];
  }

  /** The bounds of two neighbouring children of an ordered node meet at the value between them. */
  lemma Neighbours(n: BNode, j: nat, lo: Option<int>, hi: Option<int>)
    requires Ordered(n, lo, hi) && !IsLeaf(n) && j + 1 < |n.children|
    ensures HiOf(n, j, hi) == Some(n.values[j]) && LoOf(n, j + 1, lo) == Some(n.values[j])
    ensures Gt(n.values[j], LoOf(n, j, lo)) && Lt(n.values[j], HiOf(n, j + 1, hi))
    ensures Ordered(n.children[j], LoOf(n, j, lo), Some(n.values[j]))
    ensures Ordered(n.children[j + 1], Some(n.values[j]), HiOf(n, j + 1, hi))
    ensures n == BNode(n.values[j := n.values[j]], n.children[j := n.children[j]][j + 1 := n.children[j + 1]])
  {
  }

  lemma BorrowRightOrdered(n: BNode, k: nat, lo: Option<int>, hi: Option<int>, h: nat)
    requires Ordered(n, lo, hi) && Uniform(n, h) && !IsLeaf(n) && k + 1 < |n.children|
    requires |n.children[k + 1].values| > 0
    ensures Ordered(BorrowRight(n, k), lo, hi)
  {
    BorrowRightIs(n, k, lo, hi);
    Neighbours(n, k, lo, hi);
    var c, b, s := n.children[k], n.children[k + 1], n.values[k];
    var L, H := LoOf(n, k, lo), HiOf(n, k + 1, hi);
    var b0, t, b2 := Cut(b, 0).0, Cut(b, 0).1, Cut(b, 0).2;
    CutLeftOrdered(b, 0, Some(s), H);
    CutRightOrdered(b, 0, Some(s), H);
    assert Gt(t, Some(s)) && Lt(t, H);
    assert IsLeaf(c) == IsLeaf(b0) by {
      assert Uniform(c, h - 1) && Uniform(b, h - 1);
    }
    JoinOrdered(c, s, b0, L, Some(t));
    PairOrdered(n, k, Join(c, s, b0), t, b2, lo, hi);
  }

  lemma BorrowRightKeys(n: BNode, k: nat, lo: Option<int>, hi: Option<int>)
    requires Ordered(n, lo, hi) && !IsLeaf(n) && k + 1 < |n.children|
    requires |n.children[k + 1].values| > 0
    ensures Keys(BorrowRight(n, k)) == Keys(n)
  {
    BorrowRightIs(n, k, lo, hi);
    var b := n.children[k + 1];
    CutKeys(b, 0);
    ShiftBackKeys(n, k, Cut(b, 0).0, Cut(b, 0).1, Cut(b, 0).2);
  }

  /** Moving the first part of the `j + 1`-th child, through the `j`-th value, into the previous child keeps the keys. */
  lemma ShiftBackKeys(n: BNode, j: nat, b0: BNode, t: int, b2: BNode)
    requires j < |n.values| && j + 1 < |n.children|
    requires Keys(n.children[j + 1]) == Keys(b0) + {t} + Keys(b2)
    ensures Keys(BNode(n.values[j := t], n.children[j := Join(n.children[j], n.values[j], b0)][j + 1 := b2])) == Keys(n)
  {
    var c, b, s := n.children[j], n.children[j + 1], n.values[j];
    assert n == BNode(n.values[j := s], n.children[j := c][j + 1 := b]);
    PairKeys(n, j, Join(c, s, b0), t, b2);
    PairKeys(n, j, c, s, b);
    JoinKeys(c, s, b0);
    RegroupBack(Rest(n, j), t, Keys(c), s, Keys(b0), Keys(b2));
  }

  /** Moving a value from one side of a regrouped union to the other. */
  lemma RegroupBack(rest: set<int>, t: int, a: set<int>, s: int, b: set<int>, c: set<int>)
    ensures rest + {t} + (a + {s} + b) + c == rest + {s} + a + (b + {t} + c)
  {
  }

  lemma BorrowRightUniform(n: BNode, k: nat, lo: Option<int>, hi: Option<int>, h: nat)
    requires Ordered(n, lo, hi) && Uniform(n, h) && !IsLeaf(n) && k + 1 < |n.children|
    requires |n.children[k + 1].values| > 0
    ensures Uniform(BorrowRight(n, k), h)
  {
    BorrowRightIs(n, k, lo, hi);
    Neighbours(n, k, lo, hi);
    var c, b, s := n.children[k], n.children[k + 1], n.values[k];
    var b0, t, b2 := Cut(b, 0).0, Cut(b, 0).1, Cut(b, 0).2;
    OrderedShaped(b, Some(s), HiOf(n, k + 1, hi));
    CutUniform(b, 0, h - 1);
    JoinUniform(c, s, b0, h - 1);
    PairUniform(n, k, Join(c, s, b0), t, b2, h);
  }

  lemma BorrowLeftOrdered(n: BNode, k: nat, lo: Option<int>, hi: Option<int>, h: nat)
    requires Ordered(n, lo, hi) && Uniform(n, h) && !IsLeaf(n) && 0 < k && k + 1 == |n.children|
    requires |n.children[k - 1].values| > 0
    ensures Ordered(BorrowLeft(n, k), lo, hi)
  {
    BorrowLeftIs(n, k, lo, hi);
    SiblingsAlike(n, h, k - 1, k);
    ShiftForwardOrdered(n, k - 1, lo, hi);
  }

  /** Moving the last value of child `i` up and the part after it into child `i + 1` keeps the node ordered. */
  lemma ShiftForwardOrdered(n: BNode, i: nat, lo: Option<int>, hi: Option<int>)
    requires Ordered(n, lo, hi) && !IsLeaf(n) && i + 1 < |n.children|
    requires IsLeaf(n.children[i]) == IsLeaf(n.children[i + 1])
    requires |n.children[i].values| > 0
    ensures var b := n.children[i];
            var j := |b.values| - 1;
            Ordered(BNode(n.values[i := Cut(b, j).1], n.children[i := Cut(b, j).0][i + 1 := Join(Cut(b, j).2, n.values[i], n.children[i + 1])]), lo, hi)
  {
    Neighbours(n, i, lo, hi);
    var b, c, s := n.children[i], n.children[i + 1], n.values[i];
    var j := |b.values| - 1;
    LastCutOrdered(b, LoOf(n, i, lo), s);
    ShiftedParts(Cut(b, j).2, Cut(b, j).1, s, c, HiOf(n, i + 1, hi));
    PairOrdered(n, i, Cut(b, j).0, Cut(b, j).1, Join(Cut(b, j).2, s, c), lo, hi);
  }

  /** The part after the value that moves up joins `c` below `s`, within the new bounds. */
  lemma ShiftedParts(r: BNode, t: int, s: int, c: BNode, hi: Option<int>)
    requires Ordered(r, Some(t), Some(s)) && t < s && Ordered(c, Some(s), hi) && Lt(s, hi)
    requires IsLeaf(r) == IsLeaf(c)
    ensures Ordered(Join(r, s, c), Some(t), hi) && Lt(t, hi)
  {
    JoinOrdered(r, s, c, Some(t), hi);
  }

  /** Cutting an ordered node at its last value: two ordered parts around it, the second a leaf exactly when the node is. */
  lemma LastCutOrdered(b: BNode, lo: Option<int>, s: int)
    requires Ordered(b, lo, Some(s)) && |b.values| > 0
    ensures var j := |b.values| - 1;
            var t := Cut(b, j).1;
            Ordered(Cut(b, j).0, lo, Some(t)) && Ordered(Cut(b, j).2, Some(t), Some(s)) &&
            Gt(t, lo) && t < s && IsLeaf(Cut(b, j).2) == IsLeaf(b)
  {
    var j := |b.values| - 1;
    CutLeftOrdered(b, j, lo, Some(s));
    CutRightOrdered(b, j, lo, Some(s));
    OrderedShaped(b, lo, Some(s));
    LastCutAlike(b, j);
  }

  /** Children of a node whose leaves lie at one depth are all leaves or all inner nodes. */
  lemma SiblingsAlike(n: BNode, h: nat, i: nat, j: nat)
    requires Uniform(n, h) && !IsLeaf(n) && i < |n.children| && j < |n.children|
    ensures Uniform(n.children[i], h - 1) && Uniform(n.children[j], h - 1)
    ensures IsLeaf(n.children[i]) == IsLeaf(n.children[j])
  {
  }

  /** The part after the last value of a shaped node is a leaf exactly when the node is. */
  lemma LastCutAlike(b: BNode, j: nat)
    requires j + 1 == |b.values| && (IsLeaf(b) || |b.children| == |b.values| + 1)
    ensures IsLeaf(Cut(b, j).2) == IsLeaf(b)
  {
    if !IsLeaf(b) {
      assert Drop(b.children, j + 1) == [b.children[j + 1]];
    }
  }

  lemma BorrowLeftKeys(n: BNode, k: nat, lo: Option<int>, hi: Option<int>)
    requires Ordered(n, lo, hi) && !IsLeaf(n) && 0 < k && k + 1 == |n.children|
    requires |n.children[k - 1].values| > 0
    ensures Keys(BorrowLeft(n, k)) == Keys(n)
  {
    BorrowLeftIs(n, k, lo, hi);
    var b := n.children[k - 1];
    var j := |b.values| - 1;
    CutKeys(b, j);
    ShiftKeys(n, k - 1, k, Cut(b, j).0, Cut(b, j).1, Cut(b, j).2);
  }

  /** Moving the last part of the `j`-th child, through the `j`-th value, into the next child keeps the keys. */
  lemma ShiftKeys(n: BNode, j: nat, j1: nat, b2: BNode, t: int, bl: BNode)
    requires j < |n.values| && j1 == j + 1 && j1 < |n.children|
    requires Keys(n.children[j]) == Keys(b2) + {t} + Keys(bl)
    ensures Keys(BNode(n.values[j := t], n.children[j := b2][j1 := Join(bl, n.values[j], n.children[j1])])) == Keys(n)
  {
    var b, c, s := n.children[j], n.children[j + 1], n.values[j];
    assert n == BNode(n.values[j := s], n.children[j := b][j + 1 := c]);
    PairKeys(n, j, b2, t, Join(bl, s, c));
    PairKeys(n, j, b, s, c);
    JoinKeys(bl, s, c);
    Regroup(Rest(n, j), t, Keys(b2), Keys(bl), s, Keys(c));
  }

  /** Moving a value from one side of a regrouped union to the other. */
  lemma Regroup(rest: set<int>, t: int, a: set<int>, b: set<int>, s: int, c: set<int>)
    ensures rest + {t} + a + (b + {s} + c) == rest + {s} + (a + {t} + b) + c
  {
  }

  lemma BorrowLeftUniform(n: BNode, k: nat, lo: Option<int>, hi: Option<int>, h: nat)
    requires Ordered(n, lo, hi) && Uniform(n, h) && !IsLeaf(n) && 0 < k && k + 1 == |n.children|
    requires |n.children[k - 1].values| > 0
    ensures Uniform(BorrowLeft(n, k), h)
  {
    BorrowLeftIs(n, k, lo, hi);
    Neighbours(n, k - 1, lo, hi);
    var b, c, s := n.children[k - 1], n.children[k], n.values[k - 1];
    var j := |b.values| - 1;
    var b2, t, bl := Cut(b, j).0, Cut(b, j).1, Cut(b, j).2;
    OrderedShaped(b, LoOf(n, k - 1, lo), Some(s));
    CutUniform(b, j, h - 1);
    JoinUniform(bl, s, c, h - 1);
    PairUniform(n, k - 1, b2, t, Join(bl, s, c), h);
  }

  /** Merging into the right brother keeps the values, the order and the leaf depth. */
  lemma MergeRightKeeps(n: BNode, k: nat, lo: Option<int>, hi: Option<int>, h: nat)
    requires Ordered(n, lo, hi) && Uniform(n, h) && !IsLeaf(n) && k + 1 < |n.children|
    ensures Keys(MergeRight(n, k)) == Keys(n)
    ensures Ordered(MergeRight(n, k), lo, hi) && Uniform(MergeRight(n, k), h)
  {
    MergeRightIs(n, k, lo, hi);
    MergedKeeps(n, k, k + 1, k + 2, lo, hi, h);
  }

  /** Merging into the left brother keeps the values, the order and the leaf depth. */
  lemma MergeLeftKeeps(n: BNode, k: nat, lo: Option<int>, hi: Option<int>, h: nat)
    requires Ordered(n, lo, hi) && Uniform(n, h) && !IsLeaf(n) && 0 < k && k + 1 == |n.children|
    ensures Keys(MergeLeft(n, k)) == Keys(n)
    ensures Ordered(MergeLeft(n, k), lo, hi) && Uniform(MergeLeft(n, k), h)
  {
    MergeLeftIs(n, k, lo, hi);
    MergedKeeps(n, k - 1, k, k + 1, lo, hi, h);
  }

  /** Joining children `j` and `j + 1` around the value between them keeps the values, the order and the leaf depth. */
  lemma MergedKeeps(n: BNode, j: nat, j1: nat, j2: nat, lo: Option<int>, hi: Option<int>, h: nat)
    requires Ordered(n, lo, hi) && Uniform(n, h) && !IsLeaf(n) && j1 == j + 1 && j2 == j + 2 && j1 < |n.children|
    ensures var r := BNode(n.values[..j] + n.values[j1..], n.children[..j] + [Join(n.children[j], n.values[j], n.children[j1])] + n.children[j2..]);
            Keys(r) == Keys(n) && Ordered(r, lo, hi) && Uniform(r, h)
  {
    MergedKeys(n, j);
    SiblingsAlike(n, h, j, j + 1);
    MergedOrdered(n, j, lo, hi);
    JoinUniform(n.children[j], n.values[j], n.children[j + 1], h - 1);
    MergeUniform(n, j, Join(n.children[j], n.values[j], n.children[j + 1]), h);
  }

  lemma MergedKeys(n: BNode, j: nat)
    requires j < |n.values| && j + 1 < |n.children|
    ensures Keys(BNode(n.values[..j] + n.values[j + 1..], n.children[..j] + [Join(n.children[j], n.values[j], n.children[j + 1])] + n.children[j + 2..])) == Keys(n)
  {
    var b, c, s := n.children[j], n.children[j + 1], n.values[j];
    assert n == BNode(n.values[j := s], n.children[j := b][j + 1 := c]);
    MergeKeys(n, j, Join(b, s, c));
    PairKeys(n, j, b, s, c);
    JoinKeys(b, s, c);
  }

  lemma MergedOrdered(n: BNode, j: nat, lo: Option<int>, hi: Option<int>)
    requires Ordered(n, lo, hi) && !IsLeaf(n) && j + 1 < |n.children|
    requires IsLeaf(n.children[j]) == IsLeaf(n.children[j + 1])
    ensures Ordered(BNode(n.values[..j] + n.values[j + 1..], n.children[..j] + [Join(n.children[j], n.values[j], n.children[j + 1])] + n.children[j + 2..]), lo, hi)
  {
    Neighbours(n, j, lo, hi);
    var b, c, s := n.children[j], n.children[j + 1], n.values[j];
    JoinOrdered(b, s, c, LoOf(n, j, lo), HiOf(n, j + 1, hi));
    MergeOrdered(n, j, Join(b, s, c), lo, hi);
  }

  // ---------------------------------------------------------------------------
  // Deletion keeps the values, the order and the leaf depth
  // ---------------------------------------------------------------------------

  /** One `_fill_node` keeps the values, the order and the leaf depth. */
  lemma FillKeeps(n: BNode, k: nat, m: nat, lo: Option<int>, hi: Option<int>, h: nat)
    requires m >= 1 && Ordered(n, lo, hi) && Uniform(n, h) && !IsLeaf(n) && k < |n.children|
    requires !(k == 0 && |n.children| == 1)
    ensures Fill(n, k, m).Some?
    ensures Keys(Fill(n, k, m).value) == Keys(n)
    ensures Ordered(Fill(n, k, m).value, lo, hi) && Uniform(Fill(n, k, m).value, h)
  {
    if k + 1 < |n.children| {
      if |n.children[k + 1].values| > Threshold(m) {
        BorrowRightOrdered(n, k, lo, hi, h);
        BorrowRightKeys(n, k, lo, hi);
        BorrowRightUniform(n, k, lo, hi, h);
      } else {
        MergeRightKeeps(n, k, lo, hi, h);
      }
    } else if |n.children[k - 1].values| > Threshold(m) {
      BorrowLeftOrdered(n, k, lo, hi, h);
      BorrowLeftKeys(n, k, lo, hi);
      BorrowLeftUniform(n, k, lo, hi, h);
    } else {
      MergeLeftKeeps(n, k, lo, hi, h);
    }
  }

  /** The fill scan keeps the values, the order and the leaf depth whenever it succeeds. */
  lemma {:induction false} FillFromKeeps(n: BNode, m: nat, k: nat, lo: Option<int>, hi: Option<int>, h: nat)
    requires m >= 1 && Ordered(n, lo, hi) && Uniform(n, h)
    ensures FillFrom(n, m, k).Some? ==> Keeps(n, FillFrom(n, m, k).value, lo, hi, h)
    decreases |n.children| - k, 1
  {
    if k >= |n.children| {
      assert Keeps(n, n, lo, hi, h);
    } else if |n.children[k].values| >= Threshold(m) {
      FillFromKeeps(n, m, k + 1, lo, hi, h);
      FillFromSkip(n, m, k, lo, hi, h);
    } else if !(k == 0 && |n.children| == 1) {
      FillFromShortKeeps(n, m, k, lo, hi, h);
    } else {
      FillFromUnfold(n, m, k);
    }
  }

  /** The scan keeps the tree when it fills the short `k`-th child and goes on. */
  lemma {:induction false} FillFromShortKeeps(n: BNode, m: nat, k: nat, lo: Option<int>, hi: Option<int>, h: nat)
    requires m >= 1 && Ordered(n, lo, hi) && Uniform(n, h) && !IsLeaf(n) && k < |n.children|
    requires |n.children[k].values| < Threshold(m) && !(k == 0 && |n.children| == 1)
    ensures FillFrom(n, m, k).Some? ==> Keeps(n, FillFrom(n, m, k).value, lo, hi, h)
    decreases |n.children| - k, 0
  {
    FillKeeps(n, k, m, lo, hi, h);
    FillFromKeeps(Fill(n, k, m).value, m, k + 1, lo, hi, h);
    FillFromShort(n, m, k, lo, hi, h);
  }

  /** The scan step past a child that is full enough. */
  lemma FillFromSkip(n: BNode, m: nat, k: nat, lo: Option<int>, hi: Option<int>, h: nat)
    requires m >= 1 && !IsLeaf(n) && |n.children| == |n.values| + 1 && k < |n.children|
    requires |n.children[k].values| >= Threshold(m)
    requires FillFrom(n, m, k + 1).Some? ==> Keeps(n, FillFrom(n, m, k + 1).value, lo, hi, h)
    ensures FillFrom(n, m, k).Some? ==> Keeps(n, FillFrom(n, m, k).value, lo, hi, h)
  {
    FillFromUnfold(n, m, k);
  }

  /** The scan step that fills a short child. */
  lemma FillFromShort(n: BNode, m: nat, k: nat, lo: Option<int>, hi: Option<int>, h: nat)
    requires m >= 1 && !IsLeaf(n) && |n.children| == |n.values| + 1 && k < |n.children|
    requires |n.children[k].values| < Threshold(m) && !(k == 0 && |n.children| == 1)
    requires Fill(n, k, m).Some? && Keys(Fill(n, k, m).value) == Keys(n)
    requires var n2 := Fill(n, k, m).value;
             FillFrom(n2, m, k + 1).Some? ==> Keeps(n2, FillFrom(n2, m, k + 1).value, lo, hi, h)
    ensures FillFrom(n, m, k).Some? ==> Keeps(n, FillFrom(n, m, k).value, lo, hi, h)
  {
    FillFromUnfold(n, m, k);
    KeepsFrom(n, Fill(n, k, m).value, FillFrom(n, m, k), lo, hi, h);
  }

  /** `r` holds the values of `n`, in order between the bounds, with every leaf at depth `h`. */
  ghost predicate Keeps(n: BNode, r: BNode, lo: Option<int>, hi: Option<int>, h: nat)
  {
    Keys(r) == Keys(n) && Ordered(r, lo, hi) && Uniform(r, h)
  }

  /** A result kept from a node with the same values is kept from the first. */
  lemma KeepsFrom(n: BNode, n2: BNode, r: Option<BNode>, lo: Option<int>, hi: Option<int>, h: nat)
    requires Keys(n2) == Keys(n) && (r.Some? ==> Keeps(n2, r.value, lo, hi, h))
    ensures r.Some? ==> Keeps(n, r.value, lo, hi, h)
  {
  }

  /** One step of the scan: fill the `k`-th child if it is short, then go on at `k + 1`. */
  lemma FillFromUnfold(n: BNode, m: nat, k: nat)
    requires m >= 1 && !IsLeaf(n) && |n.children| == |n.values| + 1 && k < |n.children|
    ensures |n.children[k].values| >= Threshold(m) ==> FillFrom(n, m, k) == FillFrom(n, m, k + 1)
    ensures |n.children[k].values| < Threshold(m) && k == 0 && |n.children| == 1 ==> FillFrom(n, m, k).None?
    ensures |n.children[k].values| < Threshold(m) && !(k == 0 && |n.children| == 1) ==>
              FillFrom(n, m, k) == FillFrom(Fill(n, k, m).value, m, k + 1)
  {
  }

  /** The first value of the leftmost leaf is the least value of the subtree. */
  lemma {:induction false} LeftLeafMin(n: BNode, lo: Option<int>, hi: Option<int>)
    requires Ordered(n, lo, hi) && LeftLeaf(n).values != []
    ensures LeftLeaf(n).values[0] in Keys(n)
    ensures forall x :: x in Keys(n) ==> LeftLeaf(n).values[0] <= x
    decreases n
  {
    var w := LeftLeaf(n).values[0];
    if IsLeaf(n) {
      assert w in Elems(n.values);
      assert ChildKeys(n.children) == {};
      forall x | x in Keys(n) ensures w <= x {
        assert x in n.values;
      }
    } else {
      var c := n.children[0];
      LeftLeafMin(c, lo, HiOf(n, 0, hi));
      OrderedBounds(c, lo, HiOf(n, 0, hi));
      ChildKeysAt(n.children, w);
      forall x | x in Keys(n) ensures w <= x {
        if x in Elems(n.values) {
          assert x in n.values;
        } else {
          ChildKeysAt(n.children, x);
          var i :| 0 <= i < |n.children| && x in Keys(n.children[i]);
          if i > 0 {
            OrderedBounds(n.children[i], LoOf(n, i, lo), HiOf(n, i, hi));
          }
        }
      }
    }
  }

  /** Removing the value at `k` from sorted values removes just that value. */
  lemma ElemsRemove(vs: seq<int>, k: nat)
    requires Sorted(vs) && k < |vs|
    ensures Elems(vs[..k] + vs[k + 1..]) == Elems(vs) - {vs[k]}
  {
    var r := vs[..k] + vs[k + 1..];
    assert forall i :: 0 <= i < |r| ==> r[i] == if i < k then vs[i] else vs[i + 1];
    forall x | x in Elems(vs) && x != vs[k] ensures x in Elems(r) {
      var j :| 0 <= j < |vs| && vs[j] == x;
      if j < k {
        assert r[j] == x;
      } else {
        assert r[j - 1] == x;
      }
    }
  }

  /** Replacing the value at `k` of sorted values. */
  lemma ElemsReplace(vs: seq<int>, k: nat, t: int)
    requires Sorted(vs) && k < |vs|
    ensures Elems(vs[k := t]) == Elems(vs) - {vs[k]} + {t}
  {
    var r := vs[k := t];
    assert r[k] == t;
    forall x | x in Elems(vs) && x != vs[k] ensures x in Elems(r) {
      var j :| 0 <= j < |vs| && vs[j] == x;
      assert r[j] == x;
    }
    forall x | x in Elems(r) && x != t ensures x in Elems(vs) && x != vs[k] {
      var j :| 0 <= j < |r| && r[j] == x;
      assert j != k && vs[j] == x;
      assert j < k || k < j;
    }
  }

  /** A sorted run misses a value whose slot does not hold it. */
  lemma SlotMisses(vs: seq<int>, v: int)
    requires Sorted(vs)
    requires var k := Slot(vs, v); !(k < |vs| && vs[k] == v)
    ensures v !in Elems(vs)
  {
    var k := Slot(vs, v);
    forall j | 0 <= j < |vs| ensures vs[j] != v {
      if k <= j {
        assert vs[k] <= vs[j];
      }
    }
  }

  /** Only the child `__delete_node` goes down to can hold `v`. */
  lemma DescentOnly(n: BNode, v: int, lo: Option<int>, hi: Option<int>, j: nat)
    requires Ordered(n, lo, hi) && !IsLeaf(n)
    requires var k := Slot(n.values, v); !(k < |n.values| && n.values[k] == v)
    requires j < |n.children| && j != Descent(n, v)
    ensures v !in Keys(n.children[j])
  {
    var i := Descent(n, v);
    OrderedBounds(n.children[j], LoOf(n, j, lo), HiOf(n, j, hi));
    if j > i {
      assert n.values[i] <= n.values[j - 1];
    }
  }

  /** Dropping `v` from one part of a union that no other part holds. */
  lemma DropOne(e: set<int>, p: set<int>, a: set<int>, s: set<int>, v: int)
    requires v !in e && v !in p && v !in s
    ensures e + (p + (a - {v}) + s) == e + (p + a + s) - {v}
  {
  }

  /** Going down: deleting `v` from the child deletes it from the node. */
  lemma DescentKeys(n: BNode, v: int, c: BNode, lo: Option<int>, hi: Option<int>)
    requires Ordered(n, lo, hi) && !IsLeaf(n)
    requires var k := Slot(n.values, v); !(k < |n.values| && n.values[k] == v)
    requires Keys(c) == Keys(n.children[Descent(n, v)]) - {v}
    ensures Keys(n.(children := n.children[Descent(n, v) := c])) == Keys(n) - {v}
  {
    var i := Descent(n, v);
    var cs := n.children;
    SlotMisses(n.values, v);
    ChildKeysUpdate(cs, i, c);
    var pre, suf := cs[..i], cs[i + 1..];
    forall j | 0 <= j < |pre| ensures v !in Keys(pre[j]) {
      DescentOnly(n, v, lo, hi, j);
    }
    ChildKeysAt(pre, v);
    forall j | 0 <= j < |suf| ensures v !in Keys(suf[j]) {
      DescentOnly(n, v, lo, hi, i + 1 + j);
    }
    ChildKeysAt(suf, v);
    DropOne(Elems(n.values), ChildKeys(pre), Keys(cs[i]), ChildKeys(suf), v);
  }

  /** Replacing a value by its successor and dropping the successor from the next child. */
  lemma SwapOne(e: set<int>, p: set<int>, a: set<int>, s: set<int>, v: int, w: int)
    requires w in a && w !in p && w !in s
    requires v !in p && v !in a && v !in s
    ensures e - {v} + {w} + (p + (a - {w}) + s) == e + (p + a + s) - {v}
  {
  }

  /** The value at `k` and its successor lie in no child but the one the successor comes from. */
  lemma SuccessorApart(n: BNode, k: nat, w: int, lo: Option<int>, hi: Option<int>, j: nat)
    requires Ordered(n, lo, hi) && !IsLeaf(n) && k < |n.values| && j < |n.children|
    requires w in Keys(n.children[k + 1])
    ensures n.values[k] !in Keys(n.children[j])
    ensures j != k + 1 ==> w !in Keys(n.children[j])
  {
    OrderedBounds(n.children[k + 1], Some(n.values[k]), HiOf(n, k + 1, hi));
    OrderedBounds(n.children[j], LoOf(n, j, lo), HiOf(n, j, hi));
    if j < k {
      assert n.values[j] < n.values[k];
    } else if j > k + 1 {
      assert n.values[k + 1] <= n.values[j - 1];
    }
  }

  /** Taking the successor's place: the node loses exactly the deleted value. */
  lemma SuccessorKeys(n: BNode, k: nat, w: int, c: BNode, lo: Option<int>, hi: Option<int>)
    requires Ordered(n, lo, hi) && !IsLeaf(n) && k < |n.values|
    requires w in Keys(n.children[k + 1]) && Keys(c) == Keys(n.children[k + 1]) - {w}
    ensures Keys(BNode(n.values[k := w], n.children[k + 1 := c])) == Keys(n) - {n.values[k]}
  {
    SuccessorOutside(n, k, w, lo, hi, 0, k + 1);
    SuccessorOutside(n, k, w, lo, hi, k + 2, |n.children|);
    assert n.children[0..k + 1] == n.children[..k + 1];
    assert n.children[k + 2..|n.children|] == n.children[k + 2..];
    SuccessorApart(n, k, w, lo, hi, k + 1);
    SwapKeys(n, k, w, c);
  }

  /** Neither the value at `k` nor its successor lies below the children `from` to `to`, child `k + 1` excepted. */
  lemma SuccessorOutside(n: BNode, k: nat, w: int, lo: Option<int>, hi: Option<int>, from: nat, to: nat)
    requires Ordered(n, lo, hi) && !IsLeaf(n) && k < |n.values|
    requires w in Keys(n.children[k + 1])
    requires from <= to <= |n.children| && (to <= k + 1 || k + 1 < from)
    ensures n.values[k] !in ChildKeys(n.children[from..to]) && w !in ChildKeys(n.children[from..to])
  {
    var cs := n.children[from..to];
    forall j | 0 <= j < |cs| ensures n.values[k] !in Keys(cs[j]) && w !in Keys(cs[j]) {
      SuccessorApart(n, k, w, lo, hi, from + j);
    }
    ChildKeysAt(cs, n.values[k]);
    ChildKeysAt(cs, w);
  }

  /** The successor `w` of the value at `k` replaces it, and leaves child `k + 1`: the node loses exactly that value. */
  lemma SwapKeys(n: BNode, k: nat, w: int, c: BNode)
    requires Sorted(n.values) && k < |n.values| && k + 1 < |n.children|
    requires w in Keys(n.children[k + 1]) && Keys(c) == Keys(n.children[k + 1]) - {w}
    requires n.values[k] !in ChildKeys(n.children[..k + 1]) && w !in ChildKeys(n.children[..k + 1])
    requires n.values[k] !in ChildKeys(n.children[k + 2..]) && w !in ChildKeys(n.children[k + 2..])
    requires n.values[k] !in Keys(n.children[k + 1])
    ensures Keys(BNode(n.values[k := w], n.children[k + 1 := c])) == Keys(n) - {n.values[k]}
  {
    var cs := n.children;
    ElemsReplace(n.values, k, w);
    ChildKeysUpdate(cs, k + 1, c);
    SwapOne(Elems(n.values), ChildKeys(cs[..k + 1]), Keys(cs[k + 1]), ChildKeys(cs[k + 2..]), n.values[k], w);
  }

  /** Each child of the node after the successor took the deleted value's place is ordered. */
  lemma SuccessorChild(n: BNode, k: nat, w: int, c: BNode, lo: Option<int>, hi: Option<int>, i: nat)
    requires Ordered(n, lo, hi) && !IsLeaf(n) && k < |n.values| && i < |n.children|
    requires Gt(w, Some(n.values[k])) && Lt(w, HiOf(n, k + 1, hi))
    requires forall x :: x in Keys(c) ==> w < x
    requires Ordered(c, Some(n.values[k]), HiOf(n, k + 1, hi))
    ensures var r := BNode(n.values[k := w], n.children[k + 1 := c]);
            Ordered(r.children[i], LoOf(r, i, lo), HiOf(r, i, hi))
  {
    var r := BNode(n.values[k := w], n.children[k + 1 := c]);
    if i == k {
      OrderedBounds(n.children[k], LoOf(n, k, lo), Some(n.values[k]));
      Rebound(n.children[k], LoOf(n, k, lo), Some(n.values[k]), LoOf(r, k, lo), Some(w));
    } else if i == k + 1 {
      OrderedBounds(c, Some(n.values[k]), HiOf(n, k + 1, hi));
      Rebound(c, Some(n.values[k]), HiOf(n, k + 1, hi), Some(w), HiOf(r, k + 1, hi));
    } else {
      assert LoOf(r, i, lo) == LoOf(n, i, lo) && HiOf(r, i, hi) == HiOf(n, i, hi);
    }
  }

  /** Taking the successor's place keeps the node ordered. */
  lemma SuccessorOrdered(n: BNode, k: nat, w: int, c: BNode, lo: Option<int>, hi: Option<int>)
    requires Ordered(n, lo, hi) && !IsLeaf(n) && k < |n.values|
    requires w in Keys(n.children[k + 1]) && Ordered(c, Some(n.values[k]), HiOf(n, k + 1, hi))
    requires forall x :: x in Keys(c) ==> w < x
    ensures Ordered(BNode(n.values[k := w], n.children[k + 1 := c]), lo, hi)
  {
    var r := BNode(n.values[k := w], n.children[k + 1 := c]);
    OrderedBounds(n.children[k + 1], Some(n.values[k]), HiOf(n, k + 1, hi));
    assert k > 0 ==> n.values[k - 1] < n.values[k];
    ReplaceSorted(n.values, k, w);
    forall j | 0 <= j < |r.values| ensures Gt(r.values[j], lo) && Lt(r.values[j], hi) {
      if j == k && k + 1 < |n.values| {
        assert Lt(n.values[k + 1], hi);
      }
    }
    forall i | 0 <= i < |r.children| ensures Ordered(r.children[i], LoOf(r, i, lo), HiOf(r, i, hi)) {
      SuccessorChild(n, k, w, c, lo, hi, i);
    }
  }

  /** Going down into the child, then filling, removes `v` from the node. */
  lemma DescentStep(n: BNode, v: int, m: nat, lo: Option<int>, hi: Option<int>, h: nat, d: BNode)
    requires m >= 1 && Ordered(n, lo, hi) && Uniform(n, h) && !IsLeaf(n)
    requires var k := Slot(n.values, v); !(k < |n.values| && n.values[k] == v)
    requires var i := Descent(n, v);
             Keys(d) == Keys(n.children[i]) - {v} && Ordered(d, LoOf(n, i, lo), HiOf(n, i, hi)) && Uniform(d, h - 1)
    ensures var r := FillFrom(n.(children := n.children[Descent(n, v) := d]), m, 0);
            r.Some? ==> Keys(r.value) == Keys(n) - {v} && Ordered(r.value, lo, hi) && Uniform(r.value, h)
  {
    var i := Descent(n, v);
    DescentKeys(n, v, d, lo, hi);
    ReplaceChildOrdered(n, i, d, lo, hi);
    var n2 := n.(children := n.children[i := d]);
    assert Uniform(n2, h);
    FillFromKeeps(n2, m, 0, lo, hi, h);
  }

  /** Putting the successor in the deleted value's place, then filling, removes that value from the node. */
  lemma SuccessorStep(n: BNode, k: nat, m: nat, lo: Option<int>, hi: Option<int>, h: nat, d: BNode)
    requires m >= 1 && Ordered(n, lo, hi) && Uniform(n, h) && !IsLeaf(n) && k < |n.values|
    requires LeftLeaf(n.children[k + 1]).values != []
    requires var w := LeftLeaf(n.children[k + 1]).values[0];
             Keys(d) == Keys(n.children[k + 1]) - {w} && Ordered(d, Some(n.values[k]), HiOf(n, k + 1, hi)) && Uniform(d, h - 1)
    ensures var w := LeftLeaf(n.children[k + 1]).values[0];
            var r := FillFrom(BNode(n.values[k := w], n.children[k + 1 := d]), m, 0);
            r.Some? ==> Keys(r.value) == Keys(n) - {n.values[k]} && Ordered(r.value, lo, hi) && Uniform(r.value, h)
  {
    var child := n.children[k + 1];
    var w := LeftLeaf(child).values[0];
    LeftLeafMin(child, Some(n.values[k]), HiOf(n, k + 1, hi));
    assert forall x :: x in Keys(d) ==> w < x;
    SuccessorKeys(n, k, w, d, lo, hi);
    SuccessorOrdered(n, k, w, d, lo, hi);
    var n2 := BNode(n.values[k := w], n.children[k + 1 := d]);
    assert Uniform(n2, h);
    FillFromKeeps(n2, m, 0, lo, hi, h);
  }

  /** A leaf loses `v` and keeps its order. */
  lemma LeafStep(n: BNode, v: int, lo: Option<int>, hi: Option<int>)
    requires Ordered(n, lo, hi) && IsLeaf(n)
    ensures var k := IndexOf(n.values, v);
            var r := if k < |n.values| then BNode(n.values[..k] + n.values[k + 1..], []) else n;
            Keys(r) == Keys(n) - {v} && Ordered(r, lo, hi)
  {
    var k := IndexOf(n.values, v);
    if k < |n.values| {
      var r := n.values[..k] + n.values[k + 1..];
      ElemsRemove(n.values, k);
      RemoveSorted(n.values, k);
      forall j | 0 <= j < |r| ensures Gt(r[j], lo) && Lt(r[j], hi) {
        assert r[j] == if j < k then n.values[j] else n.values[j + 1];
      }
    } else {
      assert v !in Elems(n.values);
    }
  }

  /** `__delete_node` removes exactly `v` and keeps the order and the leaf depth whenever it succeeds. */
  lemma {:induction false} DeleteKeeps(n: BNode, v: int, m: nat, lo: Option<int>, hi: Option<int>, h: nat)
    requires m >= 1 && Ordered(n, lo, hi) && Uniform(n, h)
    ensures Shaped(n)
    ensures var r := DeleteNode(n, v, m);
            r.Some? ==> Keys(r.value) == Keys(n) - {v} && Ordered(r.value, lo, hi) && Uniform(r.value, h)
    decreases n, 1
  {
    OrderedShaped(n, lo, hi);
    if IsLeaf(n) {
      LeafStep(n, v, lo, hi);
    } else {
      var k := Slot(n.values, v);
      if k < |n.values| && n.values[k] == v {
        DeleteHere(n, v, m, lo, hi, h);
      } else {
        DeleteBelow(n, v, m, lo, hi, h);
      }
    }
  }

  /** Deleting a value an internal node holds, through its successor. */
  lemma {:induction false} DeleteHere(n: BNode, v: int, m: nat, lo: Option<int>, hi: Option<int>, h: nat)
    requires m >= 1 && Ordered(n, lo, hi) && Uniform(n, h) && Shaped(n) && !IsLeaf(n)
    requires var k := Slot(n.values, v); k < |n.values| && n.values[k] == v
    ensures var r := DeleteNode(n, v, m);
            r.Some? ==> Keys(r.value) == Keys(n) - {v} && Ordered(r.value, lo, hi) && Uniform(r.value, h)
    decreases n, 0
  {
    var k := Slot(n.values, v);
    var child := n.children[k + 1];
    var after := LeftLeaf(child);
    if after.values != [] {
      var w := after.values[0];
      DeleteKeeps(child, w, m, Some(n.values[k]), HiOf(n, k + 1, hi), h - 1);
      var d := DeleteNode(child, w, m);
      if d.Some? {
        SuccessorStep(n, k, m, lo, hi, h, d.value);
      }
    }
  }

  /** Deleting a value an internal node does not hold, in the child it would lie in. */
  lemma {:induction false} DeleteBelow(n: BNode, v: int, m: nat, lo: Option<int>, hi: Option<int>, h: nat)
    requires m >= 1 && Ordered(n, lo, hi) && Uniform(n, h) && Shaped(n) && !IsLeaf(n)
    requires var k := Slot(n.values, v); !(k < |n.values| && n.values[k] == v)
    ensures var r := DeleteNode(n, v, m);
            r.Some? ==> Keys(r.value) == Keys(n) - {v} && Ordered(r.value, lo, hi) && Uniform(r.value, h)
    decreases n, 0
  {
    var i := Descent(n, v);
    DeleteKeeps(n.children[i], v, m, LoOf(n, i, lo), HiOf(n, i, hi), h - 1);
    var d := DeleteNode(n.children[i], v, m);
    if d.Some? {
      DescentStep(n, v, m, lo, hi, h, d.value);
    }
  }

  // ---------------------------------------------------------------------------
  // Deletion keeps every node under the order
  // ---------------------------------------------------------------------------

  /** Borrowing from the right brother: the child gains one value and stays under `m`. */
  lemma BorrowRightUnder(n: BNode, k: nat, m: nat)
    requires |n.children| == |n.values| + 1 && k + 1 < |n.children| && |n.children[k + 1].values| > 0
    requires AllUnder(n, m) && |n.children[k].values| + 1 < m
    ensures AllUnder(BorrowRight(n, k), m)
  {
    var c, b := n.children[k], n.children[k + 1];
    var c2 := BNode(AddVal(c.values, n.values[k]), if IsLeaf(b) then c.children else c.children + [b.children[0]]);
    var b2 := BNode(b.values[1..], if IsLeaf(b) then b.children else b.children[1..]);
    assert AllUnder(c2, m) by {
      assert forall i :: 0 <= i < |c2.children| ==> c2.children[i] == if i < |c.children| then c.children[i] else b.children[0];
    }
    if !IsLeaf(b) {
      assert forall i :: 0 <= i < |b2.children| ==> b2.children[i] == b.children[i + 1];
    }
  }

  /** Borrowing from the left brother: the child gains one value and stays under `m`. */
  lemma BorrowLeftUnder(n: BNode, k: nat, m: nat)
    requires |n.children| == |n.values| + 1 && 0 < k && k + 1 == |n.children| && |n.children[k - 1].values| > 0
    requires AllUnder(n, m) && |n.children[k].values| + 1 < m
    ensures AllUnder(BorrowLeft(n, k), m)
  {
    var c, b := n.children[k], n.children[k - 1];
    var c2 := BNode(AddVal(c.values, n.values[k - 1]), if IsLeaf(b) then c.children else [b.children[|b.children| - 1]] + c.children);
    var b2 := BNode(b.values[..|b.values| - 1], if IsLeaf(b) then b.children else b.children[..|b.children| - 1]);
    assert AllUnder(c2, m) by {
      assert forall i :: 0 <= i < |c2.children| ==> c2.children[i] == if IsLeaf(b) then c.children[i] else if i == 0 then b.children[|b.children| - 1] else c.children[i - 1];
    }
    assert AllUnder(b2, m) by {
      assert forall i :: 0 <= i < |b2.children| ==> b2.children[i] == b.children[i];
    }
  }

  /** The node two brothers and a value merge into. */
  lemma MergedUnder(c: BNode, b: BNode, s: int, m: nat, left: bool)
    requires AllUnder(c, m) && AllUnder(b, m) && |c.values| + |b.values| + 1 < m
    ensures AllUnder(BNode(AddVal(AddVals(b.values, c.values), s), if left then b.children + c.children else c.children + b.children), m)
  {
    var cs := if left then b.children + c.children else c.children + b.children;
    forall i | 0 <= i < |cs| ensures AllUnder(cs[i], m) {
      if left {
        assert cs[i] == if i < |b.children| then b.children[i] else c.children[i - |b.children|];
      } else {
        assert cs[i] == if i < |c.children| then c.children[i] else b.children[i - |c.children|];
      }
    }
  }

  /** Merging into the right brother: the merged node stays under `m`. */
  lemma MergeRightUnder(n: BNode, k: nat, m: nat)
    requires |n.children| == |n.values| + 1 && k + 1 < |n.children|
    requires AllUnder(n, m) && |n.children[k].values| + |n.children[k + 1].values| + 1 < m
    ensures AllUnder(MergeRight(n, k), m)
  {
    var c, b := n.children[k], n.children[k + 1];
    MergedUnder(c, b, n.values[k], m, false);
    var r := MergeRight(n, k);
    forall i | 0 <= i < |r.children| ensures AllUnder(r.children[i], m) {
      if i < k {
        assert r.children[i] == n.children[i];
      } else if i > k {
        assert r.children[i] == n.children[i + 1];
      }
    }
  }

  /** Merging into the left brother: the merged node stays under `m`. */
  lemma MergeLeftUnder(n: BNode, k: nat, m: nat)
    requires |n.children| == |n.values| + 1 && 0 < k && k + 1 == |n.children|
    requires AllUnder(n, m) && |n.children[k].values| + |n.children[k - 1].values| + 1 < m
    ensures AllUnder(MergeLeft(n, k), m)
  {
    var c, b := n.children[k], n.children[k - 1];
    MergedUnder(c, b, n.values[k - 1], m, true);
    var r := MergeLeft(n, k);
    forall i | 0 <= i < |r.children| ensures AllUnder(r.children[i], m) {
      if i < k - 1 {
        assert r.children[i] == n.children[i];
      }
    }
  }

  /**
   * A fill of a child below `ceil(m/2) - 1` values keeps every node under
   * `m`: a borrow leaves the child at most at the threshold, and a merge
   * gathers at most twice the threshold values.
   */
  lemma FillUnder(n: BNode, k: nat, m: nat)
    requires m >= 1 && |n.children| == |n.values| + 1 && k < |n.children| && !(k == 0 && |n.children| == 1)
    requires AllUnder(n, m) && |n.children[k].values| < Threshold(m)
    ensures AllUnder(Fill(n, k, m).value, m)
  {
    assert 2 * Threshold(m) < m;
    if k + 1 < |n.children| {
      if |n.children[k + 1].values| > Threshold(m) {
        BorrowRightUnder(n, k, m);
      } else {
        MergeRightUnder(n, k, m);
      }
    } else if |n.children[k - 1].values| > Threshold(m) {
      BorrowLeftUnder(n, k, m);
    } else {
      MergeLeftUnder(n, k, m);
    }
  }

  /** The fill scan keeps every node under `m`. */
  lemma {:induction false} FillFromUnder(n: BNode, m: nat, k: nat)
    requires m >= 1 && (IsLeaf(n) || |n.children| == |n.values| + 1) && AllUnder(n, m)
    ensures FillFrom(n, m, k).Some? ==> AllUnder(FillFrom(n, m, k).value, m)
    decreases |n.children| - k
  {
    if k < |n.children| {
      if |n.children[k].values| < Threshold(m) {
        if !(k == 0 && |n.children| == 1) {
          FillUnder(n, k, m);
          FillFromUnder(Fill(n, k, m).value, m, k + 1);
        }
      } else {
        FillFromUnder(n, m, k + 1);
      }
    }
  }

  /** `__delete_node` keeps every node under `m` whenever it succeeds. */
  lemma {:induction false} DeleteUnder(n: BNode, v: int, m: nat)
    requires m >= 1 && Shaped(n) && AllUnder(n, m)
    ensures DeleteNode(n, v, m).Some? ==> AllUnder(DeleteNode(n, v, m).value, m)
    decreases n
  {
    if !IsLeaf(n) {
      var k := Slot(n.values, v);
      if k < |n.values| && n.values[k] == v {
        var child := n.children[k + 1];
        var after := LeftLeaf(child);
        if after.values != [] {
          var w := after.values[0];
          DeleteUnder(child, w, m);
          var d := DeleteNode(child, w, m);
          if d.Some? {
            var n2 := BNode(n.values[k := w], n.children[k + 1 := d.value]);
            assert AllUnder(n2, m) by {
              assert forall i :: 0 <= i < |n2.children| && i != k + 1 ==> n2.children[i] == n.children[i];
            }
            FillFromUnder(n2, m, 0);
          }
        }
      } else {
        var i := Descent(n, v);
        DeleteUnder(n.children[i], v, m);
        var d := DeleteNode(n.children[i], v, m);
        if d.Some? {
          var n2 := n.(children := n.children[i := d.value]);
          assert AllUnder(n2, m) by {
            assert forall j :: 0 <= j < |n2.children| && j != i ==> n2.children[j] == n.children[j];
          }
          FillFromUnder(n2, m, 0);
        }
      }
    }
  }

  /** Every node of the subtree holds at least one value. */
  ghost predicate Stocked(n: BNode)
  {
    |n.values| > 0 && forall i :: 0 <= i < |n.children| ==> Stocked(n.children[i])
  }

  /** The scan of fills can only fail at its first child, when that child is the node's only one. */
  lemma {:induction false} FillFromSucceeds(n: BNode, m: nat, k: nat)
    requires m >= 1 && (IsLeaf(n) || |n.children| == |n.values| + 1)
    requires k > 0 || |n.children| != 1
    ensures FillFrom(n, m, k).Some?
    decreases |n.children| - k
  {
    if k < |n.children| {
      if |n.children[k].values| < Threshold(m) {
        FillFromSucceeds(Fill(n, k, m).value, m, k + 1);
      } else {
        FillFromSucceeds(n, m, k + 1);
      }
    }
  }

  /** The leftmost leaf of a stocked subtree has a first value to lend as successor. */
  lemma {:induction false} StockedLeftLeaf(n: BNode)
    requires Stocked(n)
    ensures LeftLeaf(n).values != []
  {
    if !IsLeaf(n) {
      StockedLeftLeaf(n.children[0]);
    }
  }

  /**
   * `__delete_node` succeeds on a leaf, and on any subtree whose nodes all
   * hold a value: there the successor leaf is never empty and no fill meets
   * a lone child.
   */
  lemma {:induction false} DeleteSucceeds(n: BNode, v: int, m: nat)
    requires m >= 1 && Shaped(n)
    requires IsLeaf(n) || Stocked(n)
    ensures DeleteNode(n, v, m).Some?
    decreases n, 1
  {
    if !IsLeaf(n) {
      var k := Slot(n.values, v);
      if k < |n.values| && n.values[k] == v {
        DeleteHereSucceeds(n, v, m);
      } else {
        DeleteBelowSucceeds(n, v, m);
      }
    }
  }

  /** Deleting a value an internal node holds succeeds when the successor leaf has a value. */
  lemma {:induction false} DeleteHereSucceeds(n: BNode, v: int, m: nat)
    requires m >= 1 && Shaped(n) && Stocked(n) && !IsLeaf(n)
    requires var k := Slot(n.values, v); k < |n.values| && n.values[k] == v
    ensures DeleteNode(n, v, m).Some?
    decreases n, 0
  {
    var k := Slot(n.values, v);
    var child := n.children[k + 1];
    StockedLeftLeaf(child);
    var w := LeftLeaf(child).values[0];
    DeleteSucceeds(child, w, m);
    var d := DeleteNode(child, w, m);
    FillFromSucceeds(BNode(n.values[k := w], n.children[k + 1 := d.value]), m, 0);
  }

  /** Deleting a value an internal node does not hold succeeds in the child it would lie in. */
  lemma {:induction false} DeleteBelowSucceeds(n: BNode, v: int, m: nat)
    requires m >= 1 && Shaped(n) && Stocked(n) && !IsLeaf(n)
    requires var k := Slot(n.values, v); !(k < |n.values| && n.values[k] == v)
    ensures DeleteNode(n, v, m).Some?
    decreases n, 0
  {
    var i := Descent(n, v);
    DeleteSucceeds(n.children[i], v, m);
    var d := DeleteNode(n.children[i], v, m);
    FillFromSucceeds(n.(children := n.children[i := d.value]), m, 0);
  }

  // ---------------------------------------------------------------------------
  // In-order listing is sorted and lists every value
  // ---------------------------------------------------------------------------

  /** Every value of `s` lies above `lo` and below `hi`. */
  ghost predicate Within(s: seq<int>, lo: Option<int>, hi: Option<int>)
  {
    forall i :: 0 <= i < |s| ==> Gt(s[i], lo) && Lt(s[i], hi)
  }

  /** Every value of `s` lies above `lo` and at most at `top`. */
  ghost predicate UpTo(s: seq<int>, lo: Option<int>, top: Option<int>)
  {
    (top.None? ==> s == []) && forall i :: 0 <= i < |s| ==> Gt(s[i], lo) && s[i] <= top.value
  }

  /** `lo` is no bound at all, or at most `l`. */
  predicate NotAbove(lo: Option<int>, l: Option<int>)
  {
    lo.None? || (l.Some? && lo.value <= l.value)
  }

  /** Two sorted runs with a value between them. */
  lemma SortedCat(a: seq<int>, b: seq<int>, x: int)
    requires Sorted(a) && Sorted(b)
    requires forall i :: 0 <= i < |a| ==> a[i] <= x
    requires forall j :: 0 <= j < |b| ==> x < b[j]
    ensures Sorted(a + b)
  {
    var ab := a + b;
    forall i, j | 0 <= i < j < |ab| ensures ab[i] < ab[j] {
      if j < |a| {
        assert ab[i] == a[i] && ab[j] == a[j];
      } else if i < |a| {
        assert ab[i] == a[i] && ab[j] == b[j - |a|];
      } else {
        assert ab[i] == b[i - |a|] && ab[j] == b[j - |a|];
      }
    }
  }

  lemma ElemsCat(a: seq<int>, b: seq<int>)
    ensures Elems(a + b) == Elems(a) + Elems(b)
  {
  }

  /** One step of the in-order listing: the listing so far, a child's listing, the value after it. */
  lemma ListStep(a: seq<int>, b: seq<int>, v: int, lo: Option<int>, l: Option<int>)
    requires Sorted(a) && Sorted(b) && UpTo(a, lo, l) && NotAbove(lo, l)
    requires Within(b, l, Some(v)) && Gt(v, l)
    ensures Sorted(a + b + [v]) && UpTo(a + b + [v], lo, Some(v))
  {
    ListLast(a, b, lo, l, Some(v));
    var ab := a + b;
    forall i | 0 <= i < |ab| ensures ab[i] <= v - 1 {
    }
    SortedCat(ab, [v], v - 1);
    var abv := ab + [v];
    forall i | 0 <= i < |abv| ensures Gt(abv[i], lo) && abv[i] <= v {
      if i < |ab| {
        assert abv[i] == ab[i];
      } else {
        assert Gt(v, lo) by {
          if a != [] {
            assert Gt(a[0], lo);
          }
        }
      }
    }
  }

  /** The last step of the in-order listing: the listing so far and the last child's listing. */
  lemma ListLast(a: seq<int>, b: seq<int>, lo: Option<int>, l: Option<int>, hi: Option<int>)
    requires Sorted(a) && Sorted(b) && UpTo(a, lo, l) && NotAbove(lo, l)
    requires Within(b, l, hi) && (a != [] ==> Lt(l.value, hi))
    ensures Sorted(a + b) && Within(a + b, lo, hi)
  {
    if a == [] {
      assert a + b == b;
    } else {
      SortedCat(a, b, l.value);
    }
  }

  /** The listing of the first `k` children and values is sorted, up to the `k`-th value. */
  lemma {:induction false} FlattenUpToSorted(n: BNode, k: nat, lo: Option<int>, hi: Option<int>)
    requires Ordered(n, lo, hi) && k <= |n.values|
    ensures Shaped(n)
    ensures Sorted(FlattenUpTo(n, k)) && UpTo(FlattenUpTo(n, k), lo, if k == 0 then None else Some(n.values[k - 1]))
    decreases n, 0, k
  {
    OrderedShaped(n, lo, hi);
    if k > 0 {
      FlattenUpToSorted(n, k - 1, lo, hi);
      if !IsLeaf(n) {
        FlattenSorted(n.children[k - 1], LoOf(n, k - 1, lo), HiOf(n, k - 1, hi));
      }
      FlattenUpToStep(n, k, lo, hi);
    }
  }

  /** One step of the listing: the part before the `k`-th value, its child's listing, then the value. */
  lemma FlattenUpToStep(n: BNode, k: nat, lo: Option<int>, hi: Option<int>)
    requires Ordered(n, lo, hi) && Shaped(n) && 0 < k <= |n.values|
    requires Sorted(FlattenUpTo(n, k - 1))
    requires UpTo(FlattenUpTo(n, k - 1), lo, if k - 1 == 0 then None else Some(n.values[k - 2]))
    requires !IsLeaf(n) ==> Sorted(Flatten(n.children[k - 1]))
    requires !IsLeaf(n) ==> Within(Flatten(n.children[k - 1]), LoOf(n, k - 1, lo), HiOf(n, k - 1, hi))
    ensures Sorted(FlattenUpTo(n, k)) && UpTo(FlattenUpTo(n, k), lo, Some(n.values[k - 1]))
  {
    var a := FlattenUpTo(n, k - 1);
    var b: seq<int> := if IsLeaf(n) then [] else Flatten(n.children[k - 1]);
    if IsLeaf(n) {
      assert Sorted(b) && Within(b, LoOf(n, k - 1, lo), HiOf(n, k - 1, hi));
    }
    ValueBounds(n, k, lo, hi, a);
    ListStep(a, b, n.values[k - 1], lo, LoOf(n, k - 1, lo));
    assert FlattenUpTo(n, k) == a + b + [n.values[k - 1]];
  }

  /** The bounds of the `k`-th value of an ordered node, and of the listing before it. */
  lemma ValueBounds(n: BNode, k: nat, lo: Option<int>, hi: Option<int>, a: seq<int>)
    requires Ordered(n, lo, hi) && 0 < k <= |n.values|
    requires UpTo(a, lo, if k - 1 == 0 then None else Some(n.values[k - 2]))
    ensures NotAbove(lo, LoOf(n, k - 1, lo)) && Gt(n.values[k - 1], LoOf(n, k - 1, lo))
    ensures HiOf(n, k - 1, hi) == Some(n.values[k - 1])
    ensures UpTo(a, lo, LoOf(n, k - 1, lo))
  {
    if k > 1 {
      assert n.values[k - 2] < n.values[k - 1] && Gt(n.values[k - 2], lo);
    }
  }

  /** `_mid_order` lists the tree's values in increasing order, within its bounds. */
  lemma {:induction false} FlattenSorted(n: BNode, lo: Option<int>, hi: Option<int>)
    requires Ordered(n, lo, hi)
    ensures Shaped(n)
    ensures Sorted(Flatten(n)) && Within(Flatten(n), lo, hi)
    decreases n, 1
  {
    OrderedShaped(n, lo, hi);
    var k := |n.values|;
    FlattenUpToSorted(n, k, lo, hi);
    var a := FlattenUpTo(n, k);
    var l := LoOf(n, k, lo);
    assert k > 0 ==> Gt(n.values[k - 1], lo) && Lt(n.values[k - 1], hi);
    if IsLeaf(n) {
      var e: seq<int> := [];
      ListLast(a, e, lo, l, hi);
      assert a + e == a;
    } else {
      FlattenSorted(n.children[k], l, hi);
      ListLast(a, Flatten(n.children[k]), lo, l, hi);
    }
  }

  /** The listing of the first `k` children and values holds exactly their values. */
  lemma {:induction false} FlattenUpToElems(n: BNode, k: nat)
    requires Shaped(n) && k <= |n.values|
    ensures Elems(FlattenUpTo(n, k)) == Elems(n.values[..k]) + (if IsLeaf(n) then {} else ChildKeys(n.children[..k]))
    decreases n, 0, k
  {
    if k > 0 {
      FlattenUpToElems(n, k - 1);
      var a := FlattenUpTo(n, k - 1);
      var v := n.values[k - 1];
      ElemsLast(n.values, k);
      if IsLeaf(n) {
        ElemsStep(a, [], v, Elems(n.values[..k - 1]), {});
      } else {
        var c := n.children[k - 1];
        FlattenElems(c);
        ChildKeysLast(n.children, k);
        ElemsStep(a, Flatten(c), v, Elems(n.values[..k - 1]) + ChildKeys(n.children[..k - 1]), Keys(c));
      }
    }
  }

  /** One step of an in-order listing: the values so far, a child's, and one more. */
  lemma ElemsStep(a: seq<int>, mid: seq<int>, v: int, sa: set<int>, sm: set<int>)
    requires Elems(a) == sa && Elems(mid) == sm
    ensures Elems(a + mid + [v]) == sa + sm + {v}
  {
    ElemsCat(a, mid);
    ElemsCat(a + mid, [v]);
  }

  lemma ElemsLast(vs: seq<int>, k: nat)
    requires 0 < k <= |vs|
    ensures Elems(vs[..k]) == Elems(vs[..k - 1]) + {vs[k - 1]}
  {
    assert vs[..k] == vs[..k - 1] + [vs[k - 1]];
    ElemsCat(vs[..k - 1], [vs[k - 1]]);
  }

  /** `_mid_order` lists every value of the tree and no other. */
  lemma {:induction false} FlattenElems(n: BNode)
    requires Shaped(n)
    ensures Elems(Flatten(n)) == Keys(n)
    decreases n, 1
  {
    var k := |n.values|;
    FlattenUpToElems(n, k);
    if !IsLeaf(n) {
      FlattenElems(n.children[k]);
    }
    FlattenElemsLast(n, k);
  }

  /** The last step of the listing: the last child's values after all the others. */
  lemma FlattenElemsLast(n: BNode, k: nat)
    requires Shaped(n) && k == |n.values|
    requires Elems(FlattenUpTo(n, k)) == Elems(n.values[..k]) + (if IsLeaf(n) then {} else ChildKeys(n.children[..k]))
    requires !IsLeaf(n) ==> Elems(Flatten(n.children[k])) == Keys(n.children[k])
    ensures Elems(Flatten(n)) == Keys(n)
  {
    var a := FlattenUpTo(n, k);
    TakeAll(n.values, k);
    if IsLeaf(n) {
      ElemsCat(a, []);
      assert ChildKeys(n.children) == {};
    } else {
      ElemsCat(a, Flatten(n.children[k]));
      ChildKeysSplitLast(n.children, k);
    }
  }

  lemma TakeAll<T>(s: seq<T>, k: nat)
    requires k == |s|
    ensures s[..k] == s
  {
  }

  /** The values below all children are those below the last one and the others. */
  lemma ChildKeysSplitLast(cs: seq<BNode>, k: nat)
    requires k + 1 == |cs|
    ensures ChildKeys(cs) == ChildKeys(cs[..k]) + Keys(cs[k])
  {
    ChildKeysLast(cs, k + 1);
    assert cs[..k + 1] == cs;
  }

  lemma SeqAssoc(a: seq<int>, b: seq<int>, c: seq<int>, d: seq<int>)
    ensures a + b + c + d == a + (b + c + d)
  {
  }

  /** The values below all children are those below the last one and the others. */
  lemma ChildKeysLast(cs: seq<BNode>, k: nat)
    requires 0 < k <= |cs|
    ensures ChildKeys(cs[..k]) == ChildKeys(cs[..k - 1]) + Keys(cs[k - 1])
  {
    assert cs[..k] == cs[..k - 1] + [cs[k - 1]];
    ChildKeysAppend(cs[..k - 1], [cs[k - 1]]);
    ChildKeysOne(cs[k - 1]);
  }

  /** `_mid_order(node, result)`: appends the listing of `n` to `acc`. */
  method MidOrder(n: BNode, acc: seq<int>) returns (out: seq<int>)
    requires Shaped(n)
    ensures out == acc + Flatten(n)
    decreases n, 1
  {
    out := acc;
    for k := 0 to |n.values|
      invariant out == acc + FlattenUpTo(n, k)
    {
      out := MidOrderChild(n, k, out);
      out := out + [n.values[k]];
      SeqAssoc(acc, FlattenUpTo(n, k), if IsLeaf(n) then [] else Flatten(n.children[k]), [n.values[k]]);
    }
    out := MidOrderChild(n, |n.values|, out);
    SeqAssoc(acc, FlattenUpTo(n, |n.values|), if IsLeaf(n) then [] else Flatten(n.children[|n.values|]), []);
  }

  /** The recursive call of `_mid_order` on child `i`, which a leaf does not make. */
  method MidOrderChild(n: BNode, i: nat, acc: seq<int>) returns (out: seq<int>)
    requires Shaped(n) && i <= |n.values|
    ensures out == acc + (if IsLeaf(n) then [] else Flatten(n.children[i]))
    decreases n, 0
  {
    out := acc;
    if !IsLeaf(n) {
      out := MidOrder(n.children[i], out);
    }
  }

  // ---------------------------------------------------------------------------
  // Search
  // ---------------------------------------------------------------------------

  /** The scan of `_search`: the first value not below `v` is its slot. */
  lemma {:induction false} SlotIs(vs: seq<int>, v: int, k: nat)
    requires k <= |vs| && (forall j :: 0 <= j < k ==> vs[j] < v) && (k < |vs| ==> v <= vs[k])
    ensures Slot(vs, v) == k
    decreases k
  {
    if k > 0 {
      SlotIs(vs[1..], v, k - 1);
    }
  }

  /** A value missing from an internal node's values is in the tree exactly when it is in the child `v` leads to. */
  lemma DescentFinds(n: BNode, v: int, lo: Option<int>, hi: Option<int>)
    requires Ordered(n, lo, hi) && !IsLeaf(n)
    requires var k := Slot(n.values, v); !(k < |n.values| && n.values[k] == v)
    ensures v in Keys(n) <==> v in Keys(n.children[Descent(n, v)])
  {
    var i := Descent(n, v);
    SlotMisses(n.values, v);
    ChildKeysAt(n.children, v);
    if v in ChildKeys(n.children) {
      var j :| 0 <= j < |n.children| && v in Keys(n.children[j]);
      if j != i {
        DescentOnly(n, v, lo, hi, j);
      }
    }
  }

  /** The outcome of `_delete`. */
  datatype Outcome = Done | AttributeError | IndexError

  /**
   * `BalanceTree`: a B-tree of order `m`. Its values are ordered, every leaf
   * lies at the same depth, and from order 3 up every node holds fewer than
   * `m` values (below that the root split needs more than two values).
   */
  class BalanceTree {
    /** `_m`: the order. */
    const m: nat
    /** `_root`. */
    var root: Option<BNode>
    /** The depth of every leaf. */
    ghost var height: nat

    ghost predicate Valid()
      reads this
    {
      m >= 1 &&
      (root.Some? ==> Ordered(root.value, None, None) && Uniform(root.value, height)) &&
      (root.Some? && m >= 3 ==> AllUnder(root.value, m))
    }

    /** The values the tree holds. */
    ghost function Contents(): set<int>
      reads this
    {
      if root.None? then {} else Keys(root.value)
    }

    constructor (order: nat)
      requires order >= 1
      ensures Valid() && m == order && root.None? && Contents() == {}
    {
      m := order;
      root := None;
      height := 0;
    }

    /** `_insert`: the tree gains `v`; a root that reached the order splits. */
    method Insert(v: int)
      requires Valid()
      modifies this
      ensures Valid()
      ensures Contents() == old(Contents()) + {v}
    {
      match root
      case None =>
        var leaf := BNode([v], []);
        assert Keys(leaf) == {v} by {
          assert Elems([v]) == {v};
        }
        root := Some(leaf);
        height := 0;
      case Some(n) =>
        OrderedShaped(n, None, None);
        var r := Put(n, v, m);
        PutKeys(n, v, m);
        PutOrdered(n, v, m, None, None);
        PutUniform(n, v, m, height);
        if m >= 3 {
          PutBounded(n, v, m);
        }
        if |r.values| >= m && |r.values| > 2 {
          SplitRootKeeps(r, None, None, height);
          if m >= 3 {
            SplitRootUnder(r, m);
          }
          root := Some(SplitRoot(r));
          height := height + 1;
        } else {
          root := Some(r);
        }
    }

    /** `_search`: `v` when the tree holds it, otherwise nothing. */
    method Search(v: int) returns (r: Option<int>)
      requires Valid()
      ensures r == if v in Contents() then Some(v) else None
    {
      var current := root;
      ghost var lo: Option<int>, hi: Option<int>, h := None, None, height;
      while current.Some?
        invariant current.Some? ==> Ordered(current.value, lo, hi) && Uniform(current.value, h)
        invariant current.Some? ==> (v in Contents() <==> v in Keys(current.value))
        invariant current.None? ==> v !in Contents()
        decreases if current.Some? then h + 1 else 0
      {
        var n := current.value;
        var k := 0;
        while k < |n.values|
          invariant k <= |n.values|
          invariant forall j :: 0 <= j < k ==> n.values[j] < v
        {
          if v == n.values[k] {
            assert v in Elems(n.values);
            return Some(v);
          }
          if v < n.values[k] {
            break;
          }
          k := k + 1;
        }
        SlotIs(n.values, v, k);
        if IsLeaf(n) {
          SlotMisses(n.values, v);
          current := None;
        } else {
          DescentFinds(n, v, lo, hi);
          lo, hi, h := LoOf(n, k, lo), HiOf(n, k, hi), h - 1;
          current := Some(n.children[k]);
        }
      }
      return None;
    }

    /** `mid_order`: every value of the tree, in increasing order. */
    method MidOrderList() returns (r: seq<int>)
      requires Valid()
      ensures Sorted(r) && Elems(r) == Contents()
    {
      match root
      case None =>
        r := [];
      case Some(n) =>
        FlattenSorted(n, None, None);
        FlattenElems(n);
        r := MidOrder(n, []);
    }

    /**
     * `_delete`: the tree loses `v`, and a root left without values gives
     * way to its only child. An empty tree raises `AttributeError`; an empty
     * successor leaf or a fill with no brother raises `IndexError`, and the
     * tree is then left as it was.
     */
    method Delete(v: int) returns (e: Outcome)
      requires Valid()
      modifies this
      ensures Valid()
      ensures e == AttributeError <==> old(root).None?
      ensures e == Done ==> Contents() == old(Contents()) - {v}
      ensures e != Done ==> root == old(root)
      ensures old(root).Some? && (IsLeaf(old(root).value) || Stocked(old(root).value)) ==> e == Done
    {
      if root.None? {
        return AttributeError;
      }
      var n := root.value;
      DeleteKeeps(n, v, m, None, None, height);
      if IsLeaf(n) || Stocked(n) {
        DeleteSucceeds(n, v, m);
      }
      if m >= 3 {
        DeleteUnder(n, v, m);
      }
      var d := DeleteNode(n, v, m);
      if d.None? {
        return IndexError;
      }
      var r := d.value;
      if r.values == [] && r.children != [] {
        assert Keys(r) == Keys(r.children[0]) by {
          ChildKeysOne(r.children[0]);
          assert r.children == [r.children[0]];
        }
        root := Some(r.children[0]);
        height := height - 1;
      } else {
        root := Some(r);
      }
      e := Done;
    }
  }
}
