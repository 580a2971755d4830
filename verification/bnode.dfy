/**
 * The multi-way node shared by the B-tree and the B+-tree (`BNode`): a list
 * of values and a list of children, a leaf having no children. `BNode` is
 * not defined in the tree sources; `add_val` is taken to be sorted
 * insertion, and `add_child` to put the child where the tree order needs it.
 */
module BNodes {
  datatype BNode = BNode(values: seq<int>, children: seq<BNode>)

  /** `is_leaf`: no children. */
  predicate IsLeaf(n: BNode)
  {
    n.children == []
  }

  /** Strictly increasing. */
  predicate Sorted(s: seq<int>)
  {
    forall i, j :: 0 <= i < j < |s| ==> s[i] < s[j]
  }

  /** `add_val`: insert `v` before the first larger value. */
  function AddVal(vs: seq<int>, v: int): (r: seq<int>)
    ensures |r| == |vs| + 1
  {
    if vs == [] || v < vs[0] then [v] + vs
    else [vs[0]] + AddVal(vs[1..], v)
  }

  /** `add_val` adds `v` and keeps every other value. */
  lemma {:induction false} AddValMultiset(vs: seq<int>, v: int)
    ensures multiset(AddVal(vs, v)) == multiset(vs) + multiset{v}
  {
    if vs != [] && v >= vs[0] {
      assert vs == [vs[0]] + vs[1..];
      AddValMultiset(vs[1..], v);
    }
  }

  /** Where `add_val` puts a value that falls between two runs of a sorted list. */
  lemma {:induction false} AddValAt(p: seq<int>, s: seq<int>, v: int)
    requires forall x :: x in p ==> x < v
    requires forall x :: x in s ==> v < x
    ensures AddVal(p + s, v) == p + [v] + s
  {
    if p == [] {
      assert p + s == s;
      if s != [] {
        assert s[0] in s;
      }
    } else {
      assert (p + s)[0] == p[0] && p[0] in p;
      assert (p + s)[1..] == p[1..] + s;
      forall x | x in p[1..] ensures x < v {
        assert x in p;
      }
      AddValAt(p[1..], s, v);
      assert p == [p[0]] + p[1..];
    }
  }

  /** A value below every value of the list goes to its front. */
  lemma AddValFront(vs: seq<int>, v: int)
    requires forall x :: x in vs ==> v < x
    ensures AddVal(vs, v) == [v] + vs
  {
    var e: seq<int> := [];
    AddValAt(e, vs, v);
    assert e + vs == vs && e + [v] + vs == [v] + vs;
  }

  /** A value above every value of the list goes to its end. */
  lemma AddValBack(vs: seq<int>, v: int)
    requires forall x :: x in vs ==> x < v
    ensures AddVal(vs, v) == vs + [v]
  {
    var e: seq<int> := [];
    AddValAt(vs, e, v);
    assert vs + e == vs && vs + [v] + e == vs + [v];
  }

  /** A sorted list with `v` put where it belongs stays sorted. */
  lemma SortedAt(vs: seq<int>, k: nat, v: int)
    requires Sorted(vs) && k <= |vs|
    requires forall j :: 0 <= j < k ==> vs[j] < v
    requires forall j :: k <= j < |vs| ==> v < vs[j]
    ensures Sorted(vs[..k] + [v] + vs[k..])
  {
    var r := vs[..k] + [v] + vs[k..];
    forall i | 0 <= i < |r|
      ensures r[i] == if i < k then vs[i] else if i == k then v else vs[i - 1]
    {
    }
  }

  /** In a sorted list, a value between `vs[k-1]` and `vs[k]` lies above the first `k` values and below the rest. */
  lemma SortedSides(vs: seq<int>, k: nat, v: int)
    requires Sorted(vs) && k <= |vs|
    requires k > 0 ==> vs[k - 1] < v
    requires k < |vs| ==> v < vs[k]
    ensures forall j :: 0 <= j < k ==> vs[j] < v
    ensures forall j :: k <= j < |vs| ==> v < vs[j]
  {
    forall j | 0 <= j < k ensures vs[j] < v {
      if j < k - 1 {
        assert vs[j] < vs[k - 1];
      }
    }
    forall j | k <= j < |vs| ensures v < vs[j] {
      if j > k {
        assert vs[k] < vs[j];
      }
    }
  }

  /** `add_val` puts `v` after the values below it and before those above it. */
  lemma AddValBetween(vs: seq<int>, k: nat, v: int)
    requires k <= |vs|
    requires forall j :: 0 <= j < k ==> vs[j] < v
    requires forall j :: k <= j < |vs| ==> v < vs[j]
    ensures AddVal(vs, v) == vs[..k] + [v] + vs[k..]
  {
    assert vs == vs[..k] + vs[k..];
    forall x | x in vs[..k] ensures x < v {
      var j :| 0 <= j < k && vs[j] == x;
    }
    forall x | x in vs[k..] ensures v < x {
      var j :| 0 <= j < |vs| - k && vs[k..][j] == x;
      assert vs[k + j] == x;
    }
    AddValAt(vs[..k], vs[k..], v);
  }

  /** `add_val` on a sorted list puts `v` at index `k` when it falls between `vs[k-1]` and `vs[k]`. */
  lemma InsertAt(vs: seq<int>, k: nat, v: int)
    requires Sorted(vs) && k <= |vs|
    requires k > 0 ==> vs[k - 1] < v
    requires k < |vs| ==> v < vs[k]
    ensures AddVal(vs, v) == vs[..k] + [v] + vs[k..]
    ensures Sorted(AddVal(vs, v))
  {
    SortedSides(vs, k, v);
    AddValBetween(vs, k, v);
    SortedAt(vs, k, v);
  }

  /** Adding a value absent from a sorted list keeps it sorted. */
  lemma AddValSorted(vs: seq<int>, v: int)
    requires Sorted(vs) && v !in vs
    ensures Sorted(AddVal(vs, v))
  {
    var k := Slot(vs, v);
    assert vs == vs[..k] + vs[k..];
    forall j | k <= j < |vs| ensures v < vs[j] {
      assert v != vs[j];
      if j > k {
        assert vs[k] < vs[j];
      }
    }
    forall x | x in vs[..k] ensures x < v {
    }
    forall x | x in vs[k..] ensures v < x {
    }
    AddValAt(vs[..k], vs[k..], v);
    SortedAt(vs, k, v);
  }

  /** Non-decreasing. */
  predicate Ascending(s: seq<int>)
  {
    forall i, j :: 0 <= i < j < |s| ==> s[i] <= s[j]
  }

  /**
   * `add_val` puts `v` after every value not above it: when the first `k`
   * values are at most `v` and the rest at least `v`, the result reads
   * `vs[..k] + [v] + vs[k..]` even if some of them equal `v`.
   */
  lemma {:induction false} AddValPlace(vs: seq<int>, k: nat, v: int)
    requires k <= |vs|
    requires forall j :: 0 <= j < k ==> vs[j] <= v
    requires forall j :: k <= j < |vs| ==> v <= vs[j]
    ensures AddVal(vs, v) == vs[..k] + [v] + vs[k..]
    decreases |vs|
  {
    if vs != [] {
      var t := vs[1..];
      assert vs == [vs[0]] + t;
      if k == 0 {
        if v >= vs[0] {
          assert v == vs[0];
          AddValPlace(t, 0, v);
        }
      } else {
        assert vs[0] <= v;
        forall j | 0 <= j < k - 1 ensures t[j] <= v {
          assert t[j] == vs[j + 1];
        }
        forall j | k - 1 <= j < |t| ensures v <= t[j] {
          assert t[j] == vs[j + 1];
        }
        AddValPlace(t, k - 1, v);
        assert vs[..k] == [vs[0]] + t[..k - 1];
        assert vs[k..] == t[k - 1..];
      }
    }
  }

  /** `for v in ws: node.add_val(v)`. */
  function AddVals(vs: seq<int>, ws: seq<int>): (r: seq<int>)
    ensures |r| == |vs| + |ws|
    decreases |ws|
  {
    if ws == [] then vs
    else AddVals(AddVal(vs, ws[0]), ws[1..])
  }

  /** Removing a value from a sorted list keeps it sorted. */
  lemma RemoveSorted(vs: seq<int>, j: nat)
    requires Sorted(vs) && j < |vs|
    ensures Sorted(vs[..j] + vs[j + 1..])
  {
    var r := vs[..j] + vs[j + 1..];
    assert forall i :: 0 <= i < |r| ==> r[i] == if i < j then vs[i] else vs[i + 1];
  }

  /** Replacing a value of a sorted list by one between its neighbours keeps it sorted. */
  lemma ReplaceSorted(vs: seq<int>, j: nat, t: int)
    requires Sorted(vs) && j < |vs|
    requires j > 0 ==> vs[j - 1] < t
    requires j + 1 < |vs| ==> t < vs[j + 1]
    ensures Sorted(vs[j := t])
  {
    var r := vs[j := t];
    forall a, b | 0 <= a < b < |r| ensures r[a] < r[b] {
      if a == j && b > j + 1 {
        assert vs[j + 1] < vs[b];
      } else if b == j && a < j - 1 {
        assert vs[a] < vs[j - 1];
      }
    }
  }

  /** Adding values one by one keeps the old ones and adds the new ones. */
  lemma {:induction false} AddValsMultiset(vs: seq<int>, ws: seq<int>)
    ensures multiset(AddVals(vs, ws)) == multiset(vs) + multiset(ws)
    decreases |ws|
  {
    if ws != [] {
      assert ws == [ws[0]] + ws[1..];
      AddValMultiset(vs, ws[0]);
      AddValsMultiset(AddVal(vs, ws[0]), ws[1..]);
    }
  }

  /** Adding, in order, sorted values that fall between two runs places them there as a block. */
  lemma {:induction false} AddValsAt(p: seq<int>, ws: seq<int>, s: seq<int>)
    requires Sorted(p + ws + s)
    ensures AddVals(p + s, ws) == p + ws + s
    decreases |ws|
  {
    if ws != [] {
      var all := p + ws + s;
      forall x | x in p ensures x < ws[0] {
        var i :| 0 <= i < |p| && p[i] == x;
        assert all[i] == x && all[|p|] == ws[0];
      }
      forall x | x in s ensures ws[0] < x {
        var i :| 0 <= i < |s| && s[i] == x;
        assert all[|p| + |ws| + i] == x && all[|p|] == ws[0];
      }
      AddValAt(p, s, ws[0]);
      assert (p + [ws[0]]) + ws[1..] + s == all;
      AddValsAt(p + [ws[0]], ws[1..], s);
    }
  }

  /** Adding, in order, a non-decreasing run that fits between two runs places it there as a block. */
  lemma {:induction false} AddValsPlace(p: seq<int>, ws: seq<int>, s: seq<int>)
    requires Ascending(p + ws + s)
    ensures AddVals(p + s, ws) == p + ws + s
    decreases |ws|
  {
    if ws != [] {
      var all := p + ws + s;
      var w := ws[0];
      assert all[|p|] == w;
      forall j | 0 <= j < |p| ensures (p + s)[j] <= w {
        assert all[j] == (p + s)[j];
      }
      forall j | |p| <= j < |p + s| ensures w <= (p + s)[j] {
        assert all[j + |ws|] == (p + s)[j];
      }
      AddValPlace(p + s, |p|, w);
      assert (p + s)[..|p|] == p && (p + s)[|p|..] == s;
      assert (p + [w]) + ws[1..] + s == all;
      AddValsPlace(p + [w], ws[1..], s);
    }
  }

  /** `lst[:n]`, which never fails. */
  function Take<T>(s: seq<T>, n: nat): (r: seq<T>)
    ensures |r| == if n <= |s| then n else |s|
  {
    if n <= |s| then s[..n] else s
  }

  /** `lst[n:]`, which never fails. */
  function Drop<T>(s: seq<T>, n: nat): (r: seq<T>)
    ensures |r| == if n <= |s| then |s| - n else 0
  {
    if n <= |s| then s[n..] else []
  }

  /**
   * The `for k, v in enumerate(values)` scans: the first index whose value
   * is at least `v`, or the length when every value is smaller.
   */
  function Slot(vs: seq<int>, v: int): (k: nat)
    ensures k <= |vs|
    ensures forall j :: 0 <= j < k ==> vs[j] < v
    ensures k < |vs| ==> v <= vs[k]
  {
    if vs == [] || v <= vs[0] then 0 else 1 + Slot(vs[1..], v)
  }

  /** Every internal node has one child more than it has values. */
  ghost predicate Shaped(n: BNode)
  {
    (IsLeaf(n) || |n.children| == |n.values| + 1) &&
    forall i :: 0 <= i < |n.children| ==> Shaped(n.children[i])
  }

  /** Every leaf lies at depth `h`. */
  ghost predicate Uniform(n: BNode, h: nat)
  {
    if IsLeaf(n) then h == 0
    else h > 0 && forall i :: 0 <= i < |n.children| ==> Uniform(n.children[i], h - 1)
  }

  /** Every node holds fewer than `m` values. */
  ghost predicate AllUnder(n: BNode, m: nat)
  {
    |n.values| < m && forall i :: 0 <= i < |n.children| ==> AllUnder(n.children[i], m)
  }

  /** `math.ceil(m/2) - 1`: the fewest values a node may keep before it is filled. */
  function Threshold(m: nat): int
  {
    (m + 1) / 2 - 1
  }

  /**
   * The common part of `_split` with `mid = len(values) // 2`: the child keeps
   * `values[:mid]` and `childs[:mid+1]`, the new right sibling receives
   * `values[mid+1:]` value by value and `childs[mid+1:]`, and `values[mid]`
   * moves up.
   */
  function Split(c: BNode): (r: (BNode, int, BNode))
    requires |c.values| > 0
    ensures var mid := |c.values| / 2;
            r.0 == BNode(c.values[..mid], Take(c.children, mid + 1)) && r.1 == c.values[mid] &&
            |r.2.values| == |c.values| - mid - 1 && r.2.children == Drop(c.children, mid + 1)
  {
    var mid := |c.values| / 2;
    (BNode(c.values[..mid], Take(c.children, mid + 1)), c.values[mid],
     BNode(AddVals([], c.values[mid + 1..]), Drop(c.children, mid + 1)))
  }

  /** The right sibling gets the values after the middle one, in some order. */
  lemma SplitRightValues(c: BNode)
    requires |c.values| > 0
    ensures multiset(Split(c).2.values) == multiset(c.values[|c.values| / 2 + 1..])
  {
    AddValsMultiset([], c.values[|c.values| / 2 + 1..]);
  }

  /** A suffix of a sorted list is sorted. */
  lemma SortedSuffix(vs: seq<int>, i: nat)
    requires Sorted(vs) && i <= |vs|
    ensures Sorted(vs[i..])
  {
    var ws := vs[i..];
    forall a, b | 0 <= a < b < |ws| ensures ws[a] < ws[b] {
      assert ws[a] == vs[i + a] && ws[b] == vs[i + b];
    }
  }

  /** Adding a sorted run value by value to an empty list rebuilds the run. */
  lemma AddValsRun(ws: seq<int>)
    requires Sorted(ws)
    ensures AddVals([], ws) == ws
  {
    var e: seq<int> := [];
    assert e + ws + e == ws && e + e == e;
    AddValsAt(e, ws, e);
  }

  /** On a sorted node the right sibling gets exactly `values[mid+1:]`. */
  lemma SplitSorted(c: BNode)
    requires |c.values| > 0 && Sorted(c.values)
    ensures Split(c).2.values == c.values[|c.values| / 2 + 1..]
  {
    SortedSuffix(c.values, |c.values| / 2 + 1);
    AddValsRun(c.values[|c.values| / 2 + 1..]);
  }

  /** The leftmost leaf below `n`, which `get_after_node` walks down to. */
  function LeftLeaf(n: BNode): (r: BNode)
    ensures IsLeaf(r)
  {
    if IsLeaf(n) then n else LeftLeaf(n.children[0])
  }

  /** `get_after_node`: follow first children down to a leaf. */
  method GetAfterNode(n: BNode) returns (r: BNode)
    ensures r == LeftLeaf(n) && IsLeaf(r)
  {
    r := n;
    while !IsLeaf(r)
      invariant LeftLeaf(r) == LeftLeaf(n)
      decreases r
    {
      r := r.children[0];
    }
  }
}
