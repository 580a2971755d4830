/**
 * The dictionary trie of nlp/commom/trie.py: a tree of nodes keyed by
 * characters, each holding an optional value, with longest-match and
 * full-match parsing of a text.
 *
 * A node is identified by the string spelling the path from the root to
 * it, so the trie is the map `nodes` from those paths to the nodes' values
 * (`None` for a node that ends no word). The root is the empty path.
 */
module NlpTrie {
  import opened Wrappers

  /** The path-to-value view of a trie. */
  type Paths<V> = map<string, Option<V>>

  /** The root exists and holds no value, and every prefix of a node's path is a node. */
  ghost predicate WellFormed<V>(m: Paths<V>)
  {
    "" in m && m[""].None? &&
    forall p, k :: p in m && 0 <= k <= |p| ==> p[..k] in m
  }

  /** `trie[key]`: the value of the node reached by `key`, `None` when there is no such node. */
  function Val<V>(m: Paths<V>, key: string): (r: Option<V>)
    ensures key !in m ==> r.None?
  {
    if key in m then m[key] else None
  }

  /** `text[a..b]` reaches a node that holds a value. */
  predicate Keyed<V>(m: Paths<V>, text: string, a: int, b: int)
  {
    0 <= a <= b <= |text| && Val(m, text[a..b]).Some?
  }

  /** Once `text[a..b]` is not a node, no longer piece starting at `a` is one. */
  lemma NoNodeNoLonger<V>(m: Paths<V>, text: string, a: nat, b: nat)
    requires WellFormed(m)
    requires a <= b <= |text| && text[a..b] !in m
    ensures forall e :: b <= e <= |text| ==> text[a..e] !in m
  {
    forall e | b <= e <= |text|
      ensures text[a..e] !in m
    {
      assert text[a..e][..b - a] == text[a..b];
    }
  }

  // ---------------------------------------------------------------------------
  // Setting a key
  // ---------------------------------------------------------------------------

  /**
   * The map after the first `n` steps of `__setitem__`: each proper prefix
   * of `key` is added with no value if it is missing (an existing node keeps
   * its value), and the whole key is added or overwritten with `value`.
   */
  function SetSteps<V>(m: Paths<V>, key: string, value: Option<V>, n: nat): Paths<V>
    requires n <= |key|
  {
    if n == 0 then m
    else
      var prev := SetSteps(m, key, value, n - 1);
      if n < |key| then (if key[..n] in prev then prev else prev[key[..n] := None])
      else prev[key[..n] := value]
  }

  /** `trie[key] = value` as a whole. */
  function SetKey<V>(m: Paths<V>, key: string, value: Option<V>): Paths<V>
  {
    SetSteps(m, key, value, |key|)
  }

  /**
   * The first `n` steps add exactly the prefixes of `key` of length 1 to `n`,
   * leave every other node's value alone, give new intermediate nodes no
   * value, and keep an existing intermediate node's value.
   */
  lemma SetStepsEffect<V>(m: Paths<V>, key: string, value: Option<V>, n: nat)
    requires n <= |key|
    ensures forall p :: p in SetSteps(m, key, value, n) <==> p in m || exists k :: 1 <= k <= n && p == key[..k]
    ensures forall p :: p in m && p != key ==> SetSteps(m, key, value, n)[p] == m[p]
    ensures forall k :: 1 <= k <= n && k < |key| && key[..k] !in m ==> SetSteps(m, key, value, n)[key[..k]].None?
    ensures n == |key| > 0 ==> SetSteps(m, key, value, n)[key] == value
  {
    SetStepsKeys(m, key, value, n);
    SetStepsKeeps(m, key, value, n);
    SetStepsNewNone(m, key, value, n);
    if n == |key| > 0 {
      assert key[..|key|] == key;
    }
  }

  /** The first `n` steps add exactly the prefixes of `key` of length 1 to `n`. */
  lemma {:induction false} SetStepsKeys<V>(m: Paths<V>, key: string, value: Option<V>, n: nat)
    requires n <= |key|
    ensures forall p :: p in SetSteps(m, key, value, n) <==> p in m || exists k :: 1 <= k <= n && p == key[..k]
  {
    if n > 0 {
      SetStepsKeys(m, key, value, n - 1);
      var prev := SetSteps(m, key, value, n - 1);
      assert SetSteps(m, key, value, n).Keys == prev.Keys + {key[..n]};
    }
  }

  /** The first `n` steps leave the value of every node other than `key` alone. */
  lemma {:induction false} SetStepsKeeps<V>(m: Paths<V>, key: string, value: Option<V>, n: nat)
    requires n <= |key|
    ensures forall p :: p in m && p != key ==> p in SetSteps(m, key, value, n) && SetSteps(m, key, value, n)[p] == m[p]
  {
    if n > 0 {
      SetStepsKeeps(m, key, value, n - 1);
      SetStepsKeys(m, key, value, n - 1);
      assert key[..|key|] == key;
    }
  }

  /** An intermediate node the first `n` steps add has no value. */
  lemma {:induction false} SetStepsNewNone<V>(m: Paths<V>, key: string, value: Option<V>, n: nat)
    requires n <= |key|
    ensures forall k :: 1 <= k <= n && k < |key| && key[..k] !in m ==>
              key[..k] in SetSteps(m, key, value, n) && SetSteps(m, key, value, n)[key[..k]].None?
  {
    if n > 0 {
      SetStepsNewNone(m, key, value, n - 1);
      SetStepsKeys(m, key, value, n - 1);
      forall k | 1 <= k < n
        ensures key[..k] != key[..n]
      {
        assert |key[..k]| != |key[..n]|;
      }
      if n < |key| && key[..n] !in m {
        assert key[..n] !in SetSteps(m, key, value, n - 1);
      }
      assert key[..|key|] == key;
    }
  }

  /** Setting a non-empty key makes it read back as the new value. */
  lemma SetThenGet<V>(m: Paths<V>, key: string, value: Option<V>)
    requires key != []
    ensures Val(SetKey(m, key, value), key) == value
  {
    SetStepsEffect(m, key, value, |key|);
  }

  /** Setting a key never changes the value at any other path, its proper prefixes included. */
  lemma SetKeepsOtherValues<V>(m: Paths<V>, key: string, value: Option<V>, other: string)
    requires other != key
    ensures Val(SetKey(m, key, value), other) == Val(m, other)
  {
    SetStepsEffect(m, key, value, |key|);
    if other !in m && other in SetKey(m, key, value) {
      var k :| 1 <= k <= |key| && other == key[..k];
      assert k < |key|;
    }
  }

  /** Setting a key keeps the trie well formed. */
  lemma SetKeepsWellFormed<V>(m: Paths<V>, key: string, value: Option<V>)
    requires WellFormed(m)
    ensures WellFormed(SetKey(m, key, value))
  {
    var r := SetKey(m, key, value);
    SetStepsEffect(m, key, value, |key|);
    if key == [] {
      assert r == m;
    } else {
      forall p, k | p in r && 0 <= k <= |p|
        ensures p[..k] in r
      {
        if p !in m {
          var j :| 1 <= j <= |key| && p == key[..j];
          if k > 0 {
            assert p[..k] == key[..k];
          } else {
            assert p[..k] == "";
          }
        }
      }
    }
  }

  /** `update(dic)`: the pairs set one after another, in iteration order. */
  function SetAll<V>(m: Paths<V>, pairs: seq<(string, Option<V>)>): Paths<V>
  {
    if pairs == [] then m
    else SetKey(SetAll(m, pairs[..|pairs| - 1]), pairs[|pairs| - 1].0, pairs[|pairs| - 1].1)
  }

  lemma {:induction false} SetAllKeepsWellFormed<V>(m: Paths<V>, pairs: seq<(string, Option<V>)>)
    requires WellFormed(m)
    ensures WellFormed(SetAll(m, pairs))
  {
    if pairs != [] {
      SetAllKeepsWellFormed(m, pairs[..|pairs| - 1]);
      SetKeepsWellFormed(SetAll(m, pairs[..|pairs| - 1]), pairs[|pairs| - 1].0, pairs[|pairs| - 1].1);
    }
  }

  /** After `update`, a non-empty key reads back as the value of its last pair. */
  lemma {:induction false} SetAllLastPairWins<V>(m: Paths<V>, pairs: seq<(string, Option<V>)>, i: nat)
    requires i < |pairs| && pairs[i].0 != []
    requires forall j :: i < j < |pairs| ==> pairs[j].0 != pairs[i].0
    ensures Val(SetAll(m, pairs), pairs[i].0) == pairs[i].1
  {
    var init := pairs[..|pairs| - 1];
    var last := pairs[|pairs| - 1];
    if i == |pairs| - 1 {
      SetThenGet(SetAll(m, init), last.0, last.1);
    } else {
      SetAllLastPairWins(m, init, i);
      SetKeepsOtherValues(SetAll(m, init), last.0, last.1, pairs[i].0);
    }
  }

  // ---------------------------------------------------------------------------
  // Longest-match parsing
  // ---------------------------------------------------------------------------

  /** One match: `(text[start:end+1], value, start, end)`. */
  datatype Hit<V> = Hit(word: string, value: V, start: int, end: int)

  /** The furthest `e` in `a+1 .. k` with `text[a..e]` holding a value, if any. */
  function LastKeyed<V>(m: Paths<V>, text: string, a: nat, k: nat): (r: Option<nat>)
    requires a <= k <= |text|
    ensures r.Some? ==> a < r.value <= k && Keyed(m, text, a, r.value)
    ensures forall e :: a < e <= k && (r.None? || r.value < e) ==> !Keyed(m, text, a, e)
    decreases k
  {
    if k == a then None
    else if Keyed(m, text, a, k) then Some(k)
    else LastKeyed(m, text, a, k - 1)
  }

  /** The hits `parse_longest` reports from position `i` on. */
  function LongestFrom<V>(m: Paths<V>, text: string, i: nat): seq<Hit<V>>
    requires i <= |text|
    decreases |text| - i
  {
    if i == |text| then []
    else match LastKeyed(m, text, i, |text|) {
      case None => LongestFrom(m, text, i + 1)
      case Some(e) => [Hit(text[i..e], Val(m, text[i..e]).value, i, e - 1)] + LongestFrom(m, text, e)
    }
  }

  /** When no node starts with the character at `i`, longest matching reports nothing there. */
  lemma LongestSkips<V>(m: Paths<V>, text: string, i: nat)
    requires WellFormed(m) && i < |text| && text[i..i + 1] !in m
    ensures LongestFrom(m, text, i) == LongestFrom(m, text, i + 1)
  {
    NoNodeNoLonger(m, text, i, i + 1);
    assert LastKeyed(m, text, i, |text|).None?;
  }

  /**
   * The scan at `i` ends at `end`, the furthest piece seen to hold a value
   * (or just past `i` when none does): `parse_longest` reports that piece and
   * goes on after it, or goes on at the next position.
   */
  lemma LongestExit<V>(m: Paths<V>, text: string, i: nat, end: nat, value: Option<V>)
    requires i < end <= |text| && value == Val(m, text[i..end]) && (value.None? ==> end == i + 1)
    requires forall e :: end < e <= |text| ==> !Keyed(m, text, i, e)
    ensures value.Some? ==> LongestFrom(m, text, i) == [Hit(text[i..end], value.value, i, end - 1)] + LongestFrom(m, text, end)
    ensures value.None? ==> LongestFrom(m, text, i) == LongestFrom(m, text, i + 1)
  {
    if value.Some? {
      assert Keyed(m, text, i, end);
      assert LastKeyed(m, text, i, |text|) == Some(end);
    } else {
      assert LastKeyed(m, text, i, |text|).None?;
    }
  }

  lemma AppendHit<V>(a: seq<Hit<V>>, h: Hit<V>, b: seq<Hit<V>>)
    ensures a + [h] + b == a + ([h] + b)
  {
  }

  /** A hit that names its own piece of `text`, whose value it is. */
  ghost predicate Sound<V>(m: Paths<V>, text: string, h: Hit<V>)
  {
    0 <= h.start <= h.end < |text| && h.word == text[h.start..h.end + 1] &&
    Val(m, h.word) == Some(h.value)
  }

  /** Every hit of `parse_longest` is sound and the longest valued word at its start. */
  lemma {:induction false} LongestFromSound<V>(m: Paths<V>, text: string, i: nat)
    requires i <= |text|
    ensures forall h :: h in LongestFrom(m, text, i) ==>
              Sound(m, text, h) && forall e :: h.end + 1 < e <= |text| ==> !Keyed(m, text, h.start, e)
    decreases |text| - i
  {
    if i < |text| {
      match LastKeyed(m, text, i, |text|) {
        case None =>
          LongestFromSound(m, text, i + 1);
        case Some(e) =>
          LongestFromSound(m, text, e);
      }
    }
  }

  /** The hits of `parse_longest` lie at or after `i`, in increasing order without overlap. */
  lemma {:induction false} LongestFromOrdered<V>(m: Paths<V>, text: string, i: nat)
    requires i <= |text|
    ensures forall h :: h in LongestFrom(m, text, i) ==> i <= h.start <= h.end
    ensures forall k, l :: 0 <= k < l < |LongestFrom(m, text, i)| ==>
              LongestFrom(m, text, i)[k].end < LongestFrom(m, text, i)[l].start
    decreases |text| - i
  {
    if i < |text| {
      match LastKeyed(m, text, i, |text|) {
        case None =>
          LongestFromOrdered(m, text, i + 1);
        case Some(e) =>
          LongestFromOrdered(m, text, e);
          var rest := LongestFrom(m, text, e);
          var first := Hit(text[i..e], Val(m, text[i..e]).value, i, e - 1);
          assert LongestFrom(m, text, i) == [first] + rest;
          forall k, l | 0 <= k < l < |[first] + rest|
            ensures ([first] + rest)[k].end < ([first] + rest)[l].start
          {
            if k == 0 {
              assert ([first] + rest)[l] in rest;
            }
          }
      }
    }
  }

  /** No valued word of the text starts at a position `parse_longest` skips: every one is covered by a hit. */
  lemma {:induction false} LongestFromCovers<V>(m: Paths<V>, text: string, i: nat, p: nat, e: nat)
    requires i <= p < e <= |text| && Keyed(m, text, p, e)
    ensures exists h :: h in LongestFrom(m, text, i) && h.start <= p <= h.end
    decreases |text| - i
  {
    match LastKeyed(m, text, i, |text|) {
      case None =>
        if p == i {
          assert false;
        } else {
          LongestFromCovers(m, text, i + 1, p, e);
        }
      case Some(r) =>
        var first := Hit(text[i..r], Val(m, text[i..r]).value, i, r - 1);
        assert LongestFrom(m, text, i) == [first] + LongestFrom(m, text, r);
        if p >= r {
          LongestFromCovers(m, text, r, p, e);
        } else {
          assert first in LongestFrom(m, text, i);
        }
    }
  }

  // ---------------------------------------------------------------------------
  // Full-match parsing, as written
  // ---------------------------------------------------------------------------

  /**
   * The hits `parse_text` reports from the state (`begin`, `i`): the node
   * `text[begin..i]` is current; a further character either extends the
   * path (reporting it when it holds a value) or, when it does not, restarts
   * at `begin + 1`. Reaching the end of the text stops everything.
   */
  function FullFrom<V>(m: Paths<V>, text: string, begin: nat, i: nat): seq<Hit<V>>
    requires begin <= i <= |text|
    decreases |text| - begin, |text| - i
  {
    if i == |text| then []
    else if text[begin..i + 1] in m then
      (if m[text[begin..i + 1]].Some? then [Hit(text[begin..i + 1], m[text[begin..i + 1]].value, begin, i)] else [])
      + FullFrom(m, text, begin, i + 1)
    else FullFrom(m, text, begin + 1, begin + 1)
  }

  /** Every hit of `parse_text` is sound and starts at or after `begin`, in (start, end) order. */
  lemma {:induction false} FullFromSound<V>(m: Paths<V>, text: string, begin: nat, i: nat)
    requires begin <= i <= |text|
    ensures forall h :: h in FullFrom(m, text, begin, i) ==> Sound(m, text, h) && h.start >= begin
    ensures forall k, l :: 0 <= k < l < |FullFrom(m, text, begin, i)| ==>
              var a := FullFrom(m, text, begin, i)[k];
              var b := FullFrom(m, text, begin, i)[l];
              a.start < b.start || (a.start == b.start && a.end < b.end)
    decreases |text| - begin, |text| - i
  {
    if i < |text| {
      if text[begin..i + 1] in m {
        FullFromSound(m, text, begin, i + 1);
        var rest := FullFrom(m, text, begin, i + 1);
        forall h | h in rest ensures h.start > begin || (h.start == begin && h.end > i) {
          FullFromStartsAfter(m, text, begin, i + 1, h);
        }
      } else {
        FullFromSound(m, text, begin + 1, begin + 1);
      }
    }
  }

  /** Hits from the state (`begin`, `i`) start after `begin`, or at `begin` and end at `i` or later. */
  lemma {:induction false} FullFromStartsAfter<V>(m: Paths<V>, text: string, begin: nat, i: nat, h: Hit<V>)
    requires begin <= i <= |text|
    requires h in FullFrom(m, text, begin, i)
    ensures h.start > begin || (h.start == begin && h.end >= i)
    decreases |text| - begin, |text| - i
  {
    if text[begin..i + 1] in m {
      var head := if m[text[begin..i + 1]].Some? then [Hit(text[begin..i + 1], m[text[begin..i + 1]].value, begin, i)] else [];
      if h !in head {
        FullFromStartsAfter(m, text, begin, i + 1, h);
      }
    } else {
      FullFromStartsAfter(m, text, begin + 1, begin + 1, h);
      FullFromSound(m, text, begin + 1, begin + 1);
    }
  }

  // ---------------------------------------------------------------------------
  // The trie object
  // ---------------------------------------------------------------------------

  class Trie<V> {
    /** Every node, by the path that reaches it, with its value. */
    var nodes: Paths<V>

    ghost predicate Valid()
      reads this
    {
      WellFormed(nodes)
    }

    /** Trie(dic): a bare root, then `update(dic)`. */
    constructor (pairs: seq<(string, Option<V>)>)
      ensures Valid()
      ensures nodes == SetAll(map["" := None], pairs)
    {
      nodes := map["" := None];
      new;
      Update(pairs);
    }

    /** `__getitem__` */
    function Get(key: string): (r: Option<V>)
      reads this
      requires Valid()
      ensures key == [] ==> r.None?
      ensures r.Some? ==> key in nodes
    {
      Val(nodes, key)
    }

    /** `__contains__` */
    predicate Contains(key: string)
      reads this
      requires Valid()
    {
      Get(key).Some?
    }

    /**
     * transit: walk `key` from the node `from`, giving up as soon as a
     * character has no child. It reaches a node exactly when the whole path
     * exists.
     */
    method Transit(from: string, key: string) returns (r: Option<string>)
      requires Valid() && from in nodes
      ensures r == (if from + key in nodes then Some(from + key) else None)
    {
      var state := from;
      for i := 0 to |key|
        invariant state == from + key[..i] && state in nodes
      {
        var next := state + [key[i]];
        if next !in nodes {
          assert (from + key)[..|next|] == next;
          return None;
        }
        assert key[..i + 1] == key[..i] + [key[i]];
        state := next;
      }
      assert key[..|key|] == key;
      return Some(state);
    }

    /** `trie[key] = value` */
    method Set(key: string, value: Option<V>)
      requires Valid()
      modifies this
      ensures Valid()
      ensures nodes == SetKey(old(nodes), key, value)
    {
      for i := 0 to |key|
        invariant nodes == SetSteps(old(nodes), key, value, i)
      {
        var path := key[..i + 1];
        if i < |key| - 1 {
          if path !in nodes {
            nodes := nodes[path := None];
          }
        } else {
          nodes := nodes[path := value];
        }
      }
      SetKeepsWellFormed(old(nodes), key, value);
    }

    /** `del trie[key]`: clear the value of the node `key` reaches, keeping the node. */
    method Delete(key: string)
      requires Valid()
      modifies this
      ensures Valid()
      ensures nodes == if key in old(nodes) then old(nodes)[key := None] else old(nodes)
      ensures !Contains(key)
    {
      var state := Transit("", key);
      assert "" + key == key;
      if state.Some? {
        nodes := nodes[state.value := None];
      }
    }

    /** `update(dic)`: set each pair in turn. */
    method Update(pairs: seq<(string, Option<V>)>)
      requires Valid()
      modifies this
      ensures Valid()
      ensures nodes == SetAll(old(nodes), pairs)
    {
      for i := 0 to |pairs|
        invariant Valid()
        invariant nodes == SetAll(old(nodes), pairs[..i])
      {
        assert pairs[..i + 1][..i] == pairs[..i];
        Set(pairs[i].0, pairs[i].1);
      }
      assert pairs[..|pairs|] == pairs;
    }

    /**
     * parse_longest: at each position the longest piece of the text that
     * holds a value, skipping past it; positions with none are skipped one
     * by one.
     */
    method ParseLongest(text: string) returns (found: seq<Hit<V>>)
      requires Valid()
      ensures found == LongestFrom(nodes, text, 0)
    {
      found := [];
      var i := 0;
      while i < |text|
        invariant 0 <= i <= |text|
        invariant found + LongestFrom(nodes, text, i) == LongestFrom(nodes, text, 0)
        decreases |text| - i
      {
        var state := Transit("", text[i..i + 1]);
        assert "" + text[i..i + 1] == text[i..i + 1];
        if state.Some? {
          var end := i + 1;
          var value := nodes[text[i..i + 1]];
          for to := i + 1 to |text|
            invariant i < end <= to
            invariant text[i..to] in nodes
            invariant value == Val(nodes, text[i..end])
            invariant value.None? ==> end == i + 1
            invariant forall e :: end < e <= to ==> !Keyed(nodes, text, i, e)
          {
            var next := Transit(text[i..to], text[to..to + 1]);
            assert text[i..to] + text[to..to + 1] == text[i..to + 1];
            if next.None? {
              NoNodeNoLonger(nodes, text, i, to + 1);
              assert forall e :: end < e <= |text| ==> !Keyed(nodes, text, i, e);
              break;
            }
            if nodes[next.value].Some? {
              value := nodes[next.value];
              end := to + 1;
            }
          }
          LongestExit(nodes, text, i, end, value);
          if value.Some? {
            var hit := Hit(text[i..end], value.value, i, end - 1);
            AppendHit(found, hit, LongestFrom(nodes, text, end));
            found := found + [hit];
            assert found + LongestFrom(nodes, text, end) == LongestFrom(nodes, text, 0);
            i := end - 1;
          }
        } else {
          LongestSkips(nodes, text, i);
        }
        i := i + 1;
      }
    }

    /**
     * parse_text: report every node holding a value along the path from
     * `begin`, restarting one position later when the path breaks off.
     */
    method ParseText(text: string) returns (found: seq<Hit<V>>)
      requires Valid()
      ensures found == FullFrom(nodes, text, 0, 0)
    {
      found := [];
      var begin := 0;
      var state: Option<string> := Some("");
      var i := begin;
      while i < |text|
        invariant 0 <= begin <= i <= |text|
        invariant state == Some(text[begin..i]) && text[begin..i] in nodes
        invariant found + FullFrom(nodes, text, begin, i) == FullFrom(nodes, text, 0, 0)
        decreases |text| - begin, |text| - i
      {
        state := Transit(state.value, text[i..i + 1]);
        assert text[begin..i] + text[i..i + 1] == text[begin..i + 1];
        if state.Some? {
          var value := nodes[state.value];
          if value.Some? {
            found := found + [Hit(text[begin..i + 1], value.value, begin, i)];
          }
          i := i + 1;
        } else {
          i := begin;
          begin := begin + 1;
          state := Some("");
          i := i + 1;
          assert text[begin..i] == "";
        }
      }
    }
  }

  /**
   * `parse_text` is not complete: with the words "ab" and "b", the text
   * "ab" yields only "ab". The path from 0 reaches the end of the text, so
   * the start 1 is never tried.
   */
  lemma FullFromMissesLaterStart()
    ensures var m: Paths<int> := map["" := None, "a" := None, "ab" := Some(1), "b" := Some(2)];
            WellFormed(m) && Keyed(m, "ab", 1, 2) &&
            FullFrom(m, "ab", 0, 0) == [Hit("ab", 1, 0, 1)]
  {
    var m: Paths<int> := map["" := None, "a" := None, "ab" := Some(1), "b" := Some(2)];
    var t := "ab";
    assert t[0..1] == "a" && t[0..2] == "ab" && t[1..2] == "b";
    forall p, k | p in m && 0 <= k <= |p|
      ensures p[..k] in m
    {
      if p == "ab" {
        assert k == 0 || k == 1 || k == 2;
        assert p[..0] == "" && p[..1] == "a" && p[..2] == p;
      } else if p == "a" || p == "b" {
        assert k == 0 || k == 1;
        assert p[..0] == "" && p[..1] == p;
      } else {
        assert p == "" && p[..k] == "";
      }
    }
  }

  // ---------------------------------------------------------------------------
  // TrieDict: a prefix trie and a suffix trie kept side by side
  // ---------------------------------------------------------------------------

  /** `s[::-1]` */
  function Reverse<T>(s: seq<T>): (r: seq<T>)
    ensures |r| == |s|
  {
    seq(|s|, i requires 0 <= i < |s| => s[|s| - 1 - i])
  }

  /** Position `i` of the reverse holds position `|s| - 1 - i`. */
  lemma ReverseAt<T>(s: seq<T>)
    ensures forall i :: 0 <= i < |s| ==> Reverse(s)[i] == s[|s| - 1 - i]
  {
  }

  lemma {:induction false} ReverseReverse<T>(s: seq<T>)
    ensures Reverse(Reverse(s)) == s
  {
    ReverseAt(s);
    ReverseAt(Reverse(s));
  }

  lemma {:induction false} ReverseInjective<T>(a: seq<T>, b: seq<T>)
    requires Reverse(a) == Reverse(b)
    ensures a == b
  {
    ReverseReverse(a);
    ReverseReverse(b);
  }

  /** A piece of the reversed text is the reverse of the mirrored piece of the text. */
  lemma {:induction false} ReverseSlice<T>(text: seq<T>, s: nat, e: nat)
    requires s <= e <= |text|
    ensures Reverse(text)[s..e] == Reverse(text[|text| - e..|text| - s])
  {
    var a := Reverse(text)[s..e];
    var b := Reverse(text[|text| - e..|text| - s]);
    ReverseAt(text);
    ReverseAt(text[|text| - e..|text| - s]);
    var piece := text[|text| - e..|text| - s];
    forall i | 0 <= i < |a|
      ensures a[i] == b[i]
    {
      calc {
        a[i];
        Reverse(text)[s + i];
        text[|text| - 1 - (s + i)];
        piece[e - s - 1 - i];
        b[i];
      }
    }
  }

  /** The suffix trie holds, under each reversed key, what the prefix trie holds under the key. */
  ghost predicate Mirrored<V>(pre: Paths<V>, suf: Paths<V>)
  {
    forall k :: Val(pre, k) == Val(suf, Reverse(k))
  }

  /** Setting a key in a trie changes the value at that key only (the empty key changes nothing). */
  lemma ValAfterSet<V>(m: Paths<V>, key: string, value: Option<V>, k: string)
    requires WellFormed(m)
    ensures Val(SetKey(m, key, value), k) == if k == key && key != [] then value else Val(m, k)
  {
    if k == key && key != [] {
      SetThenGet(m, key, value);
    } else if k != key {
      SetKeepsOtherValues(m, key, value, k);
    } else {
      assert SetKey(m, key, value) == m;
    }
  }

  /** Setting `key` in the prefix trie and its reverse in the suffix trie keeps them mirrored. */
  lemma SetKeepsMirrored<V>(pre: Paths<V>, suf: Paths<V>, key: string, value: Option<V>)
    requires WellFormed(pre) && WellFormed(suf) && Mirrored(pre, suf)
    ensures Mirrored(SetKey(pre, key, value), SetKey(suf, Reverse(key), value))
  {
    forall k
      ensures Val(SetKey(pre, key, value), k) == Val(SetKey(suf, Reverse(key), value), Reverse(k))
    {
      ValAfterSet(pre, key, value, k);
      ValAfterSet(suf, Reverse(key), value, Reverse(k));
      if Reverse(k) == Reverse(key) {
        ReverseInjective(k, key);
      }
    }
  }

  /** The pairs `{key: key for key in dic}` of the prefix trie. */
  function PrefixPairs(words: seq<string>): (r: seq<(string, Option<string>)>)
    ensures |r| == |words|
    ensures forall i :: 0 <= i < |words| ==> r[i] == (words[i], Some(words[i]))
  {
    if words == [] then [] else PrefixPairs(words[..|words| - 1]) + [(words[|words| - 1], Some(words[|words| - 1]))]
  }

  /** The pairs `{key[::-1]: key for key in dic}` of the suffix trie. */
  function SuffixPairs(words: seq<string>): (r: seq<(string, Option<string>)>)
    ensures |r| == |words|
    ensures forall i :: 0 <= i < |words| ==> r[i] == (Reverse(words[i]), Some(words[i]))
  {
    if words == [] then [] else SuffixPairs(words[..|words| - 1]) + [(Reverse(words[|words| - 1]), Some(words[|words| - 1]))]
  }

  /** Building both tries from the same words leaves them mirrored. */
  lemma {:induction false} BuildMirrored(words: seq<string>)
    ensures Mirrored(SetAll(map["" := None], PrefixPairs(words)), SetAll(map["" := None], SuffixPairs(words)))
    ensures WellFormed(SetAll(map["" := None], PrefixPairs(words)))
    ensures WellFormed(SetAll(map["" := None], SuffixPairs(words)))
  {
    var root: Paths<string> := map["" := None];
    assert WellFormed(root) by {
      forall p, k | p in root && 0 <= k <= |p| ensures p[..k] in root {
        assert p == "";
      }
    }
    if words == [] {
      forall k ensures Val(root, k) == Val(root, Reverse(k)) {
        if k == "" {
          assert Reverse(k) == "";
        } else {
          assert Reverse(k) != "";
        }
      }
    } else {
      var init := words[..|words| - 1];
      var w := words[|words| - 1];
      BuildMirrored(init);
      assert PrefixPairs(words)[..|words| - 1] == PrefixPairs(init);
      assert SuffixPairs(words)[..|words| - 1] == SuffixPairs(init);
      SetKeepsMirrored(SetAll(root, PrefixPairs(init)), SetAll(root, SuffixPairs(init)), w, Some(w));
      SetAllKeepsWellFormed(root, PrefixPairs(words));
      SetAllKeepsWellFormed(root, SuffixPairs(words));
    }
  }

  /** A suffix-trie hit on the reversed text, moved to the text's positions as `backward_parse_longest` does. */
  function MoveBack<V>(h: Hit<V>, last: int): Hit<V>
  {
    Hit(h.word, h.value, last - h.end, last - h.start)
  }

  /** `backward_parse_longest` as written: hits listed back to front, positions moved, words left reversed. */
  function BackwardAsWritten<V>(hits: seq<Hit<V>>, last: int): (r: seq<Hit<V>>)
    ensures |r| == |hits|
    ensures forall k :: 0 <= k < |hits| ==> r[k] == MoveBack(hits[|hits| - 1 - k], last)
  {
    seq(|hits|, k requires 0 <= k < |hits| => MoveBack(hits[|hits| - 1 - k], last))
  }

  /** A moved hit with its word turned back the right way round. */
  function TurnBack<V>(h: Hit<V>, last: int): Hit<V>
  {
    Hit(Reverse(h.word), h.value, last - h.end, last - h.start)
  }

  /** `backward_parse_longest` with each word turned back the right way round. */
  function BackwardFixed<V>(hits: seq<Hit<V>>, last: int): (r: seq<Hit<V>>)
    ensures |r| == |hits|
    ensures forall k :: 0 <= k < |hits| ==> r[k] == TurnBack(hits[|hits| - 1 - k], last)
  {
    seq(|hits|, k requires 0 <= k < |hits| => TurnBack(hits[|hits| - 1 - k], last))
  }

  /**
   * As written, each hit of `backward_parse_longest` carries the REVERSE of
   * the text at its positions, and the positions come in increasing order
   * without overlap.
   */
  lemma {:induction false} BackwardAsWrittenWordsReversed<V>(suf: Paths<V>, text: string)
    ensures forall h :: h in BackwardAsWritten(LongestFrom(suf, Reverse(text), 0), |text| - 1) ==>
              0 <= h.start <= h.end < |text| && h.word == Reverse(text[h.start..h.end + 1])
    ensures var hs := BackwardAsWritten(LongestFrom(suf, Reverse(text), 0), |text| - 1);
            forall k, l :: 0 <= k < l < |hs| ==> hs[k].end < hs[l].start
  {
    var rt := Reverse(text);
    var hits := LongestFrom(suf, rt, 0);
    LongestFromSound(suf, rt, 0);
    BackwardAsWrittenOrdered(suf, text);
    forall h | h in BackwardAsWritten(hits, |text| - 1)
      ensures 0 <= h.start <= h.end < |text| && h.word == Reverse(text[h.start..h.end + 1])
    {
      var k :| 0 <= k < |hits| && h == BackwardAsWritten(hits, |text| - 1)[k];
      var g := hits[|hits| - 1 - k];
      assert g in hits;
      MovedBackReversed(suf, text, g);
    }
  }

  /** As written, backward parsing lists its hits in increasing order without overlap. */
  lemma {:induction false} BackwardAsWrittenOrdered<V>(suf: Paths<V>, text: string)
    ensures var hs := BackwardAsWritten(LongestFrom(suf, Reverse(text), 0), |text| - 1);
            forall k, l :: 0 <= k < l < |hs| ==> hs[k].end < hs[l].start
  {
    var hits := LongestFrom(suf, Reverse(text), 0);
    var hs := BackwardAsWritten(hits, |text| - 1);
    LongestFromOrdered(suf, Reverse(text), 0);
    forall k, l | 0 <= k < l < |hs|
      ensures hs[k].end < hs[l].start
    {
      var a := |hits| - 1 - k;
      var b := |hits| - 1 - l;
      assert hits[b].end < hits[a].start;
      assert hs[k].end == |text| - 1 - hits[a].start;
      assert hs[l].start == |text| - 1 - hits[b].end;
    }
  }

  /** A sound hit on the reversed text, moved back, names the reverse of its piece of the text. */
  lemma MovedBackReversed<V>(suf: Paths<V>, text: string, g: Hit<V>)
    requires Sound(suf, Reverse(text), g)
    ensures var h := MoveBack(g, |text| - 1);
            0 <= h.start <= h.end < |text| && h.word == Reverse(text[h.start..h.end + 1])
  {
    var rt := Reverse(text);
    var s0, e0 := |text| - (g.end + 1), |text| - g.start;
    ReverseSlice(text, g.start, g.end + 1);
    var w := text[s0..e0];
    assert g.word == Reverse(w);
    var h := MoveBack(g, |text| - 1);
    assert h.start == s0 && h.end + 1 == e0;
    assert text[h.start..h.end + 1] == w;
  }

  /**
   * With the single word "ab", `backward_parse_longest("ab")` reports the
   * word as "ba" at positions 0..1, where the text reads "ab".
   */
  lemma BackwardAsWrittenExample()
    ensures var suf := SetAll(map["" := None], SuffixPairs(["ab"]));
            BackwardAsWritten(LongestFrom(suf, Reverse("ab"), 0), 1) == [Hit("ba", "ab", 0, 1)]
  {
    var root: Paths<string> := map["" := None];
    var suf := SetAll(root, SuffixPairs(["ab"]));
    ReverseAt("ab");
    assert Reverse("ab") == "ba";
    assert SuffixPairs(["ab"]) == [("ba", Some("ab"))];
    assert SuffixPairs(["ab"])[..0] == [];
    var m := map["" := None, "b" := None, "ba" := Some("ab")];
    assert "ba"[..1] == "b" && "ba"[..2] == "ba";
    assert SetSteps(root, "ba", Some("ab"), 1) == root["b" := None];
    assert suf == m;
    var t := "ba";
    assert t[0..2] == "ba";
    assert Keyed(m, t, 0, 2);
    assert LastKeyed(m, t, 0, 2) == Some(2);
    assert LongestFrom(m, t, 0) == [Hit("ba", "ab", 0, 1)];
  }

  /** A sound hit on the reversed text, moved back and turned round, is a sound hit on the text. */
  lemma {:induction false} MovedHitSound<V>(pre: Paths<V>, suf: Paths<V>, text: string, g: Hit<V>)
    requires Mirrored(pre, suf)
    requires Sound(suf, Reverse(text), g)
    ensures Sound(pre, text, TurnBack(g, |text| - 1))
  {
    var h := TurnBack(g, |text| - 1);
    var w := text[h.start..h.end + 1];
    ReverseSlice(text, g.start, g.end + 1);
    assert g.word == Reverse(w);
    ReverseReverse(w);
    assert h.word == w;
    assert Val(pre, w) == Val(suf, Reverse(w));
  }

  /**
   * Corrected backward parsing: every hit names its own piece of the text,
   * and that piece is a word whose value the prefix trie holds.
   */
  lemma {:induction false} BackwardFixedSound<V>(pre: Paths<V>, suf: Paths<V>, text: string)
    requires Mirrored(pre, suf)
    ensures var hs := BackwardFixed(LongestFrom(suf, Reverse(text), 0), |text| - 1);
            forall k :: 0 <= k < |hs| ==> Sound(pre, text, hs[k])
  {
    var hits := LongestFrom(suf, Reverse(text), 0);
    var hs := BackwardFixed(hits, |text| - 1);
    LongestFromSound(suf, Reverse(text), 0);
    forall k | 0 <= k < |hs|
      ensures Sound(pre, text, hs[k])
    {
      var g := hits[|hits| - 1 - k];
      assert g in hits;
      MovedHitSound(pre, suf, text, g);
    }
  }

  /** Corrected backward parsing lists its hits in increasing order without overlap. */
  lemma {:induction false} BackwardFixedOrdered<V>(suf: Paths<V>, text: string)
    ensures var hs := BackwardFixed(LongestFrom(suf, Reverse(text), 0), |text| - 1);
            forall k, l :: 0 <= k < l < |hs| ==> hs[k].end < hs[l].start
  {
    var hits := LongestFrom(suf, Reverse(text), 0);
    var hs := BackwardFixed(hits, |text| - 1);
    LongestFromOrdered(suf, Reverse(text), 0);
    forall k, l | 0 <= k < l < |hs|
      ensures hs[k].end < hs[l].start
    {
      var a := |hits| - 1 - k;
      var b := |hits| - 1 - l;
      assert hits[b].end < hits[a].start;
      assert hs[k].end == |text| - 1 - hits[a].start;
      assert hs[l].start == |text| - 1 - hits[b].end;
    }
  }

  class TrieDict {
    /** Maps each word to its value. */
    const prefixTrie: Trie<string>
    /** Maps each reversed word to its value. */
    const suffixTrie: Trie<string>

    ghost predicate Valid()
      reads this, prefixTrie, suffixTrie
    {
      prefixTrie != suffixTrie && prefixTrie.Valid() && suffixTrie.Valid() &&
      Mirrored(prefixTrie.nodes, suffixTrie.nodes)
    }

    /** TrieDict(dic): each word valued by itself, forwards in one trie and reversed in the other. */
    constructor (words: seq<string>)
      ensures Valid() && fresh(prefixTrie) && fresh(suffixTrie)
      ensures prefixTrie.nodes == SetAll(map["" := None], PrefixPairs(words))
      ensures suffixTrie.nodes == SetAll(map["" := None], SuffixPairs(words))
    {
      prefixTrie := new Trie(PrefixPairs(words));
      suffixTrie := new Trie(SuffixPairs(words));
      BuildMirrored(words);
    }

    predicate Contains(key: string)
      reads this, prefixTrie, suffixTrie
      requires Valid()
    {
      prefixTrie.Get(key).Some?
    }

    function Get(key: string): (r: Option<string>)
      reads this, prefixTrie, suffixTrie
      requires Valid()
      ensures r == Val(suffixTrie.nodes, Reverse(key))
    {
      prefixTrie.Get(key)
    }

    /** `__setitem__`: the key in the prefix trie, the reversed key in the suffix trie. */
    method Set(key: string, value: Option<string>)
      requires Valid()
      modifies prefixTrie, suffixTrie
      ensures Valid()
      ensures prefixTrie.nodes == SetKey(old(prefixTrie.nodes), key, value)
      ensures suffixTrie.nodes == SetKey(old(suffixTrie.nodes), Reverse(key), value)
    {
      SetKeepsMirrored(prefixTrie.nodes, suffixTrie.nodes, key, value);
      prefixTrie.Set(key, value);
      suffixTrie.Set(Reverse(key), value);
    }

    /** `__delitem__`: clear the key's value in both tries. */
    method Delete(key: string)
      requires Valid()
      modifies prefixTrie, suffixTrie
      ensures Valid()
      ensures prefixTrie.nodes == if key in old(prefixTrie.nodes) then old(prefixTrie.nodes)[key := None] else old(prefixTrie.nodes)
      ensures suffixTrie.nodes ==
                if Reverse(key) in old(suffixTrie.nodes) then old(suffixTrie.nodes)[Reverse(key) := None] else old(suffixTrie.nodes)
      ensures !Contains(key) && Val(suffixTrie.nodes, Reverse(key)).None?
      ensures forall k :: k != key ==> Val(prefixTrie.nodes, k) == Val(old(prefixTrie.nodes), k)
    {
      ghost var pre := prefixTrie.nodes;
      ghost var suf := suffixTrie.nodes;
      prefixTrie.Delete(key);
      suffixTrie.Delete(Reverse(key));
      forall k
        ensures Val(prefixTrie.nodes, k) == Val(suffixTrie.nodes, Reverse(k))
      {
        assert Val(pre, k) == Val(suf, Reverse(k));
        if Reverse(k) == Reverse(key) {
          ReverseInjective(k, key);
        }
      }
    }

    method ForwardParseLongest(text: string) returns (found: seq<Hit<string>>)
      requires Valid()
      ensures found == LongestFrom(prefixTrie.nodes, text, 0)
    {
      found := prefixTrie.ParseLongest(text);
    }

    /** backward_parse_longest, as written: longest match on the reversed text, mapped back. */
    method BackwardParseLongest(text: string) returns (founds: seq<Hit<string>>)
      requires Valid()
      ensures founds == BackwardAsWritten(LongestFrom(suffixTrie.nodes, Reverse(text), 0), |text| - 1)
      ensures forall h :: h in founds ==>
                0 <= h.start <= h.end < |text| && h.word == Reverse(text[h.start..h.end + 1])
      ensures forall k, l :: 0 <= k < l < |founds| ==> founds[k].end < founds[l].start
    {
      var hits := suffixTrie.ParseLongest(Reverse(text));
      founds := Reverse(hits);
      ReverseAt(hits);
      var length := |text| - 1;
      for index := 0 to |founds|
        invariant |founds| == |hits|
        invariant forall k :: 0 <= k < index ==> founds[k] == MoveBack(hits[|hits| - 1 - k], length)
        invariant forall k :: index <= k < |founds| ==> founds[k] == hits[|hits| - 1 - k]
      {
        var found := founds[index];
        founds := founds[index := Hit(found.word, found.value, length - found.end, length - found.start)];
      }
      assert founds == BackwardAsWritten(hits, length);
      BackwardAsWrittenWordsReversed(suffixTrie.nodes, text);
    }

    /**
     * parse_longest, which is backward parsing, with the words given in the
     * text's own order; see `BackwardFixedSound`.
     */
    method ParseLongest(text: string) returns (founds: seq<Hit<string>>)
      requires Valid()
      ensures founds == BackwardFixed(LongestFrom(suffixTrie.nodes, Reverse(text), 0), |text| - 1)
      ensures forall k :: 0 <= k < |founds| ==> Sound(prefixTrie.nodes, text, founds[k])
      ensures forall k, l :: 0 <= k < l < |founds| ==> founds[k].end < founds[l].start
    {
      var hits := suffixTrie.ParseLongest(Reverse(text));
      founds := Reverse(hits);
      ReverseAt(hits);
      var length := |text| - 1;
      for index := 0 to |founds|
        invariant |founds| == |hits|
        invariant forall k :: 0 <= k < index ==> founds[k] == TurnBack(hits[|hits| - 1 - k], length)
        invariant forall k :: index <= k < |founds| ==> founds[k] == hits[|hits| - 1 - k]
      {
        var found := founds[index];
        founds := founds[index := Hit(Reverse(found.word), found.value, length - found.end, length - found.start)];
      }
      BackwardFixedSound(prefixTrie.nodes, suffixTrie.nodes, text);
      BackwardFixedOrdered(suffixTrie.nodes, text);
    }
  }
}
