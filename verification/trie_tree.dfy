/**
 * The word trie of tree/trie_tree/trie_tree.py. Every node has 27 child
 * slots, one per character of the alphabet a-z and space; it counts the
 * insertions that passed through it (`count`), whether a word ends there
 * (`is_end`) and how many times that word was inserted (`word_count`).
 *
 * A node is identified here by the path of characters leading to it, so the
 * tree is a map from paths to counters; the root is the empty path.
 */
module PrefixTree {
  import opened Wrappers

  /** The characters a node branches on, in child-slot order. */
  const Chars: string := "abcdefghijklmnopqrstuvwxyz "

  /** The outcome of a query: a value, or the exception it raises. */
  datatype Py<T> = Ok(val: T) | KeyError | AttributeError

  /** A node's counters: `count`, `is_end`, `word_count`. */
  datatype Info = Info(count: nat, isEnd: bool, wordCount: nat)

  type Nodes = map<string, Info>

  /** A new tree: the root alone, every counter zero. */
  function Empty(): Nodes
  {
    map[[] := Info(0, false, 0)]
  }

  /** A key of `char_to_index`: a lower-case letter or the space. */
  predicate InAlphabet(c: char)
  {
    'a' <= c <= 'z' || c == ' '
  }

  /** The alphabet is exactly the child-slot characters. */
  lemma AlphabetChars(c: char)
    ensures InAlphabet(c) <==> c in Chars
  {
    if 'a' <= c <= 'z' {
      assert Chars[c as int - 'a' as int] == c;
    } else if c == ' ' {
      assert Chars[26] == c;
    } else {
      assert forall i :: 0 <= i < |Chars| ==> InAlphabet(Chars[i]);
    }
  }

  /** Every character is in the alphabet; any other raises KeyError in `char_to_index`. */
  ghost predicate Alphabetic(w: string)
  {
    forall i :: 0 <= i < |w| ==> InAlphabet(w[i])
  }

  ghost predicate AllAlphabetic(ws: seq<string>)
  {
    forall j :: 0 <= j < |ws| ==> Alphabetic(ws[j])
  }

  predicate IsPrefix(p: string, w: string)
  {
    |p| <= |w| && p == w[..|p|]
  }

  /** The path of a node's parent. */
  function Parent(p: string): string
    requires p != []
  {
    p[..|p| - 1]
  }

  /** The shape every tree has: a root, a parent for every other node, alphabet paths only. */
  ghost predicate WellFormed(nodes: Nodes)
  {
    [] in nodes &&
    (forall p {:trigger Parent(p)} :: p in nodes && p != [] ==> Parent(p) in nodes) &&
    (forall p :: p in nodes ==> Alphabetic(p))
  }

  // ---------------------------------------------------------------------------
  // Insertion
  // ---------------------------------------------------------------------------

  /**
   * `__put`'s loop after `k` characters of `w`: each node on the path
   * `w[..1]`, ..., `w[..k]` counts one more insertion, a missing one being
   * created with count 1.
   */
  function Bumped(m: Nodes, w: string, k: nat): (r: Nodes)
    requires k <= |w|
    ensures forall p :: p in m ==> p in r
    ensures forall i :: 1 <= i <= k ==> w[..i] in r
  {
    if k == 0 then m else Bump(Bumped(m, w, k - 1), w[..k])
  }

  /** One step of `__put`'s loop: the node at `q` counts one more insertion, created with count 1 if missing. */
  function Bump(b: Nodes, q: string): Nodes
  {
    b[q := if q in b then b[q].(count := b[q].count + 1) else Info(1, false, 0)]
  }

  /** `__put`: the path of `w` bumped, its last node marked as a word end with one more occurrence. */
  function Added(m: Nodes, w: string): (r: Nodes)
    requires [] in m
    ensures forall p :: p in m ==> p in r
  {
    var b := Bumped(m, w, |w|);
    assert w in b by {
      if w != [] {
        assert w[..|w|] == w;
      }
    }
    MarkEnd(b, w)
  }

  /** The end of `__put`: the node at `w` becomes a word end with one more occurrence. */
  function MarkEnd(b: Nodes, w: string): Nodes
    requires w in b
  {
    b[w := b[w].(isEnd := true, wordCount := b[w].wordCount + 1)]
  }

  lemma {:induction false} BumpedAt(m: Nodes, w: string, k: nat, p: string)
    requires k <= |w|
    ensures p in Bumped(m, w, k) <==> p in m || (1 <= |p| <= k && p == w[..|p|])
    ensures p in Bumped(m, w, k) ==>
              Bumped(m, w, k)[p] ==
                if 1 <= |p| <= k && p == w[..|p|] then
                  (if p in m then m[p].(count := m[p].count + 1) else Info(1, false, 0))
                else m[p]
  {
    if k > 0 {
      BumpedAt(m, w, k - 1, p);
    }
  }

  /** What one insertion does to the node at path `p`. */
  lemma AddedAt(m: Nodes, w: string, p: string)
    requires [] in m
    ensures p in Added(m, w) <==> p in m || (p != [] && IsPrefix(p, w))
    ensures p in Added(m, w) ==>
              Added(m, w)[p].count ==
                (if p != [] && IsPrefix(p, w) then (if p in m then m[p].count else 0) + 1 else m[p].count)
    ensures p in Added(m, w) ==>
              Added(m, w)[p].wordCount == (if p in m then m[p].wordCount else 0) + (if p == w then 1 else 0)
    ensures p in Added(m, w) ==>
              (Added(m, w)[p].isEnd <==> (p in m && m[p].isEnd) || p == w)
  {
    BumpedAt(m, w, |w|, p);
  }

  /** The tree after inserting the words `ws` in order into a new tree. */
  function Build(ws: seq<string>): (r: Nodes)
    ensures [] in r
  {
    if ws == [] then Empty() else Added(Build(ws[..|ws| - 1]), ws[|ws| - 1])
  }

  /** How many of `ws` have `p` as a prefix. */
  function PrefixCount(ws: seq<string>, p: string): nat
  {
    if ws == [] then 0
    else PrefixCount(ws[..|ws| - 1], p) + (if IsPrefix(p, ws[|ws| - 1]) then 1 else 0)
  }

  lemma {:induction false} OccurrencesArePrefixed(ws: seq<string>, p: string)
    ensures multiset(ws)[p] <= PrefixCount(ws, p)
  {
    if ws != [] {
      var init, w := ws[..|ws| - 1], ws[|ws| - 1];
      assert ws == init + [w];
      OccurrencesArePrefixed(init, p);
    }
  }

  /**
   * The counters after a sequence of insertions: a node exists for every
   * prefix of an inserted word; its `count` is the number of insertions
   * with that prefix (the root's stays 0); its `word_count` is the number
   * of insertions of exactly that word, and `is_end` holds iff there was one.
   */
  lemma {:induction false} BuildAt(ws: seq<string>, p: string)
    ensures p in Build(ws) <==> p == [] || PrefixCount(ws, p) > 0
    ensures p in Build(ws) && p != [] ==> Build(ws)[p].count == PrefixCount(ws, p)
    ensures Build(ws)[[]].count == 0
    ensures p in Build(ws) ==> Build(ws)[p].wordCount == multiset(ws)[p]
    ensures p in Build(ws) ==> (Build(ws)[p].isEnd <==> p in ws)
  {
    if ws != [] {
      var init, w := ws[..|ws| - 1], ws[|ws| - 1];
      assert ws == init + [w];
      BuildAt(init, p);
      BuildAt(init, []);
      AddedAt(Build(init), w, p);
      AddedAt(Build(init), w, []);
      OccurrencesArePrefixed(init, p);
    }
  }

  lemma {:induction false} ParentPrefixCount(ws: seq<string>, p: string)
    requires p != []
    ensures PrefixCount(ws, p) <= PrefixCount(ws, p[..|p| - 1])
  {
    if ws != [] {
      ParentPrefixCount(ws[..|ws| - 1], p);
    }
  }

  lemma {:induction false} PrefixCountAlphabetic(ws: seq<string>, p: string)
    requires AllAlphabetic(ws) && PrefixCount(ws, p) > 0
    ensures Alphabetic(p)
  {
    var init, w := ws[..|ws| - 1], ws[|ws| - 1];
    if PrefixCount(init, p) > 0 {
      assert AllAlphabetic(init) by {
        forall j | 0 <= j < |init| ensures Alphabetic(init[j]) {
          assert init[j] == ws[j];
        }
      }
      PrefixCountAlphabetic(init, p);
    } else {
      assert Alphabetic(w);
      forall i | 0 <= i < |p| ensures InAlphabet(p[i]) {
        assert p[i] == w[i];
      }
    }
  }

  /** Inserting words of the alphabet gives a well-formed tree. */
  lemma BuildWellFormed(ws: seq<string>)
    requires AllAlphabetic(ws)
    ensures WellFormed(Build(ws))
  {
    forall p | p in Build(ws) && p != []
      ensures Parent(p) in Build(ws)
    {
      BuildAt(ws, p);
      ParentPrefixCount(ws, p);
      BuildAt(ws, p[..|p| - 1]);
    }
    forall p | p in Build(ws)
      ensures Alphabetic(p)
    {
      BuildAt(ws, p);
      if p != [] {
        PrefixCountAlphabetic(ws, p);
      }
    }
  }

  /** Every prefix of a node of a well-formed tree is a node. */
  lemma {:induction false} PrefixesPresent(nodes: Nodes, x: string, i: nat)
    requires WellFormed(nodes) && x in nodes && i <= |x|
    ensures x[..i] in nodes
    decreases |x| - i
  {
    if i < |x| {
      PrefixesPresent(nodes, x, i + 1);
      assert Parent(x[..i + 1]) == x[..i];
    } else {
      assert x[..i] == x;
    }
  }

  /** Re-inserting a word already in the tree creates no node. */
  lemma ReinsertCreatesNothing(m: Nodes, w: string)
    requires WellFormed(m) && w in m
    ensures Added(m, w).Keys == m.Keys
  {
    forall p | p in Added(m, w)
      ensures p in m
    {
      AddedAt(m, w, p);
      if p !in m {
        PrefixesPresent(m, w, |p|);
      }
    }
  }

  // ---------------------------------------------------------------------------
  // Walking down a path
  // ---------------------------------------------------------------------------

  /**
   * Where the loop of `_search`, `count_word` and `list_by_prefix` stands:
   * at a node; just past a missing child (`current` is None); returned
   * early, because `current` was None when a character remained; or stopped
   * by a KeyError.
   */
  datatype Cursor = At(path: string) | Missing | Returned | BadKey

  function Step(nodes: Nodes, cur: Cursor, c: char): Cursor
  {
    match cur
    case At(p) => if !InAlphabet(c) then BadKey else if p + [c] in nodes then At(p + [c]) else Missing
    case Missing => Returned
    case Returned => Returned
    case BadKey => BadKey
  }

  /** The cursor after the first `i` characters of `word`. */
  function WalkTo(nodes: Nodes, word: string, i: nat): (r: Cursor)
    requires i <= |word|
    ensures r.At? ==> r.path in nodes || (i == 0 && r.path == [])
  {
    if i == 0 then At([]) else Step(nodes, WalkTo(nodes, word, i - 1), word[i - 1])
  }

  /** The first character of `word` after a node that is not in the alphabet. */
  ghost predicate BadAt(nodes: Nodes, word: string, j: nat)
  {
    j < |word| && word[..j] in nodes && !InAlphabet(word[j])
  }

  /**
   * In a well-formed tree the walk is at a node exactly when that prefix is
   * a node, and it hits a KeyError exactly when some node is followed by a
   * character outside the alphabet.
   */
  lemma {:induction false} WalkToAt(nodes: Nodes, word: string, i: nat)
    requires WellFormed(nodes) && i <= |word|
    ensures WalkTo(nodes, word, i).At? <==> word[..i] in nodes
    ensures WalkTo(nodes, word, i).At? ==> WalkTo(nodes, word, i).path == word[..i]
    ensures WalkTo(nodes, word, i).BadKey? <==> exists j: nat :: j < i && BadAt(nodes, word, j)
    ensures WalkTo(nodes, word, i).Missing? ==> i >= 1 && word[..i - 1] in nodes && word[..i] !in nodes
  {
    if i > 0 {
      WalkToAt(nodes, word, i - 1);
      var prev := WalkTo(nodes, word, i - 1);
      var w, c := word[..i - 1], word[i - 1];
      assert word[..i] == w + [c];
      if word[..i] in nodes {
        PrefixesPresent(nodes, word[..i], i - 1);
        assert word[..i][..i - 1] == w;
        assert InAlphabet(word[..i][i - 1]);
      }
      match prev
      case At(p) =>
        if !InAlphabet(c) {
          assert BadAt(nodes, word, i - 1);
        } else {
          forall j: nat | j < i ensures !BadAt(nodes, word, j) {
          }
        }
      case Missing =>
        forall j: nat | j < i ensures !BadAt(nodes, word, j) {
        }
      case Returned =>
        forall j: nat | j < i ensures !BadAt(nodes, word, j) {
        }
      case BadKey =>
        var j: nat :| j < i - 1 && BadAt(nodes, word, j);
        assert j < i && BadAt(nodes, word, j);
    }
  }

  /** Once the walk has returned or raised, it stays so. */
  lemma {:induction false} WalkSettles(nodes: Nodes, word: string, i: nat, j: nat)
    requires i < j <= |word|
    requires WalkTo(nodes, word, i).Missing? || WalkTo(nodes, word, i).Returned? || WalkTo(nodes, word, i).BadKey?
    ensures WalkTo(nodes, word, j) == if WalkTo(nodes, word, i).BadKey? then BadKey else Returned
  {
    if j > i + 1 {
      WalkSettles(nodes, word, i, j - 1);
    }
  }

  /** `_search`: true iff the walk ends on a node where a word ends. */
  function SearchIn(nodes: Nodes, word: string): Py<bool>
  {
    match WalkTo(nodes, word, |word|)
    case At(p) => Ok(p in nodes && nodes[p].isEnd)
    case Missing => Ok(false)
    case Returned => Ok(false)
    case BadKey => KeyError
  }

  /** `count_word`, with a path missing at its last character answered 0 as it is when missing earlier. */
  function CountIn(nodes: Nodes, word: string): Py<nat>
  {
    match WalkTo(nodes, word, |word|)
    case At(p) => Ok(if p in nodes && nodes[p].isEnd then nodes[p].wordCount else 0)
    case Missing => Ok(0)
    case Returned => Ok(0)
    case BadKey => KeyError
  }

  /**
   * `count_word` as written: when only the last character's node is
   * missing, the loop ends normally and `current.is_end` is read on None.
   */
  function CountAsWritten(nodes: Nodes, word: string): Py<nat>
  {
    match WalkTo(nodes, word, |word|)
    case At(p) => Ok(if p in nodes && nodes[p].isEnd then nodes[p].wordCount else 0)
    case Missing => AttributeError
    case Returned => Ok(0)
    case BadKey => KeyError
  }

  /** Deleting nothing else: the queries agree with the inserted words. */
  lemma SearchMeaning(ws: seq<string>, word: string)
    requires AllAlphabetic(ws)
    ensures SearchIn(Build(ws), word).KeyError? <==> exists j: nat :: j < |word| && BadAt(Build(ws), word, j)
    ensures SearchIn(Build(ws), word).Ok? ==> (SearchIn(Build(ws), word).val <==> word in ws)
    ensures CountIn(Build(ws), word).KeyError? <==> SearchIn(Build(ws), word).KeyError?
    ensures CountIn(Build(ws), word).Ok? ==> CountIn(Build(ws), word).val == multiset(ws)[word]
  {
    var nodes := Build(ws);
    BuildWellFormed(ws);
    WalkToAt(nodes, word, |word|);
    assert word[..|word|] == word;
    BuildAt(ws, word);
    OccurrencesArePrefixed(ws, word);
    if word !in nodes && word != [] {
      assert IsPrefix(word, word);
    }
  }

  /** A word of the alphabet never raises KeyError. */
  lemma AlphabeticNoKeyError(nodes: Nodes, word: string)
    requires Alphabetic(word)
    ensures forall j: nat :: j < |word| ==> !BadAt(nodes, word, j)
  {
  }

  /** The discrepancy: on a tree holding only "a", counting "z" raises where it should give 0. */
  lemma CountLastMissingRaises()
    ensures CountAsWritten(Build(["a"]), "z") == AttributeError
    ensures CountIn(Build(["a"]), "z") == Ok(0)
  {
    var nodes := Build(["a"]);
    BuildAt(["a"], "z");
    assert "z"[0] != "a"[0];
    assert !IsPrefix("z", "a");
    assert WalkTo(nodes, "z", 1) == Step(nodes, At([]), 'z');
    assert [] + ['z'] == "z";
  }

  // ---------------------------------------------------------------------------
  // Listing by prefix
  // ---------------------------------------------------------------------------

  /** An upper bound on the length of the paths in `s`. */
  ghost function MaxLen(s: set<string>): (n: nat)
    ensures forall p :: p in s ==> |p| <= n
    decreases s
  {
    if s == {} then 0
    else
      var p :| p in s;
      var m := MaxLen(s - {p});
      if |p| > m then |p| else m
  }

  /** `list`: the word ends strictly below `p`, depth first, children in alphabet order. */
  function ListFrom(nodes: Nodes, p: string): seq<string>
    requires p in nodes
    decreases MaxLen(nodes.Keys) - |p|, 2, 0
  {
    ListUpTo(nodes, p, |Chars|)
  }

  /** The part of `list` at `p` that visits the first `k` child slots. */
  function ListUpTo(nodes: Nodes, p: string, k: nat): seq<string>
    requires p in nodes && k <= |Chars|
    decreases MaxLen(nodes.Keys) - |p|, 1, k
  {
    if k == 0 then [] else ListUpTo(nodes, p, k - 1) + ListSlot(nodes, p, k - 1)
  }

  /** What `list` adds for child slot `k` of `p`: the child if a word ends there, then the words below it. */
  function ListSlot(nodes: Nodes, p: string, k: nat): seq<string>
    requires p in nodes && k < |Chars|
    decreases MaxLen(nodes.Keys) - |p|, 0, 0
  {
    var q := p + [Chars[k]];
    if q in nodes then (if nodes[q].isEnd then [q] else []) + ListFrom(nodes, q) else []
  }

  lemma AppendAssoc<T>(a: seq<T>, b: seq<T>, c: seq<T>)
    ensures (a + b) + c == a + (b + c)
  {
  }

  predicate Below(p: string, x: string)
  {
    |p| < |x| && x[..|p|] == p
  }

  /** `list` from `p` lists exactly the word ends strictly below `p`. */
  lemma {:induction false} ListFromHas(nodes: Nodes, p: string, x: string)
    requires WellFormed(nodes) && p in nodes
    ensures x in ListFrom(nodes, p) <==> x in nodes && nodes[x].isEnd && Below(p, x)
    decreases MaxLen(nodes.Keys) - |p|, 2, 0
  {
    ListUpToHas(nodes, p, |Chars|, x);
    assert Chars[..|Chars|] == Chars;
    if x in nodes && Below(p, x) {
      assert Alphabetic(x);
      AlphabetChars(x[|p|]);
    }
  }

  lemma {:induction false} ListUpToHas(nodes: Nodes, p: string, k: nat, x: string)
    requires WellFormed(nodes) && p in nodes && k <= |Chars|
    ensures x in ListUpTo(nodes, p, k) <==>
              x in nodes && nodes[x].isEnd && Below(p, x) && x[|p|] in Chars[..k]
    decreases MaxLen(nodes.Keys) - |p|, 1, k
  {
    if k > 0 {
      ListUpToHas(nodes, p, k - 1, x);
      ListSlotHas(nodes, p, k - 1, x);
      if x in nodes && Below(p, x) {
        TakeOneMore(Chars, k - 1, x[|p|]);
      }
    }
  }

  lemma TakeOneMore<T>(s: seq<T>, k: nat, c: T)
    requires k < |s|
    ensures c in s[..k + 1] <==> c in s[..k] || c == s[k]
  {
    assert s[..k + 1] == s[..k] + [s[k]];
  }

  lemma ListSlotHas(nodes: Nodes, p: string, k: nat, x: string)
    requires WellFormed(nodes) && p in nodes && k < |Chars|
    ensures x in ListSlot(nodes, p, k) <==>
              x in nodes && nodes[x].isEnd && Below(p, x) && x[|p|] == Chars[k]
    decreases MaxLen(nodes.Keys) - |p|, 0, 1
  {
    if x in ListSlot(nodes, p, k) {
      ListSlotSound(nodes, p, k, x);
    }
    if x in nodes && nodes[x].isEnd && Below(p, x) && x[|p|] == Chars[k] {
      ListSlotComplete(nodes, p, k, x);
    }
  }

  /** Every word the slot lists is a word end below `p` through the slot's character. */
  lemma {:induction false} ListSlotSound(nodes: Nodes, p: string, k: nat, x: string)
    requires WellFormed(nodes) && p in nodes && k < |Chars|
    requires x in ListSlot(nodes, p, k)
    ensures x in nodes && nodes[x].isEnd && Below(p, x) && x[|p|] == Chars[k]
    decreases MaxLen(nodes.Keys) - |p|, 0, 0
  {
    var q := p + [Chars[k]];
    assert q[..|p|] == p;
    ListFromHas(nodes, q, x);
    if x != q {
      assert x in ListFrom(nodes, q);
      assert x[..|p|] == x[..|q|][..|p|];
      assert x[|p|] == q[|p|];
    }
  }

  /** Every word end below `p` through the slot's character is listed by the slot. */
  lemma {:induction false} ListSlotComplete(nodes: Nodes, p: string, k: nat, x: string)
    requires WellFormed(nodes) && p in nodes && k < |Chars|
    requires x in nodes && nodes[x].isEnd && Below(p, x) && x[|p|] == Chars[k]
    ensures x in ListSlot(nodes, p, k)
    decreases MaxLen(nodes.Keys) - |p|, 0, 0
  {
    var q := p + [Chars[k]];
    PrefixesPresent(nodes, x, |p| + 1);
    assert x[..|p| + 1] == q;
    if x != q {
      assert Below(q, x);
      ListFromHas(nodes, q, x);
    }
  }

  /** No element of `s` occurs twice. */
  predicate Distinct<T(==)>(s: seq<T>)
  {
    forall i, j :: 0 <= i < j < |s| ==> s[i] != s[j]
  }

  lemma DistinctCat<T>(a: seq<T>, b: seq<T>)
    requires Distinct(a) && Distinct(b)
    requires forall i :: 0 <= i < |a| ==> a[i] !in b
    ensures Distinct(a + b)
  {
    forall i, j | 0 <= i < j < |a + b|
      ensures (a + b)[i] != (a + b)[j]
    {
      if i < |a| && |a| <= j {
        assert (a + b)[i] == a[i] && (a + b)[j] == b[j - |a|];
      }
    }
  }

  /** The child slots carry different characters. */
  lemma CharsDistinct()
    ensures Distinct(Chars)
  {
  }

  /** `list` from `p` names every word at most once. */
  lemma {:induction false} ListFromDistinct(nodes: Nodes, p: string)
    requires WellFormed(nodes) && p in nodes
    ensures Distinct(ListFrom(nodes, p))
    decreases MaxLen(nodes.Keys) - |p|, 2, 0
  {
    ListUpToDistinct(nodes, p, |Chars|);
  }

  lemma {:induction false} ListUpToDistinct(nodes: Nodes, p: string, k: nat)
    requires WellFormed(nodes) && p in nodes && k <= |Chars|
    ensures Distinct(ListUpTo(nodes, p, k))
    decreases MaxLen(nodes.Keys) - |p|, 1, k
  {
    if k > 0 {
      ListUpToDistinct(nodes, p, k - 1);
      ListSlotDistinct(nodes, p, k - 1);
      CharsDistinct();
      var a, b := ListUpTo(nodes, p, k - 1), ListSlot(nodes, p, k - 1);
      forall i | 0 <= i < |a|
        ensures a[i] !in b
      {
        var x := a[i];
        ListUpToHas(nodes, p, k - 1, x);
        ListSlotHas(nodes, p, k - 1, x);
      }
      DistinctCat(a, b);
    }
  }

  lemma {:induction false} ListSlotDistinct(nodes: Nodes, p: string, k: nat)
    requires WellFormed(nodes) && p in nodes && k < |Chars|
    ensures Distinct(ListSlot(nodes, p, k))
    decreases MaxLen(nodes.Keys) - |p|, 0, 0
  {
    var q := p + [Chars[k]];
    if q in nodes {
      ListFromDistinct(nodes, q);
      ListFromHas(nodes, q, q);
      DistinctCat(if nodes[q].isEnd then [q] else [], ListFrom(nodes, q));
    }
  }

  /** `list_by_prefix`, with a path missing at its last character answered [] as it is when missing earlier. */
  function ListIn(nodes: Nodes, prefix: string): Py<seq<string>>
  {
    match WalkTo(nodes, prefix, |prefix|)
    case At(p) =>
      if p in nodes then Ok((if nodes[p].isEnd then [prefix] else []) + ListFrom(nodes, p)) else Ok([])
    case Missing => Ok([])
    case Returned => Ok([])
    case BadKey => KeyError
  }

  /** `list_by_prefix` as written: `current.is_end` is read on None when only the last character's node is missing. */
  function ListAsWritten(nodes: Nodes, prefix: string): Py<seq<string>>
  {
    match WalkTo(nodes, prefix, |prefix|)
    case At(p) =>
      if p in nodes then Ok((if nodes[p].isEnd then [prefix] else []) + ListFrom(nodes, p)) else Ok([])
    case Missing => AttributeError
    case Returned => Ok([])
    case BadKey => KeyError
  }

  /** `list_by_prefix` raises KeyError exactly when `_search` does. */
  lemma ListKeyError(ws: seq<string>, prefix: string)
    requires AllAlphabetic(ws)
    ensures ListIn(Build(ws), prefix).KeyError? <==> exists j: nat :: j < |prefix| && BadAt(Build(ws), prefix, j)
  {
    BuildWellFormed(ws);
    WalkToAt(Build(ws), prefix, |prefix|);
  }

  /** `list_by_prefix` names each word it lists once. */
  lemma ListInDistinct(nodes: Nodes, prefix: string)
    requires WellFormed(nodes)
    ensures ListIn(nodes, prefix).Ok? ==> Distinct(ListIn(nodes, prefix).val)
  {
    WalkToAt(nodes, prefix, |prefix|);
    assert prefix[..|prefix|] == prefix;
    if prefix in nodes {
      ListFromDistinct(nodes, prefix);
      ListFromHas(nodes, prefix, prefix);
      DistinctCat(if nodes[prefix].isEnd then [prefix] else [], ListFrom(nodes, prefix));
    }
  }

  /** `list_by_prefix` lists exactly the inserted words that start with the prefix. */
  lemma ListMeaning(ws: seq<string>, prefix: string, x: string)
    requires AllAlphabetic(ws)
    ensures ListIn(Build(ws), prefix).Ok? ==>
              (x in ListIn(Build(ws), prefix).val <==> x in ws && IsPrefix(prefix, x))
  {
    var nodes := Build(ws);
    BuildWellFormed(ws);
    WalkToAt(nodes, prefix, |prefix|);
    assert prefix[..|prefix|] == prefix;
    BuildAt(ws, x);
    OccurrencesArePrefixed(ws, x);
    if prefix in nodes {
      BuildAt(ws, prefix);
      ListFromHas(nodes, prefix, x);
      if IsPrefix(prefix, x) && |x| == |prefix| {
        assert x == prefix;
      }
    } else if x in nodes && |prefix| <= |x| {
      PrefixesPresent(nodes, x, |prefix|);
    }
  }

  /** The discrepancy: on a tree holding only "a", listing by the prefix "z" raises where it should give []. */
  lemma ListLastMissingRaises()
    ensures ListAsWritten(Build(["a"]), "z") == AttributeError
    ensures ListIn(Build(["a"]), "z") == Ok([])
  {
    var nodes := Build(["a"]);
    BuildAt(["a"], "z");
    assert "z"[0] != "a"[0];
    assert !IsPrefix("z", "a");
    assert WalkTo(nodes, "z", 1) == Step(nodes, At([]), 'z');
    assert [] + ['z'] == "z";
  }

  // ---------------------------------------------------------------------------
  // Splitting text into words
  // ---------------------------------------------------------------------------

  /** `c[s..e]` is a word of `words`. */
  predicate WordSpan(words: set<string>, c: string, s: nat, e: nat)
  {
    s <= e <= |c| && c[s..e] in words
  }

  /** The longest word starting at `s` and ending by `e`: its end, or None. */
  function LongestEnd(words: set<string>, c: string, s: nat, e: nat): (r: Option<nat>)
    requires s <= e <= |c|
    ensures r.Some? ==> s < r.value <= e && WordSpan(words, c, s, r.value)
    ensures r.Some? ==> forall e' :: r.value < e' <= e ==> !WordSpan(words, c, s, e')
    ensures r.None? ==> forall e' :: s < e' <= e ==> !WordSpan(words, c, s, e')
    decreases e
  {
    if e <= s then None
    else if WordSpan(words, c, s, e) then Some(e)
    else LongestEnd(words, c, s, e - 1)
  }

  /**
   * Forward maximum matching: from position `s`, take the longest word
   * starting there and continue after it, or skip one character when no
   * word starts there.
   */
  function ForwardSplit(words: set<string>, c: string, s: nat): seq<string>
    requires s <= |c|
    decreases |c| - s
  {
    if s == |c| then []
    else
      match LongestEnd(words, c, s, |c|)
      case Some(e) => [c[s..e]] + ForwardSplit(words, c, e)
      case None => ForwardSplit(words, c, s + 1)
  }

  /** The shortest start `s'` at or after `s` of a word ending at `e`, or None. */
  function FirstStart(words: set<string>, c: string, s: nat, e: nat): (r: Option<nat>)
    requires s <= e <= |c|
    ensures r.Some? ==> s <= r.value < e && WordSpan(words, c, r.value, e)
    ensures r.Some? ==> forall s' :: s <= s' < r.value ==> !WordSpan(words, c, s', e)
    ensures r.None? ==> forall s' :: s <= s' < e ==> !WordSpan(words, c, s', e)
    decreases e - s
  {
    if s == e then None
    else if WordSpan(words, c, s, e) then Some(s)
    else FirstStart(words, c, s + 1, e)
  }

  /**
   * Backward maximum matching from the end `e`: take the longest word ending
   * there and continue before it, or drop one character when none ends
   * there. With nothing left before a word that started at 0 the split
   * stops; reaching the end 0 by dropping characters asks once more whether
   * the empty string is a word.
   */
  function BackwardSplit(words: set<string>, c: string, e: int): seq<string>
    requires -1 <= e <= |c|
    decreases e + 1
  {
    if e == -1 then []
    else if e == 0 then (if [] in words then [[]] else [])
    else
      match FirstStart(words, c, 0, e)
      case Some(s) => [c[s..e]] + (if s == 0 then [] else BackwardSplit(words, c, s))
      case None => BackwardSplit(words, c, e - 1)
  }

  /** One step of forward matching: the longest word at `s` ends at `e`. */
  lemma ForwardFound(words: set<string>, c: string, s: nat, e: nat)
    requires s < e <= |c| && WordSpan(words, c, s, e)
    requires forall e' :: e < e' <= |c| ==> !WordSpan(words, c, s, e')
    ensures ForwardSplit(words, c, s) == [c[s..e]] + ForwardSplit(words, c, e)
  {
    assert LongestEnd(words, c, s, |c|) == Some(e);
  }

  /** One step of forward matching: no word starts at `s`. */
  lemma ForwardNone(words: set<string>, c: string, s: nat)
    requires s < |c|
    requires forall e' :: s < e' <= |c| ==> !WordSpan(words, c, s, e')
    ensures ForwardSplit(words, c, s) == ForwardSplit(words, c, s + 1)
  {
    assert LongestEnd(words, c, s, |c|).None?;
  }

  /** One step of backward matching: the longest word ending at `e` starts at `s`. */
  lemma BackwardFound(words: set<string>, c: string, s: nat, e: nat)
    requires 1 <= e <= |c| && s < e && WordSpan(words, c, s, e)
    requires forall s' :: 0 <= s' < s ==> !WordSpan(words, c, s', e)
    ensures BackwardSplit(words, c, e) == [c[s..e]] + (if s == 0 then [] else BackwardSplit(words, c, s))
  {
    assert FirstStart(words, c, 0, e) == Some(s);
  }

  /** One step of backward matching: no word ends at `e`. */
  lemma BackwardNone(words: set<string>, c: string, e: nat)
    requires 1 <= e <= |c|
    requires forall s' :: 0 <= s' < e ==> !WordSpan(words, c, s', e)
    ensures BackwardSplit(words, c, e) == BackwardSplit(words, c, e - 1)
  {
    assert FirstStart(words, c, 0, e).None?;
  }

  lemma SliceAlphabetic(c: string, s: nat, e: nat)
    requires Alphabetic(c) && s <= e <= |c|
    ensures Alphabetic(c[s..e])
  {
    forall i | 0 <= i < e - s ensures InAlphabet(c[s..e][i]) {
      assert c[s..e][i] == c[s + i];
    }
  }

  /** Every piece of a forward split is a non-empty word. */
  lemma {:induction false} ForwardSplitWords(words: set<string>, c: string, s: nat)
    requires s <= |c|
    ensures forall x :: x in ForwardSplit(words, c, s) ==> x in words && x != []
    decreases |c| - s
  {
    if s < |c| {
      match LongestEnd(words, c, s, |c|)
      case Some(e) => ForwardSplitWords(words, c, e);
      case None => ForwardSplitWords(words, c, s + 1);
    }
  }

  /** Every piece of a backward split is a word. */
  lemma {:induction false} BackwardSplitWords(words: set<string>, c: string, e: int)
    requires -1 <= e <= |c|
    ensures forall x :: x in BackwardSplit(words, c, e) ==> x in words
    decreases e + 1
  {
    if e > 0 {
      match FirstStart(words, c, 0, e)
      case Some(s) =>
        if s > 0 {
          BackwardSplitWords(words, c, s);
        }
      case None => BackwardSplitWords(words, c, e - 1);
    }
  }

  /** A text that is itself a word comes back whole, either way. */
  lemma WholeWordSplits(words: set<string>, c: string)
    requires c in words && c != []
    ensures ForwardSplit(words, c, 0) == [c]
    ensures BackwardSplit(words, c, |c|) == [c]
  {
    assert c[0..|c|] == c;
    assert WordSpan(words, c, 0, |c|);
  }

  /** With an empty dictionary neither split finds anything. */
  lemma {:induction false} SplitsWithoutWords(c: string, s: nat, e: int)
    requires s <= |c| && -1 <= e <= |c|
    ensures ForwardSplit({}, c, s) == []
    ensures BackwardSplit({}, c, e) == []
    decreases |c| - s + e + 1
  {
    if s < |c| {
      SplitsWithoutWords(c, s + 1, e);
    }
    if e > 0 {
      SplitsWithoutWords(c, s, e - 1);
    }
  }

  /** The words of a sequence of insertions, as a set. */
  /** Inserting `w` last builds what `Added` gives, and keeps every inserted word alphabetic. */
  lemma BuildAppend(ws: seq<string>, w: string)
    requires AllAlphabetic(ws) && Alphabetic(w)
    ensures Build(ws + [w]) == Added(Build(ws), w)
    ensures AllAlphabetic(ws + [w])
  {
    var vs := ws + [w];
    assert vs[..|vs| - 1] == ws && vs[|vs| - 1] == w;
    forall j | 0 <= j < |vs| ensures Alphabetic(vs[j]) {
      if j < |ws| {
        assert vs[j] == ws[j];
      }
    }
  }

  function WordSet(ws: seq<string>): (r: set<string>)
    ensures forall w :: w in r <==> w in ws
  {
    set w | w in ws
  }

  // ---------------------------------------------------------------------------
  // The tree object
  // ---------------------------------------------------------------------------

  class TrieTree {
    /** The nodes, by path from the root. */
    var nodes: Nodes
    /** The words inserted so far, in order. */
    ghost var inserted: seq<string>

    ghost predicate Valid()
      reads this
    {
      AllAlphabetic(inserted) && nodes == Build(inserted)
    }

    constructor ()
      ensures Valid() && inserted == []
    {
      nodes := Empty();
      inserted := [];
    }

    /** `_insert`: walk the path of `word`, bumping and creating nodes, then mark its end. */
    method Insert(word: string)
      requires Valid() && Alphabetic(word)
      modifies this
      ensures Valid() && inserted == old(inserted) + [word]
      ensures nodes == Added(old(nodes), word)
    {
      ghost var m, ws := nodes, inserted;
      for i := 0 to |word|
        invariant nodes == Bumped(m, word, i) && inserted == ws
      {
        var q := word[..i + 1];
        ghost var b := nodes;
        if q in nodes {
          nodes := nodes[q := nodes[q].(count := nodes[q].count + 1)];
        } else {
          nodes := nodes[q := Info(1, false, 0)];
        }
        assert nodes == Bump(b, q);
      }
      assert word in nodes by {
        if word != [] {
          assert word[..|word|] == word;
        }
      }
      ghost var b := nodes;
      nodes := nodes[word := nodes[word].(isEnd := true, wordCount := nodes[word].wordCount + 1)];
      assert nodes == MarkEnd(b, word);
      inserted := ws + [word];
      BuildAppend(ws, word);
    }

    /** The loop shared by `_search`, `count_word` and `list_by_prefix`. */
    method Descend(word: string) returns (c: Cursor)
      ensures c == WalkTo(nodes, word, |word|)
    {
      c := At([]);
      var i := 0;
      while i < |word| && c.At?
        invariant 0 <= i <= |word| && c == WalkTo(nodes, word, i)
      {
        var p := c.path;
        if !InAlphabet(word[i]) {
          c := BadKey;
        } else if p + [word[i]] in nodes {
          c := At(p + [word[i]]);
        } else {
          c := Missing;
        }
        i := i + 1;
      }
      if i < |word| {
        WalkSettles(nodes, word, i, |word|);
        if c.Missing? {
          c := Returned;
        }
      }
    }

    /** `_search`: whether `word` was inserted, or KeyError. */
    method Search(word: string) returns (r: Py<bool>)
      requires Valid()
      ensures r == SearchIn(nodes, word)
      ensures r.KeyError? <==> exists j: nat :: j < |word| && BadAt(nodes, word, j)
      ensures r.Ok? ==> (r.val <==> word in inserted)
    {
      SearchMeaning(inserted, word);
      var c := Descend(word);
      match c
      case At(p) => r := Ok(p in nodes && nodes[p].isEnd);
      case Missing => r := Ok(false);
      case Returned => r := Ok(false);
      case BadKey => r := KeyError;
    }

    /** `count_word`, corrected: how many times `word` was inserted, or KeyError. */
    method CountWord(word: string) returns (r: Py<nat>)
      requires Valid()
      ensures r == CountIn(nodes, word)
      ensures r.KeyError? <==> exists j: nat :: j < |word| && BadAt(nodes, word, j)
      ensures r.Ok? ==> r.val == multiset(inserted)[word]
    {
      SearchMeaning(inserted, word);
      var c := Descend(word);
      match c
      case At(p) => r := Ok(if p in nodes && nodes[p].isEnd then nodes[p].wordCount else 0);
      case Missing => r := Ok(0);
      case Returned => r := Ok(0);
      case BadKey => r := KeyError;
    }

    /** `list`: appends the word ends below `p` to `acc`. */
    method List(p: string, acc: seq<string>) returns (out: seq<string>)
      requires p in nodes
      ensures out == acc + ListFrom(nodes, p)
      decreases MaxLen(nodes.Keys) - |p|, 1
    {
      out := acc;
      for k := 0 to |Chars|
        invariant out == acc + ListUpTo(nodes, p, k)
      {
        out := ListChild(p, k, out);
        AppendAssoc(acc, ListUpTo(nodes, p, k), ListSlot(nodes, p, k));
      }
    }

    /** One pass of the loop in `list`: child slot `k` of `p`, then the word ends below that child. */
    method ListChild(p: string, k: nat, acc: seq<string>) returns (out: seq<string>)
      requires p in nodes && k < |Chars|
      ensures out == acc + ListSlot(nodes, p, k)
      decreases MaxLen(nodes.Keys) - |p|, 0
    {
      var q := p + [Chars[k]];
      out := acc;
      if q in nodes {
        if nodes[q].isEnd {
          out := out + [q];
        }
        out := List(q, out);
        AppendAssoc(acc, if nodes[q].isEnd then [q] else [], ListFrom(nodes, q));
      }
    }

    /** `list_by_prefix`, corrected: the inserted words starting with `prefix`, or KeyError. */
    method ListByPrefix(prefix: string) returns (r: Py<seq<string>>)
      requires Valid()
      ensures r == ListIn(nodes, prefix)
      ensures r.KeyError? <==> exists j: nat :: j < |prefix| && BadAt(nodes, prefix, j)
      ensures r.Ok? ==> forall x :: x in r.val <==> x in inserted && IsPrefix(prefix, x)
      ensures r.Ok? ==> forall i, j :: 0 <= i < j < |r.val| ==> r.val[i] != r.val[j]
    {
      ListKeyError(inserted, prefix);
      BuildWellFormed(inserted);
      ListInDistinct(nodes, prefix);
      forall x
        ensures ListIn(nodes, prefix).Ok? ==>
                  (x in ListIn(nodes, prefix).val <==> x in inserted && IsPrefix(prefix, x))
      {
        ListMeaning(inserted, prefix, x);
      }
      var c := Descend(prefix);
      match c
      case At(p) =>
        if p in nodes {
          var result := if nodes[p].isEnd then [prefix] else [];
          result := List(p, result);
          r := Ok(result);
        } else {
          r := Ok([]);
        }
      case Missing => r := Ok([]);
      case Returned => r := Ok([]);
      case BadKey => r := KeyError;
    }

    /** The `_search` call both split methods make on a slice of alphabet text: whether it was inserted. */
    method SearchSlice(content: string, start: nat, end: nat) returns (found: bool)
      requires Valid() && Alphabetic(content) && start <= end <= |content|
      ensures found <==> WordSpan(WordSet(inserted), content, start, end)
    {
      var piece := content[start..end];
      SliceAlphabetic(content, start, end);
      AlphabeticNoKeyError(nodes, piece);
      var r := Search(piece);
      found := r == Ok(true);
    }

    /** `forward_split_content`, searching with `_search`: forward maximum matching over the inserted words. */
    method ForwardSplitContent(content: string) returns (result: seq<string>)
      requires Valid() && Alphabetic(content)
      ensures result == ForwardSplit(WordSet(inserted), content, 0)
    {
      ghost var words := WordSet(inserted);
      var start, end := 0, |content|;
      result := [];
      while start < |content|
        invariant start <= |content| + 1 && end <= |content|
        invariant start < |content| ==> start < end
        invariant start <= |content| ==> result + ForwardSplit(words, content, start) == ForwardSplit(words, content, 0)
        invariant start > |content| ==> result == ForwardSplit(words, content, 0)
        invariant start < |content| ==> forall e' :: end < e' <= |content| ==> !WordSpan(words, content, start, e')
        decreases |content| + 1 - start, end - start
      {
        var piece := content[start..end];
        var found := SearchSlice(content, start, end);
        if found {
          ForwardFound(words, content, start, end);
          AppendAssoc(result, [piece], ForwardSplit(words, content, end));
          result := result + [piece];
          start := end;
          end := |content|;
        } else {
          assert !WordSpan(words, content, start, end);
          end := end - 1;
        }
        if end <= start {
          if start < |content| {
            ForwardNone(words, content, start);
          }
          start := start + 1;
          end := |content|;
        }
      }
    }

    /** `backward_split_content`, searching with `_search`: backward maximum matching over the inserted words. */
    method BackwardSplitContent(content: string) returns (result: seq<string>)
      requires Valid() && Alphabetic(content)
      ensures result == BackwardSplit(WordSet(inserted), content, |content|)
    {
      ghost var words := WordSet(inserted);
      var start, end := 0, |content|;
      result := [];
      while end >= 0
        invariant -1 <= end <= |content| && 0 <= start
        invariant end >= 1 ==> start < end
        invariant end == 0 ==> start == 0
        invariant end >= 1 ==> forall s' :: 0 <= s' < start ==> !WordSpan(words, content, s', end)
        invariant result + BackwardSplit(words, content, end) == BackwardSplit(words, content, |content|)
        decreases end + 1, end - start
      {
        var piece := content[start..end];
        var found := SearchSlice(content, start, end);
        if found {
          if end >= 1 {
            BackwardFound(words, content, start, end);
            AppendAssoc(result, [piece], if start == 0 then [] else BackwardSplit(words, content, start));
          } else {
            assert BackwardSplit(words, content, 0) == [piece];
          }
          result := result + [piece];
          end := start;
          start := 0;
        } else {
          start := start + 1;
        }
        if start >= end {
          if end >= 1 {
            BackwardNone(words, content, end);
          }
          start := 0;
          end := end - 1;
        }
      }
    }
  }
}
