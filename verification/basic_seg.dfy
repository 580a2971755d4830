/**
 * Dictionary-based word segmentation by brute force
 * (nlp/commom/basic_seg_tool.py): full segmentation, forward and backward
 * maximum matching, and the bidirectional choice between the two.
 *
 * The dictionary is a set of words; results are lists of `Token`s
 * `(word, start, end)` with `end` inclusive.
 */
module BasicSeg {
  import opened SegTool

  type Dict = set<string>

  // ---------------------------------------------------------------------------
  // Shared vocabulary
  // ---------------------------------------------------------------------------

  /** The token names a piece of `text` by its own positions. */
  ghost predicate Spans(text: string, t: Token)
  {
    0 <= t.start <= t.end < |text| && t.word == text[t.start..t.end + 1]
  }

  /** `text[a..b]` is a dictionary word. */
  predicate WordAt(text: string, dic: Dict, a: int, b: int)
  {
    0 <= a <= b <= |text| && text[a..b] in dic
  }

  /** `text[a..last+1]` is a dictionary word: one ending at position `last`. */
  predicate WordThrough(text: string, dic: Dict, a: int, last: int)
  {
    0 <= a <= last < |text| && text[a..last + 1] in dic
  }

  /** `(start, end)` of `a` is lexicographically smaller than that of `b`. */
  predicate Before(a: Token, b: Token)
  {
    a.start < b.start || (a.start == b.start && a.end < b.end)
  }

  /** Consecutive tokens that cover the positions `lo .. hi-1` without gap or overlap. */
  ghost predicate Tiles(ts: seq<Token>, lo: int, hi: int)
  {
    (ts == [] ==> lo == hi) &&
    (ts != [] ==> ts[0].start == lo && ts[|ts| - 1].end + 1 == hi) &&
    (forall k :: 0 <= k < |ts| - 1 ==> ts[k + 1].start == ts[k].end + 1)
  }

  /** The words of the tokens, concatenated. */
  function Joined(ts: seq<Token>): string
  {
    if ts == [] then [] else ts[0].word + Joined(ts[1..])
  }

  /** A token followed by tokens that tile from just after it tiles from its start. */
  lemma TilesCons(t: Token, rest: seq<Token>, hi: int)
    requires Tiles(rest, t.end + 1, hi)
    ensures Tiles([t] + rest, t.start, hi)
  {
    var ts := [t] + rest;
    forall k | 0 <= k < |ts| - 1
      ensures ts[k + 1].start == ts[k].end + 1
    {
      assert ts[k + 1] == rest[k];
      if k > 0 {
        assert ts[k] == rest[k - 1];
      }
    }
  }

  /** Tokens that tile up to a token's start, followed by that token, tile up to just after it. */
  lemma TilesSnoc(init: seq<Token>, t: Token, lo: int)
    requires Tiles(init, lo, t.start)
    ensures Tiles(init + [t], lo, t.end + 1)
  {
    var ts := init + [t];
    forall k | 0 <= k < |ts| - 1
      ensures ts[k + 1].start == ts[k].end + 1
    {
      assert ts[k] == init[k];
      if k + 1 < |init| {
        assert ts[k + 1] == init[k + 1];
      }
    }
  }

  /** Tokens that span `text` and tile `lo .. hi-1` spell out `text[lo..hi]`. */
  lemma {:induction false} TilesSpell(text: string, ts: seq<Token>, lo: int, hi: int)
    requires 0 <= lo && hi <= |text|
    requires Tiles(ts, lo, hi)
    requires forall k :: 0 <= k < |ts| ==> Spans(text, ts[k])
    ensures lo <= hi && Joined(ts) == text[lo..hi]
  {
    if ts != [] {
      var next := ts[0].end + 1;
      if |ts| == 1 {
        assert Joined(ts[1..]) == [];
      } else {
        assert ts[1..][0].start == next;
        TilesSpell(text, ts[1..], next, hi);
      }
      assert text[lo..hi] == text[lo..next] + text[next..hi];
    }
  }

  // ---------------------------------------------------------------------------
  // Full segmentation
  // ---------------------------------------------------------------------------

  /**
   * fully_segment: every dictionary word occurring in `text`, once per
   * occurrence, ordered by start and then by end.
   */
  method FullySegment(text: string, dic: Dict) returns (ws: seq<Token>)
    ensures forall k :: 0 <= k < |ws| ==> Spans(text, ws[k]) && ws[k].word in dic
    ensures forall i, j :: 0 <= i < j <= |text| && text[i..j] in dic ==> Token(text[i..j], i, j - 1) in ws
    ensures forall k, l :: 0 <= k < l < |ws| ==> Before(ws[k], ws[l])
  {
    ws := [];
    for i := 0 to |text|
      invariant forall k :: 0 <= k < |ws| ==> Spans(text, ws[k]) && ws[k].word in dic && ws[k].start < i
      invariant forall a, b :: 0 <= a < i && a < b <= |text| && text[a..b] in dic ==> Token(text[a..b], a, b - 1) in ws
      invariant forall k, l :: 0 <= k < l < |ws| ==> Before(ws[k], ws[l])
    {
      for j := i + 1 to |text| + 1
        invariant forall k :: 0 <= k < |ws| ==> Spans(text, ws[k]) && ws[k].word in dic
        invariant forall k :: 0 <= k < |ws| ==> ws[k].start < i || (ws[k].start == i && ws[k].end < j - 1)
        invariant forall a, b :: 0 <= a < i && a < b <= |text| && text[a..b] in dic ==> Token(text[a..b], a, b - 1) in ws
        invariant forall b :: i < b < j && text[i..b] in dic ==> Token(text[i..b], i, b - 1) in ws
        invariant forall k, l :: 0 <= k < l < |ws| ==> Before(ws[k], ws[l])
      {
        var word := text[i..j];
        if word in dic {
          ws := ws + [Token(word, i, j - 1)];
        }
      }
    }
  }

  // ---------------------------------------------------------------------------
  // Forward maximum matching
  // ---------------------------------------------------------------------------

  /**
   * The exclusive end of the word `forward_segment` takes at `i`: the
   * furthest `k` with `text[i..k]` in the dictionary, or `i + 1` (the single
   * character) when no word longer than one character starts there.
   */
  function LongestEnd(text: string, dic: Dict, i: nat, k: nat): (r: nat)
    requires i < |text| && i < k <= |text|
    ensures i + 1 <= r <= k
    ensures r == i + 1 || WordAt(text, dic, i, r)
    ensures forall m :: r < m <= k ==> !WordAt(text, dic, i, m)
    decreases k
  {
    if k == i + 1 then i + 1
    else if text[i..k] in dic then k
    else LongestEnd(text, dic, i, k - 1)
  }

  /** `t` is the longest dictionary word of `text` starting at its start, or a single character. */
  ghost predicate LongestFromStart(text: string, dic: Dict, t: Token)
  {
    Spans(text, t) && (t.end == t.start || t.word in dic) &&
    forall m :: t.end + 1 < m <= |text| ==> !WordAt(text, dic, t.start, m)
  }

  /** The tokens forward maximum matching produces from position `i` on. */
  function ForwardFrom(text: string, dic: Dict, i: nat): seq<Token>
    requires i <= |text|
    decreases |text| - i
  {
    if i == |text| then []
    else
      var e := LongestEnd(text, dic, i, |text|);
      [Token(text[i..e], i, e - 1)] + ForwardFrom(text, dic, e)
  }

  /** The forward result tiles the rest of the text. */
  lemma {:induction false} ForwardFromTiles(text: string, dic: Dict, i: nat)
    requires i <= |text|
    ensures Tiles(ForwardFrom(text, dic, i), i, |text|)
    decreases |text| - i
  {
    if i < |text| {
      var e := LongestEnd(text, dic, i, |text|);
      ForwardFromTiles(text, dic, e);
      TilesCons(Token(text[i..e], i, e - 1), ForwardFrom(text, dic, e), |text|);
    }
  }

  /** Each forward token is the longest dictionary word at its start, or a single character. */
  lemma {:induction false} ForwardFromLongest(text: string, dic: Dict, i: nat)
    requires i <= |text|
    ensures forall t :: t in ForwardFrom(text, dic, i) ==> LongestFromStart(text, dic, t)
    decreases |text| - i
  {
    if i < |text| {
      var e := LongestEnd(text, dic, i, |text|);
      ForwardFromLongest(text, dic, e);
      var first := Token(text[i..e], i, e - 1);
      assert LongestFromStart(text, dic, first);
      assert ForwardFrom(text, dic, i) == [first] + ForwardFrom(text, dic, e);
    }
  }

  /** Forward matching spells out the whole text. */
  lemma ForwardSpellsText(text: string, dic: Dict)
    ensures Joined(ForwardFrom(text, dic, 0)) == text
  {
    ForwardFromTiles(text, dic, 0);
    ForwardFromLongest(text, dic, 0);
    var ts := ForwardFrom(text, dic, 0);
    forall k | 0 <= k < |ts|
      ensures Spans(text, ts[k])
    {
      assert ts[k] in ts;
    }
    TilesSpell(text, ForwardFrom(text, dic, 0), 0, |text|);
  }

  /** Taking the longest word at `i` moves the rest of the forward result past it. */
  lemma ForwardTakes(text: string, dic: Dict, ws: seq<Token>, i: nat, end: nat)
    requires i <= end < |text|
    requires end == i || WordAt(text, dic, i, end + 1)
    requires forall m :: end + 1 < m <= |text| ==> !WordAt(text, dic, i, m)
    ensures ws + [Token(text[i..end + 1], i, end)] + ForwardFrom(text, dic, end + 1) == ws + ForwardFrom(text, dic, i)
  {
    LongestEndUnique(text, dic, i, end);
    var t := Token(text[i..end + 1], i, end);
    assert ForwardFrom(text, dic, i) == [t] + ForwardFrom(text, dic, end + 1);
    assert ws + [t] + ForwardFrom(text, dic, end + 1) == ws + ([t] + ForwardFrom(text, dic, end + 1));
  }

  /** The longest word at `i` is the one the scan found. */
  lemma LongestEndUnique(text: string, dic: Dict, i: nat, end: nat)
    requires i <= end < |text|
    requires end == i || WordAt(text, dic, i, end + 1)
    requires forall m :: end + 1 < m <= |text| ==> !WordAt(text, dic, i, m)
    ensures LongestEnd(text, dic, i, |text|) == end + 1
  {
  }

  /** forward_segment: left to right, the longest word at each position or the single character. */
  method ForwardSegment(text: string, dic: Dict) returns (ws: seq<Token>)
    ensures ws == ForwardFrom(text, dic, 0)
  {
    ws := [];
    var i := 0;
    while i < |text|
      invariant 0 <= i <= |text|
      invariant ws + ForwardFrom(text, dic, i) == ForwardFrom(text, dic, 0)
      decreases |text| - i
    {
      var longest := text[i..i + 1];
      var end := i;
      for j := i + 1 to |text| + 1
        invariant i <= end < j && end < |text|
        invariant longest == text[i..end + 1]
        invariant end == i || WordAt(text, dic, i, end + 1)
        invariant forall m :: end + 1 < m < j ==> !WordAt(text, dic, i, m)
      {
        var word := text[i..j];
        if word in dic {
          if |word| > |longest| {
            longest := word;
            end := i + |word| - 1;
          }
        }
      }
      ForwardTakes(text, dic, ws, i, end);
      ws := ws + [Token(longest, i, end)];
      assert |longest| == end + 1 - i;
      i := i + |longest|;
    }
  }

  // ---------------------------------------------------------------------------
  // Backward maximum matching
  // ---------------------------------------------------------------------------

  /**
   * The start of the word `backward_segment` takes ending at `i`: the
   * smallest `j` from `from` on with `text[j..i+1]` in the dictionary, or
   * `i` (the single character) when there is none before `i`.
   */
  function EarliestStart(text: string, dic: Dict, i: nat, from: nat): (r: nat)
    requires i < |text| && from <= i
    ensures from <= r <= i
    ensures r == i || WordThrough(text, dic, r, i)
    ensures forall m :: from <= m < r ==> !WordThrough(text, dic, m, i)
    decreases i - from
  {
    if from == i then i
    else if text[from..i + 1] in dic then from
    else EarliestStart(text, dic, i, from + 1)
  }

  /** `t` is the longest dictionary word of `text` ending at its end, or a single character. */
  ghost predicate LongestToEnd(text: string, dic: Dict, t: Token)
  {
    Spans(text, t) && (t.end == t.start || t.word in dic) &&
    forall m :: 0 <= m < t.start ==> !WordThrough(text, dic, m, t.end)
  }

  /** The tokens backward maximum matching produces for `text[..hi]`, in position order. */
  function BackwardUpTo(text: string, dic: Dict, hi: nat): seq<Token>
    requires hi <= |text|
    decreases hi
  {
    if hi == 0 then []
    else
      var s := EarliestStart(text, dic, hi - 1, 0);
      BackwardUpTo(text, dic, s) + [Token(text[s..hi], s, hi - 1)]
  }

  /** The backward result tiles the text before `hi`. */
  lemma {:induction false} BackwardUpToTiles(text: string, dic: Dict, hi: nat)
    requires hi <= |text|
    ensures Tiles(BackwardUpTo(text, dic, hi), 0, hi)
    decreases hi
  {
    if hi > 0 {
      var s := EarliestStart(text, dic, hi - 1, 0);
      BackwardUpToTiles(text, dic, s);
      TilesSnoc(BackwardUpTo(text, dic, s), Token(text[s..hi], s, hi - 1), 0);
    }
  }

  /** Each backward token is the longest dictionary word ending at its end, or a single character. */
  lemma {:induction false} BackwardUpToLongest(text: string, dic: Dict, hi: nat)
    requires hi <= |text|
    ensures forall t :: t in BackwardUpTo(text, dic, hi) ==> LongestToEnd(text, dic, t)
    decreases hi
  {
    if hi > 0 {
      var s := EarliestStart(text, dic, hi - 1, 0);
      BackwardUpToLongest(text, dic, s);
      var last := Token(text[s..hi], s, hi - 1);
      assert LongestToEnd(text, dic, last);
      assert BackwardUpTo(text, dic, hi) == BackwardUpTo(text, dic, s) + [last];
    }
  }

  /** Backward matching spells out the whole text, in increasing position order. */
  lemma BackwardSpellsText(text: string, dic: Dict)
    ensures Joined(BackwardUpTo(text, dic, |text|)) == text
  {
    BackwardUpToTiles(text, dic, |text|);
    BackwardUpToLongest(text, dic, |text|);
    var ts := BackwardUpTo(text, dic, |text|);
    forall k | 0 <= k < |ts|
      ensures Spans(text, ts[k])
    {
      assert ts[k] in ts;
    }
    TilesSpell(text, BackwardUpTo(text, dic, |text|), 0, |text|);
  }

  /** backward_segment: right to left, the longest word ending at each position, each put in front. */
  method BackwardSegment(text: string, dic: Dict) returns (ws: seq<Token>)
    ensures ws == BackwardUpTo(text, dic, |text|)
  {
    ws := [];
    var i := |text| - 1;
    while i >= 0
      invariant -1 <= i < |text|
      invariant BackwardUpTo(text, dic, i + 1) + ws == BackwardUpTo(text, dic, |text|)
      decreases i
    {
      var longest := text[i..i + 1];
      var start := i;
      for j := 0 to i
        invariant start == i && longest == text[i..i + 1]
        invariant forall m :: 0 <= m < j ==> !WordThrough(text, dic, m, i)
      {
        var word := text[j..i + 1];
        if word in dic {
          if |word| > |longest| {
            longest := word;
            start := j;
            assert WordThrough(text, dic, j, i);
            break;
          }
        }
      }
      assert start == EarliestStart(text, dic, i, 0);
      ws := [Token(longest, start, i)] + ws;
      i := i - |longest|;
    }
  }

  // ---------------------------------------------------------------------------
  // Bidirectional matching
  // ---------------------------------------------------------------------------

  /** The choice `bidirectional_segment` makes between a forward result `f` and a backward result `b`. */
  function Choose(f: seq<Token>, b: seq<Token>): seq<Token>
  {
    if |f| < |b| then f
    else if |f| > |b| then b
    else if CountSingleChar(AsItems(f)) < CountSingleChar(AsItems(b)) then f
    else b
  }

  /**
   * The tie-break on single characters never picks the forward result: it
   * counts elements of length 1 among triples, which have length 3. So the
   * choice is simply the forward result when it has fewer words, else the
   * backward one.
   */
  lemma ChooseIsFewerWordsElseBackward(f: seq<Token>, b: seq<Token>)
    ensures Choose(f, b) == (if |f| < |b| then f else b)
    ensures |Choose(f, b)| <= |f| && |Choose(f, b)| <= |b|
  {
    TriplesCountZero(f);
    TriplesCountZero(b);
  }

  /** The words of the tokens, as `count_single_char` would see a list of plain words. */
  function WordItems(ts: seq<Token>): (r: seq<Item>)
    ensures |r| == |ts|
    ensures forall i :: 0 <= i < |ts| ==> r[i] == Word(ts[i].word)
  {
    if ts == [] then [] else [Word(ts[0].word)] + WordItems(ts[1..])
  }

  /**
   * The choice with the tie-break counting single-character words, as the
   * comment on it says: fewer words first, then fewer single characters.
   */
  function ChooseByWords(f: seq<Token>, b: seq<Token>): seq<Token>
  {
    if |f| < |b| then f
    else if |f| > |b| then b
    else if CountSingleChar(WordItems(f)) < CountSingleChar(WordItems(b)) then f
    else b
  }

  /**
   * With the intended tie-break, the result never has more words than either
   * candidate, and among equally long candidates it never has more
   * single-character words.
   */
  lemma ChooseByWordsPrefersFewerSingles(f: seq<Token>, b: seq<Token>)
    ensures ChooseByWords(f, b) == f || ChooseByWords(f, b) == b
    ensures |ChooseByWords(f, b)| <= |f| && |ChooseByWords(f, b)| <= |b|
    ensures |f| == |b| ==>
              CountSingleChar(WordItems(ChooseByWords(f, b))) <= CountSingleChar(WordItems(f)) &&
              CountSingleChar(WordItems(ChooseByWords(f, b))) <= CountSingleChar(WordItems(b))
    ensures |f| == |b| ==>
              (ChooseByWords(f, b) == f <==> CountSingleChar(WordItems(f)) < CountSingleChar(WordItems(b)) || f == b)
  {
  }

  /**
   * Two equally long segmentations of "abcd": the forward one has no
   * single character and the backward one has one, yet the choice as
   * written keeps the backward one.
   */
  lemma TieBreakKeepsMoreSingles()
    ensures var f := [Token("ab", 0, 1), Token("cd", 2, 3)];
            var b := [Token("a", 0, 0), Token("bcd", 1, 3)];
            && Choose(f, b) == b
            && CountSingleChar(WordItems(f)) == 0 && CountSingleChar(WordItems(b)) == 1
            && ChooseByWords(f, b) == f
  {
    var f := [Token("ab", 0, 1), Token("cd", 2, 3)];
    var b := [Token("a", 0, 0), Token("bcd", 1, 3)];
    ChooseIsFewerWordsElseBackward(f, b);
    assert WordItems(b)[0].Len() == 1;
  }

  /** bidirectional_segment: run both matchers and keep the result with fewer words. */
  method BidirectionalSegment(text: string, dic: Dict) returns (ws: seq<Token>)
    ensures ws == Choose(ForwardFrom(text, dic, 0), BackwardUpTo(text, dic, |text|))
    ensures Joined(ws) == text
  {
    var f := ForwardSegment(text, dic);
    var b := BackwardSegment(text, dic);
    ForwardSpellsText(text, dic);
    BackwardSpellsText(text, dic);
    if |f| < |b| {
      ws := f;
    } else if |f| > |b| {
      ws := b;
    } else if CountSingleChar(AsItems(f)) < CountSingleChar(AsItems(b)) {
      ws := f;
    } else {
      ws := b;
    }
  }
}
