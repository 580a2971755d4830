/**
 * Lookup and longest-match search over a double-array trie
 * (nlp/commom/double_array_trie.py). The `base`, `check` and `value`
 * arrays are given; building them is not part of this model.
 *
 * Array accesses follow Python list indexing: a negative index counts from
 * the end, and an index outside the list raises IndexError, which the
 * model returns as the outcome `IndexError`. A character's hash is its
 * code point.
 */
module DoubleArrayTrie {
  import opened Wrappers
  import NlpTrie

  /** The outcome of Python code that may raise IndexError. */
  datatype Py<T> = Ok(val: T) | IndexError

  /** `a[i]` on a Python list. */
  function At<T>(a: seq<T>, i: int): (r: Py<T>)
    ensures r.Ok? <==> -|a| <= i < |a|
  {
    if 0 <= i < |a| then Ok(a[i])
    else if -|a| <= i < 0 then Ok(a[|a| + i])
    else IndexError
  }

  /** The three arrays of a double-array trie. */
  datatype Dat<V> = Dat(base: seq<int>, check: seq<int>, values: seq<V>)

  // ---------------------------------------------------------------------------
  // Lookup: states are array indices
  // ---------------------------------------------------------------------------

  /**
   * transition(c, b): the child `p = base[b] + hash(c) + 1` when
   * `check[p] == base[b]`, else -1.
   */
  function Transition<V>(d: Dat<V>, c: char, b: int): (r: Py<int>)
    ensures r.Ok? && r.val != -1 ==>
              At(d.base, b).Ok? && r.val == At(d.base, b).val + c as int + 1 &&
              At(d.check, r.val) == At(d.base, b)
    ensures At(d.base, b).Ok? && At(d.check, At(d.base, b).val + c as int + 1).Ok? &&
            At(d.check, At(d.base, b).val + c as int + 1) != At(d.base, b)
            ==> r == Ok(-1)
  {
    match At(d.base, b)
    case IndexError => IndexError
    case Ok(bb) =>
      var p := bb + c as int + 1;
      match At(d.check, p)
      case IndexError => IndexError
      case Ok(cp) => Ok(if bb == cp then p else -1)
  }

  /**
   * The state reached from the root 0 by the characters of `key`, `None`
   * as soon as a transition gives -1.
   */
  function Walk<V>(d: Dat<V>, key: string): Py<Option<int>>
  {
    if key == [] then Ok(Some(0))
    else match Walk(d, key[..|key| - 1])
      case IndexError => IndexError
      case Ok(None) => Ok(None)
      case Ok(Some(b)) =>
        match Transition(d, key[|key| - 1], b)
        case IndexError => IndexError
        case Ok(p) => if p != -1 then Ok(Some(p)) else Ok(None)
  }

  /**
   * The end-of-word test of `__getitem__` at state `b`: `p = base[b]` must
   * have `check[p] == p` and `n = base[p] < 0`, and then the value is
   * `value[-n-1]`.
   */
  function Accept<V>(d: Dat<V>, b: int): (r: Py<Option<V>>)
    ensures r.Ok? && r.val.Some? ==>
              At(d.base, b).Ok? && At(d.check, At(d.base, b).val) == At(d.base, b) &&
              At(d.base, At(d.base, b).val).Ok? && At(d.base, At(d.base, b).val).val < 0 &&
              At(d.values, -At(d.base, At(d.base, b).val).val - 1) == Ok(r.val.value)
  {
    match At(d.base, b)
    case IndexError => IndexError
    case Ok(p) =>
      match At(d.base, p)
      case IndexError => IndexError
      case Ok(n) =>
        match At(d.check, p)
        case IndexError => IndexError
        case Ok(cp) =>
          if p == cp && n < 0 then
            match At(d.values, -n - 1)
            case IndexError => IndexError
            case Ok(v) => Ok(Some(v))
          else Ok(None)
  }

  /** `dat[key]` */
  function Lookup<V>(d: Dat<V>, key: string): Py<Option<V>>
  {
    match Walk(d, key)
    case IndexError => IndexError
    case Ok(None) => Ok(None)
    case Ok(Some(b)) => Accept(d, b)
  }

  /** Once a walk has failed, walking further characters fails too, and the lookup gives `None`. */
  lemma {:induction false} FailedWalkStaysFailed<V>(d: Dat<V>, key: string, more: string)
    requires Walk(d, key) == Ok(None)
    ensures Walk(d, key + more) == Ok(None)
    ensures Lookup(d, key + more) == Ok(None)
    decreases |more|
  {
    if more == [] {
      assert key + more == key;
    } else {
      var init := more[..|more| - 1];
      FailedWalkStaysFailed(d, key, init);
      assert (key + more)[..|key + more| - 1] == key + init;
    }
  }

  // ---------------------------------------------------------------------------
  // LongestSearcher: states are base values
  // ---------------------------------------------------------------------------

  /**
   * One step of the searcher from the base value `b` by the character code
   * `c`: the child `p = b + c + 1` is entered when `check[p] == b`, and the
   * new state is `base[p]`.
   */
  function Step<V>(d: Dat<V>, b: int, c: char): Py<Option<int>>
  {
    var p := b + c as int + 1;
    match At(d.check, p)
    case IndexError => IndexError
    case Ok(cp) =>
      if b == cp then
        match At(d.base, p)
        case IndexError => IndexError
        case Ok(nb) => Ok(Some(nb))
      else Ok(None)
  }

  /** The searcher's state after the characters of `w`, starting from the base value `b0`. */
  function SearchWalk<V>(d: Dat<V>, w: string, b0: int): Py<Option<int>>
  {
    if w == [] then Ok(Some(b0))
    else match SearchWalk(d, w[..|w| - 1], b0)
      case Ok(Some(b)) => Step(d, b, w[|w| - 1])
      case other => other
  }

  /**
   * The searcher's end-of-word test at base value `b`: `n = base[b]` and
   * `check[b] == b` with `n < 0` give the index `-n-1` and its value.
   */
  function SearchAccept<V>(d: Dat<V>, b: int): Py<Option<(int, V)>>
  {
    match At(d.base, b)
    case IndexError => IndexError
    case Ok(n) =>
      match At(d.check, b)
      case IndexError => IndexError
      case Ok(cp) =>
        if b == cp && n < 0 then
          match At(d.values, -n - 1)
          case IndexError => IndexError
          case Ok(v) => Ok(Some((-n - 1, v)))
        else Ok(None)
  }

  /** The searcher, started at the root `b0 = base[0]`, walks `w` to an end of word holding `v`. */
  ghost predicate Hits<V>(d: Dat<V>, w: string, b0: int, v: V)
  {
    SearchWalk(d, w, b0).Ok? && SearchWalk(d, w, b0).val.Some? &&
    exists idx :: SearchAccept(d, SearchWalk(d, w, b0).val.value) == Ok(Some((idx, v)))
  }

  /** The state of `next`'s loop: `_i`, `begin`, the local `b`, `length`, `index`, `value`. */
  datatype Scan<V> = Scan(i: int, begin: int, b: int, length: Option<int>, index: Option<int>, value: Option<V>)

  /** The end-of-word test at the current state, then `_i += 1`. */
  function Check<V>(d: Dat<V>, s: Scan<V>): (r: Py<Scan<V>>)
    ensures r.Ok? ==> r.val.i == s.i + 1 && r.val.begin == s.begin && r.val.b == s.b
  {
    match SearchAccept(d, s.b)
    case IndexError => IndexError
    case Ok(None) => Ok(s.(i := s.i + 1))
    case Ok(Some((idx, v))) =>
      Ok(s.(length := Some(s.i - s.begin + 1), index := Some(idx), value := Some(v), i := s.i + 1))
  }

  /** How one pass of `next`'s loop body ends: the call returns, or the loop goes on from a new state. */
  datatype Move<V> = Stop(found: bool, last: Scan<V>) | Go(next: Scan<V>)

  /**
   * One pass of `next`'s loop body before the end of the text. A
   * successful step continues the word; a failed step reports a pending
   * hit and resumes after it, or else restarts at `begin + 1` from the
   * root; either way the end-of-word test follows. (The source's
   * `begin == len(text)` exit cannot be taken, because
   * `begin <= _i < len(text)` there.) Every pass that goes on makes
   * progress: `begin` grows, or stays and `_i` grows.
   */
  function ScanStep<V>(d: Dat<V>, text: string, s: Scan<V>): (r: Py<Move<V>>)
    requires 0 <= s.begin <= s.i < |text|
    requires s.value.Some? ==> s.length.Some?
    ensures r.Ok? && r.val.Go? ==>
              0 <= r.val.next.begin <= r.val.next.i <= |text| &&
              (r.val.next.value.Some? ==> r.val.next.length.Some?) &&
              (s.begin < r.val.next.begin || (s.begin == r.val.next.begin && s.i < r.val.next.i))
  {
    match Step(d, s.b, text[s.i])
    case IndexError => IndexError
    case Ok(Some(nb)) =>
      (match Check(d, s.(b := nb))
       case IndexError => IndexError
       case Ok(s2) => Ok(Go(s2)))
    case Ok(None) =>
      if s.value.Some? then Ok(Stop(true, s.(i := s.begin + s.length.value)))
      else match At(d.base, 0)
        case IndexError => IndexError
        case Ok(b0) =>
          match Check(d, s.(i := s.begin, begin := s.begin + 1, b := b0))
          case IndexError => IndexError
          case Ok(s2) => Ok(Go(s2))
  }

  /** The loop of `next` from state `s`; at the end of the text it reports whether a hit is pending. */
  function ScanLoop<V>(d: Dat<V>, text: string, s: Scan<V>): Py<(bool, Scan<V>)>
    requires 0 <= s.begin <= s.i <= |text|
    requires s.value.Some? ==> s.length.Some?
    decreases |text| - s.begin, |text| - s.i
  {
    if s.i >= |text| then Ok((s.value.Some?, s))
    else match ScanStep(d, text, s)
      case IndexError => IndexError
      case Ok(Stop(found, last)) => Ok((found, last))
      case Ok(Go(next)) => ScanLoop(d, text, next)
  }

  /** `next()` from the cursor `_i`, keeping the old `length` and `index`. */
  function NextScan<V>(d: Dat<V>, text: string, i: int, length: Option<int>, index: Option<int>): Py<(bool, Scan<V>)>
    requires 0 <= i <= |text|
  {
    match At(d.base, 0)
    case IndexError => IndexError
    case Ok(b0) => ScanLoop(d, text, Scan(i, i, b0, length, index, None))
  }

  /** The end-of-word test, once the accept lookup has succeeded. */
  lemma CheckAccepts<V>(d: Dat<V>, s: Scan<V>, acc: Option<(int, V)>)
    requires SearchAccept(d, s.b) == Ok(acc)
    ensures acc.None? ==> Check(d, s) == Ok(s.(i := s.i + 1))
    ensures acc.Some? ==>
              Check(d, s) == Ok(s.(length := Some(s.i - s.begin + 1), index := Some(acc.value.0),
                                   value := Some(acc.value.1), i := s.i + 1))
  {
  }

  /** What holds at the head of `next`'s loop, for a call that started at `begin0`. */
  ghost predicate Inv<V>(d: Dat<V>, text: string, b0: int, begin0: int, s: Scan<V>)
  {
    begin0 <= s.begin <= s.i <= |text| && 0 <= begin0 &&
    SearchWalk(d, text[s.begin..s.i], b0) == Ok(Some(s.b)) &&
    (s.value.Some? ==>
       s.length.Some? && 0 <= s.length.value && s.begin + s.length.value <= s.i &&
       begin0 < s.begin + s.length.value &&
       Hits(d, text[s.begin..s.begin + s.length.value], b0, s.value.value))
  }

  /** What a hit reported by `next` satisfies. */
  ghost predicate Reported<V>(d: Dat<V>, text: string, b0: int, begin0: int, s: Scan<V>)
  {
    s.value.Some? && s.length.Some? && 0 <= begin0 &&
    begin0 <= s.begin && 0 <= s.length.value && s.begin + s.length.value <= |text| &&
    begin0 < s.i <= |text| && s.begin + s.length.value <= s.i &&
    (s.i == |text| || s.i == s.begin + s.length.value) &&
    Hits(d, text[s.begin..s.begin + s.length.value], b0, s.value.value)
  }

  /** One more successful step extends the walk by one character. */
  lemma WalkOneMore<V>(d: Dat<V>, text: string, b0: int, begin: int, i: int, b: int, nb: int)
    requires 0 <= begin <= i < |text|
    requires SearchWalk(d, text[begin..i], b0) == Ok(Some(b))
    requires Step(d, b, text[i]) == Ok(Some(nb))
    ensures SearchWalk(d, text[begin..i + 1], b0) == Ok(Some(nb))
  {
    assert text[begin..i + 1][..i - begin] == text[begin..i];
  }

  /** A successful step followed by the end-of-word test keeps the invariant. */
  lemma InvAfterStep<V>(d: Dat<V>, text: string, b0: int, begin0: int, s: Scan<V>, nb: int, s2: Scan<V>)
    requires Inv(d, text, b0, begin0, s) && s.i < |text|
    requires Step(d, s.b, text[s.i]) == Ok(Some(nb))
    requires Check(d, s.(b := nb)) == Ok(s2)
    ensures Inv(d, text, b0, begin0, s2)
  {
    WalkOneMore(d, text, b0, s.begin, s.i, s.b, nb);
    if s2.value.Some? && s2.value != s.value {
      assert text[s2.begin..s2.begin + s2.length.value] == text[s.begin..s.i + 1];
    }
  }

  /** Restarting at `begin + 1` from the root keeps the invariant. */
  lemma InvAfterRestart<V>(d: Dat<V>, text: string, b0: int, begin0: int, s: Scan<V>, s2: Scan<V>)
    requires Inv(d, text, b0, begin0, s) && s.i < |text| && s.value.None?
    requires Check(d, s.(i := s.begin, begin := s.begin + 1, b := b0)) == Ok(s2)
    ensures Inv(d, text, b0, begin0, s2)
  {
    assert text[s2.begin..s2.i] == [];
    if s2.value.Some? {
      assert text[s2.begin..s2.begin + s2.length.value] == [];
    }
  }

  /** The invariant holds on every path of the loop, so each hit the loop reports is a dictionary word found at or after the start. */
  lemma {:induction false} ScanLoopReports<V>(d: Dat<V>, text: string, b0: int, begin0: int, s: Scan<V>)
    requires At(d.base, 0) == Ok(b0)
    requires Inv(d, text, b0, begin0, s)
    ensures ScanLoop(d, text, s).Ok? && ScanLoop(d, text, s).val.0 ==>
              Reported(d, text, b0, begin0, ScanLoop(d, text, s).val.1)
    decreases |text| - s.begin, |text| - s.i
  {
    if s.i < |text| {
      match Step(d, s.b, text[s.i])
      case IndexError =>
      case Ok(Some(nb)) =>
        var c := Check(d, s.(b := nb));
        if c.Ok? {
          assert ScanStep(d, text, s) == Ok(Go(c.val));
          InvAfterStep(d, text, b0, begin0, s, nb, c.val);
          ScanLoopReports(d, text, b0, begin0, c.val);
        }
      case Ok(None) =>
        if s.value.None? {
          var c := Check(d, s.(i := s.begin, begin := s.begin + 1, b := b0));
          if c.Ok? {
            assert ScanStep(d, text, s) == Ok(Go(c.val));
            InvAfterRestart(d, text, b0, begin0, s, c.val);
            ScanLoopReports(d, text, b0, begin0, c.val);
          }
        }
    }
  }

  /** A hit reported by `next()` from the cursor `i` is a dictionary word at or after `i`, ending at or before the new cursor, which has moved on. */
  lemma NextReports<V>(d: Dat<V>, text: string, i: nat, length: Option<int>, index: Option<int>)
    requires i <= |text|
    ensures NextScan(d, text, i, length, index).Ok? && NextScan(d, text, i, length, index).val.0 ==>
              At(d.base, 0).Ok? &&
              Reported(d, text, At(d.base, 0).val, i, NextScan(d, text, i, length, index).val.1)
  {
    match At(d.base, 0)
    case IndexError =>
    case Ok(b0) =>
      var s := Scan(i, i, b0, length, index, None);
      assert text[i..i] == [];
      ScanLoopReports(d, text, b0, i, s);
  }

  /**
   * At the end of the text `next()` reports nothing, whatever hit was
   * reported before: after a hit that ended the scan at the end of the
   * text, the positions after that hit are never searched.
   */
  lemma NextAtEndReportsNothing<V>(d: Dat<V>, text: string, length: Option<int>, index: Option<int>)
    ensures NextScan(d, text, |text|, length, index).Ok? ==> !NextScan(d, text, |text|, length, index).val.0
  {
  }

  // ---------------------------------------------------------------------------
  // From the searcher's states to lookup states
  // ---------------------------------------------------------------------------

  /**
   * The searcher's walk never computes the child position -1, which
   * `transition` uses to signal failure.
   */
  ghost predicate AvoidsSentinel<V>(d: Dat<V>, w: string, b0: int)
  {
    forall k :: 0 <= k < |w| ==>
      (SearchWalk(d, w[..k], b0).Ok? && SearchWalk(d, w[..k], b0).val.Some? ==>
         SearchWalk(d, w[..k], b0).val.value + w[k] as int + 1 != -1)
  }

  /**
   * Where the searcher's walk succeeds, so does the lookup walk, and the
   * searcher's state is the `base` entry of the lookup state.
   */
  lemma {:induction false} SearchWalkIsWalk<V>(d: Dat<V>, w: string, b0: int)
    requires At(d.base, 0) == Ok(b0)
    requires AvoidsSentinel(d, w, b0)
    requires SearchWalk(d, w, b0).Ok? && SearchWalk(d, w, b0).val.Some?
    ensures Walk(d, w).Ok? && Walk(d, w).val.Some?
    ensures At(d.base, Walk(d, w).val.value) == Ok(SearchWalk(d, w, b0).val.value)
  {
    if w != [] {
      var init := w[..|w| - 1];
      var c := w[|w| - 1];
      assert AvoidsSentinel(d, init, b0) by {
        forall k | 0 <= k < |init|
          ensures SearchWalk(d, init[..k], b0).Ok? && SearchWalk(d, init[..k], b0).val.Some? ==>
                    SearchWalk(d, init[..k], b0).val.value + init[k] as int + 1 != -1
        {
          assert init[..k] == w[..k];
        }
      }
      assert w[..|w| - 1] == init;
      SearchWalkIsWalk(d, init, b0);
    }
  }

  /** A hit of the searcher is a key that `dat[key]` finds, with the same value. */
  lemma HitIsLookup<V>(d: Dat<V>, w: string, b0: int, v: V)
    requires At(d.base, 0) == Ok(b0)
    requires AvoidsSentinel(d, w, b0)
    requires Hits(d, w, b0, v)
    ensures Lookup(d, w) == Ok(Some(v))
  {
    SearchWalkIsWalk(d, w, b0);
  }

  // ---------------------------------------------------------------------------
  // The objects
  // ---------------------------------------------------------------------------

  /** A match is the `Hit` of NlpTrie: both parsers report the same tuple. */
  type Hit<V> = NlpTrie.Hit<V>

  /**
   * The loop of `next()` run from state `s`: `_i`, `begin`, `b`, `length`,
   * `index` and `value` are the loop's variables, and the outcome is that of
   * the scan ScanLoop describes.
   */
  method RunScan<V>(d: Dat<V>, text: string, s: Scan<V>) returns (r: Py<(bool, Scan<V>)>)
    requires 0 <= s.begin <= s.i <= |text|
    requires s.value.Some? ==> s.length.Some?
    ensures r == ScanLoop(d, text, s)
  {
    var i, bg, b, len, idx, val := s.i, s.begin, s.b, s.length, s.index, s.value;
    while true
      invariant 0 <= bg <= i <= |text|
      invariant val.Some? ==> len.Some?
      invariant ScanLoop(d, text, Scan(i, bg, b, len, idx, val)) == ScanLoop(d, text, s)
      decreases |text| - bg, |text| - i
    {
      var cur := Scan(i, bg, b, len, idx, val);
      if i >= |text| {
        return Ok((val.Some?, cur));
      }
      var step := Step(d, b, text[i]);
      if step.IndexError? {
        return IndexError;
      }
      if step.val.Some? {
        b := step.val.value;
      } else {
        if val.Some? {
          return Ok((true, cur.(i := bg + len.value)));
        }
        i := bg;
        bg := bg + 1;
        var b1 := At(d.base, 0);
        if b1.IndexError? {
          return IndexError;
        }
        b := b1.val;
      }
      var accept := SearchAccept(d, b);
      if accept.IndexError? {
        return IndexError;
      }
      CheckAccepts(d, Scan(i, bg, b, len, idx, val), accept.val);
      if accept.val.Some? {
        len := Some(i - bg + 1);
        idx := Some(accept.val.value.0);
        val := Some(accept.val.value.1);
      }
      i := i + 1;
      assert ScanStep(d, text, cur) == Ok(Go(Scan(i, bg, b, len, idx, val)));
    }
  }

  class LongestSearcher<V> {
    const text: string
    const base: seq<int>
    const check: seq<int>
    const values: seq<V>
    var begin: int
    var length: Option<int>
    var index: Option<int>
    var value: Option<V>
    /** `_i`: where the next scan starts. */
    var cursor: int

    function Arrays(): Dat<V>
    {
      Dat(base, check, values)
    }

    constructor (text: string, offset: nat, base: seq<int>, check: seq<int>, values: seq<V>)
      requires offset <= |text|
      ensures this.text == text && this.base == base && this.check == check && this.values == values
      ensures begin == offset && cursor == offset
      ensures length.None? && index.None? && value.None?
    {
      this.text := text;
      this.base := base;
      this.check := check;
      this.values := values;
      begin := offset;
      cursor := offset;
      length := None;
      index := None;
      value := None;
    }

    /**
     * next(): scan for the next longest hit from the cursor. Returns whether
     * one was found; `begin`, `length` and `value` then describe it.
     */
    method Next() returns (r: Py<bool>)
      requires 0 <= cursor <= |text|
      modifies this
      ensures var spec := NextScan(Arrays(), text, old(cursor), old(length), old(index));
              match spec
              case IndexError => r.IndexError?
              case Ok((hit, s)) =>
                r == Ok(hit) && cursor == s.i && begin == s.begin &&
                length == s.length && index == s.index && value == s.value
    {
      var b0 := At(base, 0);
      if b0.IndexError? {
        return IndexError;
      }
      var scan := RunScan(Arrays(), text, Scan(cursor, cursor, b0.val, length, index, None));
      if scan.IndexError? {
        return IndexError;
      }
      var s := scan.val.1;
      cursor, begin, length, index, value := s.i, s.begin, s.length, s.index, s.value;
      return Ok(scan.val.0);
    }
  }

  class DoubleArrayTrie<V> {
    const base: seq<int>
    const check: seq<int>
    const value: seq<V>

    constructor (base: seq<int>, check: seq<int>, value: seq<V>)
      ensures this.base == base && this.check == check && this.value == value
    {
      this.base := base;
      this.check := check;
      this.value := value;
    }

    function Arrays(): Dat<V>
    {
      Dat(base, check, value)
    }

    /** `__getitem__`: walk the key from state 0, then test for an end of word. */
    method Get(key: string) returns (r: Py<Option<V>>)
      ensures r == Lookup(Arrays(), key)
      ensures r.Ok? && r.val.Some? ==> Walk(Arrays(), key).Ok? && Walk(Arrays(), key).val.Some?
    {
      var b := 0;
      for i := 0 to |key|
        invariant Walk(Arrays(), key[..i]) == Ok(Some(b))
      {
        var p := Transition(Arrays(), key[i], b);
        assert key[..i + 1][..i] == key[..i];
        if p.IndexError? {
          FailedOrErrorExtends(Arrays(), key, i + 1);
          return IndexError;
        }
        if p.val != -1 {
          b := p.val;
        } else {
          FailedWalkStaysFailed(Arrays(), key[..i + 1], key[i + 1..]);
          assert key[..i + 1] + key[i + 1..] == key;
          return Ok(None);
        }
      }
      assert key[..|key|] == key;
      assert Lookup(Arrays(), key) == Accept(Arrays(), b);
      r := Accept(Arrays(), b);
    }

    /**
     * One pass of parse_longest's loop: `searcher.next()`, and when it
     * reports a hit, the hit read from `begin`, `length` and `value`. The
     * hit is located in the text, starts at or after the old cursor and
     * ends before the new one.
     */
    method NextHit(text: string, searcher: LongestSearcher<V>) returns (r: Py<Option<Hit<V>>>)
      requires searcher.text == text && searcher.Arrays() == Arrays() && 0 <= searcher.cursor <= |text|
      modifies searcher
      ensures r.Ok? && r.val.Some? ==>
                Located(Arrays(), text, r.val.value) && old(searcher.cursor) <= r.val.value.start &&
                r.val.value.end < searcher.cursor <= |text| && old(searcher.cursor) < searcher.cursor
    {
      ghost var from := searcher.cursor;
      ghost var spec := NextScan(Arrays(), text, from, searcher.length, searcher.index);
      NextReports(Arrays(), text, from, searcher.length, searcher.index);
      var more := searcher.Next();
      if more.IndexError? {
        return IndexError;
      }
      if !more.val {
        return Ok(None);
      }
      ghost var s := spec.val.1;
      assert searcher.begin == s.begin && searcher.length == s.length && searcher.value == s.value && searcher.cursor == s.i;
      ReportedLocated(Arrays(), text, At(base, 0).val, from, s);
      var start := searcher.begin;
      var end := searcher.begin + searcher.length.value;
      return Ok(Some(NlpTrie.Hit(text[start..end], searcher.value.value, start, end - 1)));
    }

    /**
     * parse_longest: run a searcher from 0 and collect its hits. Every hit
     * is a word the searcher finds in the trie, named by its own positions,
     * and hits come in order without overlap.
     */
    method ParseLongest(text: string) returns (r: Py<seq<Hit<V>>>)
      ensures r.Ok? ==> forall k :: 0 <= k < |r.val| ==> Located(Arrays(), text, r.val[k])
      ensures r.Ok? ==> forall k, l :: 0 <= k < l < |r.val| ==> r.val[k].end < r.val[l].start
    {
      var found: seq<Hit<V>> := [];
      var searcher := new LongestSearcher(text, 0, base, check, value);
      while true
        invariant 0 <= searcher.cursor <= |text|
        invariant searcher.text == text && searcher.Arrays() == Arrays()
        invariant forall k :: 0 <= k < |found| ==> Located(Arrays(), text, found[k]) && found[k].end < searcher.cursor
        invariant forall k, l :: 0 <= k < l < |found| ==> found[k].end < found[l].start
        decreases |text| - searcher.cursor
      {
        var next := NextHit(text, searcher);
        if next.IndexError? {
          return IndexError;
        }
        if next.val.None? {
          break;
        }
        found := found + [next.val.value];
      }
      return Ok(found);
    }
  }

  /** `h` names a word of `text` by its own positions, and the searcher started at the root finds it with its value. */
  ghost predicate Located<V>(d: Dat<V>, text: string, h: Hit<V>)
  {
    0 <= h.start <= h.end + 1 <= |text| && h.word == text[h.start..h.end + 1] &&
    At(d.base, 0).Ok? && Hits(d, h.word, At(d.base, 0).val, h.value)
  }

  /** The hit a scan reports, named by its positions, is located in the text, after the start and before the new cursor. */
  lemma ReportedLocated<V>(d: Dat<V>, text: string, b0: int, begin0: int, s: Scan<V>)
    requires At(d.base, 0) == Ok(b0)
    requires Reported(d, text, b0, begin0, s)
    ensures var h := NlpTrie.Hit(text[s.begin..s.begin + s.length.value], s.value.value, s.begin, s.begin + s.length.value - 1);
            Located(d, text, h) && begin0 <= h.start && h.end < s.i
  {
  }

  /** A walk that has failed or raised stays so for every longer key. */
  lemma {:induction false} FailedOrErrorExtends<V>(d: Dat<V>, key: string, n: nat)
    requires n <= |key|
    requires Walk(d, key[..n]).IndexError?
    ensures Walk(d, key).IndexError?
    decreases |key| - n
  {
    if n == |key| {
      assert key[..n] == key;
    } else {
      assert key[..n + 1][..n] == key[..n];
      FailedOrErrorExtends(d, key, n + 1);
    }
  }
}
