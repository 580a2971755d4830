/**
 * The one helper of nlp/commom/tool.py the segmenters use:
 * `count_single_char`, the number of list elements of length 1.
 */
module SegTool {
  /** A `(word, start, end)` triple produced by the segmenters; `end` is inclusive. */
  datatype Token = Token(word: string, start: int, end: int)

  /**
   * The elements `count_single_char` may be given: plain words, or the
   * segmenters' triples, whose `len` is always 3.
   */
  datatype Item = Word(s: string) | Triple(t: Token)
  {
    /** Python's `len` of the element. */
    function Len(): (n: nat)
      ensures Triple? ==> n == 3
      ensures Word? ==> n == |s|
    {
      match this
      case Word(s) => |s|
      case Triple(_) => 3
    }
  }

  /** count_single_char: how many elements have length 1. */
  function CountSingleChar(items: seq<Item>): (r: nat)
    ensures r <= |items|
    ensures r == 0 <==> forall i :: 0 <= i < |items| ==> items[i].Len() != 1
    ensures r == |items| <==> forall i :: 0 <= i < |items| ==> items[i].Len() == 1
  {
    if items == [] then 0
    else (if items[0].Len() == 1 then 1 else 0) + CountSingleChar(items[1..])
  }

  /** The count of a concatenation is the sum of the counts. */
  lemma {:induction false} CountSingleCharAdditive(a: seq<Item>, b: seq<Item>)
    ensures CountSingleChar(a + b) == CountSingleChar(a) + CountSingleChar(b)
  {
    if a == [] {
      assert a + b == b;
    } else {
      assert (a + b)[0] == a[0];
      assert (a + b)[1..] == a[1..] + b;
      CountSingleCharAdditive(a[1..], b);
    }
  }

  /** The segmenters' results as `count_single_char` sees them. */
  function AsItems(ts: seq<Token>): (r: seq<Item>)
    ensures |r| == |ts|
    ensures forall i :: 0 <= i < |ts| ==> r[i] == Triple(ts[i])
  {
    if ts == [] then [] else [Triple(ts[0])] + AsItems(ts[1..])
  }

  /** A list of triples never counts any single character: every element has length 3. */
  lemma TriplesCountZero(ts: seq<Token>)
    ensures CountSingleChar(AsItems(ts)) == 0
  {
  }
}
