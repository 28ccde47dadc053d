/**
 * The splitting iterator `StrSplit` of src/lib.rs, as written: a remainder of
 * the haystack and a delimiter; each `next` cuts the text before the first
 * occurrence of the delimiter off the remainder. Once the remainder is empty,
 * `next` returns None, so a trailing empty piece is never produced (the
 * defect the source marks with `TODO: Bug`; module FixedSplitting holds the
 * corrected iterator).
 */
module Splitting {
  import opened Wrappers
  import opened Search

  /** The outcome of one `next` call: the item returned and the new remainder. */
  datatype Step = Step(item: Option<Text>, remainder: Text)

  /**
   * One `next` call on a splitter whose remainder is `rem` and delimiter `d`.
   * It yields nothing exactly when the remainder is empty (and the delimiter
   * is not), and with a non-empty delimiter every item shortens the remainder.
   */
  function NextStep(rem: Text, d: Text): (s: Step)
    ensures s.item.None? <==> rem == [] && d != []
    ensures s.item.None? ==> s.remainder == rem
    ensures d != [] && s.item.Some? ==> |s.remainder| < |rem|
  {
    match FindFirst(rem, d)
    case Some(p) => Step(Some(rem[..p]), rem[p + |d|..])
    case None => if rem == [] then Step(None, rem) else Step(Some(rem), [])
  }

  /**
   * Where the delimiter occurs, `next` returns the text before its first
   * occurrence and keeps the text after it: the three put back together
   * are the old remainder.
   */
  lemma NextStepCutsAtFirstMatch(rem: Text, d: Text)
    requires Occurs(rem, d)
    ensures var s := NextStep(rem, d);
      && s.item.Some?
      && rem == s.item.value + d + s.remainder
      && forall j: nat :: j < |s.item.value| ==> !OccursAt(rem, d, j)
  {
    var p := FindFirst(rem, d).value;
    assert rem == rem[..p] + d + rem[p + |d|..];
  }

  /** Where the delimiter does not occur, `next` returns the whole non-empty remainder and empties it. */
  lemma NextStepWithoutMatch(rem: Text, d: Text)
    requires !Occurs(rem, d) && rem != []
    ensures NextStep(rem, d) == Step(Some(rem), [])
  {
  }

  /** With an empty delimiter `next` returns an empty item and leaves the remainder as it was. */
  lemma EmptyDelimiterStalls(rem: Text)
    ensures NextStep(rem, []) == Step(Some([]), rem)
  {
  }

  /** The number of non-overlapping occurrences of `d` found scanning `s` from the left. */
  function CountMatches(s: Text, d: Text): (n: nat)
    requires d != []
    decreases |s|
  {
    match FindFirst(s, d)
    case None => 0
    case Some(p) => 1 + CountMatches(s[p + |d|..], d)
  }

  /** No match is counted exactly when the delimiter does not occur at all. */
  lemma CountMatchesZero(s: Text, d: Text)
    requires d != []
    ensures CountMatches(s, d) == 0 <==> !Occurs(s, d)
  {
    match FindFirst(s, d)
    case None =>
    case Some(p) =>
      assert OccursAt(s, d, p);
  }

  /** The matches counted do not overlap, so together they fit in the text. */
  lemma {:induction false} CountMatchesFit(s: Text, d: Text)
    requires d != []
    ensures CountMatches(s, d) * |d| <= |s|
    decreases |s|
  {
    match FindFirst(s, d)
    case None =>
    case Some(p) =>
      var m := CountMatches(s[p + |d|..], d);
      CountMatchesFit(s[p + |d|..], d);
      MulSucc(m, |d|);
  }

  /** One more match takes one more delimiter's worth of text. */
  lemma MulSucc(m: nat, k: nat)
    ensures (1 + m) * k == k + m * k
  {
  }

  /**
   * The pieces a splitter started on `rem` yields until `next` returns None;
   * no piece at all for the empty text.
   */
  function Split(rem: Text, d: Text): (pieces: seq<Text>)
    requires d != []
    decreases |rem|
    ensures pieces == [] <==> rem == []
  {
    var s := NextStep(rem, d);
    match s.item
    case None => []
    case Some(piece) => [piece] + Split(s.remainder, d)
  }

  /** The first step of a split, where the delimiter occurs first at `p`. */
  lemma SplitAtMatch(h: Text, d: Text, p: nat)
    requires d != [] && FindFirst(h, d) == Some(p)
    ensures Split(h, d) == [h[..p]] + Split(h[p + |d|..], d)
  {
    assert NextStep(h, d) == Step(Some(h[..p]), h[p + |d|..]);
  }

  /** Where the delimiter does not occur, a split has the haystack as its one piece, or none if it is empty. */
  lemma SplitNoMatch(h: Text, d: Text)
    requires d != [] && FindFirst(h, d) == None
    ensures Split(h, d) == if h == [] then [] else [h]
  {
    assert NextStep(h, d) == if h == [] then Step(None, h) else Step(Some(h), []);
  }

  /**
   * Termination bound: one piece per match, plus at most one for the text
   * after the last match.
   */
  lemma {:induction false} SplitCount(h: Text, d: Text)
    requires d != []
    ensures CountMatches(h, d) <= |Split(h, d)| <= CountMatches(h, d) + 1
    decreases |h|
  {
    match FindFirst(h, d)
    case None =>
      SplitNoMatch(h, d);
      assert CountMatches(h, d) == 0;
    case Some(p) =>
      SplitAtMatch(h, d, p);
      SplitCount(h[p + |d|..], d);
      assert CountMatches(h, d) == 1 + CountMatches(h[p + |d|..], d);
  }

  /** The piece one `next` call returns never contains the delimiter. */
  lemma NextStepItemIsFree(rem: Text, d: Text)
    requires d != [] && NextStep(rem, d).item.Some?
    ensures !Occurs(NextStep(rem, d).item.value, d)
  {
    var piece := NextStep(rem, d).item.value;
    if Occurs(rem, d) {
      NextStepCutsAtFirstMatch(rem, d);
      PrefixBeforeFirstIsFree(rem, d, |piece|);
      assert rem[..|piece|] == piece;
    }
  }

  /** No piece of a split contains the delimiter. */
  lemma {:induction false} SplitPiecesAreFree(rem: Text, d: Text)
    requires d != []
    ensures forall i :: 0 <= i < |Split(rem, d)| ==> !Occurs(Split(rem, d)[i], d)
    decreases |rem|
  {
    var s := NextStep(rem, d);
    if s.item.Some? {
      NextStepItemIsFree(rem, d);
      SplitPiecesAreFree(s.remainder, d);
      var pieces := Split(rem, d);
      assert pieces == [s.item.value] + Split(s.remainder, d);
      forall i | 0 <= i < |pieces|
        ensures !Occurs(pieces[i], d)
      {
        if i > 0 {
          assert pieces[i] == Split(s.remainder, d)[i - 1];
        }
      }
    }
  }

  /** The pieces put back together with the delimiter between consecutive ones. */
  function Join(pieces: seq<Text>, d: Text): Text
  {
    if |pieces| == 0 then []
    else if |pieces| == 1 then pieces[0]
    else pieces[0] + d + Join(pieces[1..], d)
  }

  class StrSplit {
    var remainder: Text
    var delimiter: Text

    /** `StrSplit::new`: the whole haystack remains, the delimiter is kept as given. */
    constructor (haystack: Text, delimiter: Text)
      ensures remainder == haystack && this.delimiter == delimiter
    {
      remainder := haystack;
      this.delimiter := delimiter;
    }

    /** `Iterator::next`: only the remainder changes. */
    method Next() returns (item: Option<Text>)
      modifies this`remainder
      ensures delimiter == old(delimiter)
      ensures Step(item, remainder) == NextStep(old(remainder), delimiter)
      ensures match FindFirst(old(remainder), delimiter)
              case Some(p) =>
                && item == Some(old(remainder)[..p])
                && remainder == old(remainder)[p + |delimiter|..]
                && old(remainder) == item.value + delimiter + remainder
              case None =>
                if old(remainder) == [] then item.None? && remainder == old(remainder)
                else item == Some(old(remainder)) && remainder == []
      ensures delimiter != [] && item.Some? ==> |remainder| < |old(remainder)|
    {
      var found := FindFirst(remainder, delimiter);
      if found.Some? {
        var p := found.value;
        item := Some(remainder[..p]);
        remainder := remainder[p + |delimiter|..];
      } else if |remainder| == 0 {
        item := None;
      } else {
        item := Some(remainder);
        remainder := [];
      }
    }
  }

  /** Drives a fresh splitter over `haystack` until `next` returns None. */
  method SplitAll(haystack: Text, delimiter: Text) returns (pieces: seq<Text>)
    requires delimiter != []
    ensures pieces == Split(haystack, delimiter)
  {
    var it := new StrSplit(haystack, delimiter);
    pieces := [];
    var done := false;
    while !done
      invariant it.delimiter == delimiter
      invariant done ==> it.remainder == []
      invariant pieces + Split(it.remainder, delimiter) == Split(haystack, delimiter)
      decreases |it.remainder| + (if done then 0 else 1)
    {
      var item := it.Next();
      match item
      case None =>
        done := true;
      case Some(piece) =>
        pieces := pieces + [piece];
    }
  }

  /** Joining a piece in front of a non-empty list puts the delimiter between them. */
  lemma JoinCons(x: Text, ys: seq<Text>, d: Text)
    requires ys != []
    ensures Join([x] + ys, d) == x + d + Join(ys, d)
  {
    assert ([x] + ys)[1..] == ys;
  }

  /** The pieces followed by one empty piece join to the pieces' join plus a delimiter. */
  lemma {:induction false} JoinAppendEmpty(pieces: seq<Text>, d: Text)
    requires pieces != []
    ensures Join(pieces + [[]], d) == Join(pieces, d) + d
  {
    if |pieces| > 1 {
      assert (pieces + [[]])[1..] == pieces[1..] + [[]];
      JoinAppendEmpty(pieces[1..], d);
    }
  }

  /** A text without the character `c` does not contain the delimiter `[c]`. */
  lemma CharFreeHasNoOccurrence(s: Text, c: char)
    requires c !in s
    ensures !Occurs(s, [c])
  {
    forall j: nat | j < |s|
      ensures !OccursAt(s, [c], j)
    {
      assert s[j..j + 1][0] == s[j];
    }
  }

  /** In `p + [c] + rest` with `c` not in `p`, the first `c` sits right after `p`. */
  lemma FindCharAfterFreePrefix(p: Text, c: char, rest: Text)
    requires c !in p
    ensures FindFirst(p + [c] + rest, [c]) == Some(|p|)
  {
    var s := p + [c] + rest;
    assert s[|p|..|p| + 1] == [c];
    forall j: nat | j < |p|
      ensures !OccursAt(s, [c], j)
    {
      assert s[j..j + 1][0] == p[j];
    }
    assert OccursAt(s, [c], |p|);
  }

  /**
   * Splitting on a one-character delimiter undoes joining pieces that do not
   * contain it, as long as the last piece is not empty (an empty last piece
   * is the one `next` never returns).
   */
  lemma {:induction false} SplitJoinChar(ps: seq<Text>, c: char)
    requires ps != [] && ps[|ps| - 1] != []
    requires forall i :: 0 <= i < |ps| ==> c !in ps[i]
    ensures Split(Join(ps, [c]), [c]) == ps
  {
    if |ps| == 1 {
      CharFreeHasNoOccurrence(ps[0], c);
      SplitNoMatch(ps[0], [c]);
    } else {
      var rest := Join(ps[1..], [c]);
      var s := ps[0] + [c] + rest;
      assert Join(ps, [c]) == s;
      FindCharAfterFreePrefix(ps[0], c, rest);
      assert s[..|ps[0]|] == ps[0] && s[|ps[0]| + 1..] == rest;
      SplitAtMatch(s, [c], |ps[0]|);
      SplitJoinChar(ps[1..], c);
      assert ps == [ps[0]] + ps[1..];
    }
  }

  /** The example of the crate's test: "a b c d e" split on " ". */
  lemma SplitExample()
    ensures Split("a b c d e", " ") == ["a", "b", "c", "d", "e"]
  {
    var ps: seq<Text> := ["a", "b", "c", "d", "e"];
    assert Join(ps, " ") == "a b c d e";
    SplitJoinChar(ps, ' ');
  }
}
