/**
 * The splitter as evidently intended, with the defect marked `TODO: Bug` in
 * src/lib.rs fixed: the state is either exhausted or active with a remainder,
 * and an active empty remainder still yields one last, empty piece. The
 * lemmas at the end relate it to the iterator as written (module Splitting).
 */
module FixedSplitting {
  import opened Wrappers
  import opened Search
  import opened Splitting

  /** `Active(r)` still has the piece or pieces of `r` to yield; `Exhausted` has none. */
  datatype State = Exhausted | Active(rest: Text)

  /** The outcome of one corrected `next` call: the item returned and the new state. */
  datatype FixedStep = FixedStep(item: Option<Text>, state: State)

  /** How much is left to yield: pieces can come out of an active state only. */
  function Size(st: State): nat
  {
    match st
    case Exhausted => 0
    case Active(r) => |r| + 1
  }

  /**
   * One corrected `next` call. It yields nothing exactly when the state is
   * exhausted, and with a non-empty delimiter every item moves the state on.
   */
  function NextFixed(st: State, d: Text): (s: FixedStep)
    ensures s.item.None? <==> st == Exhausted
    ensures s.item.None? ==> s.state == Exhausted
    ensures d != [] && s.item.Some? ==> Size(s.state) < Size(st)
  {
    match st
    case Exhausted => FixedStep(None, Exhausted)
    case Active(rem) =>
      match FindFirst(rem, d)
      case Some(p) => FixedStep(Some(rem[..p]), Active(rem[p + |d|..]))
      case None => FixedStep(Some(rem), Exhausted)
  }

  /**
   * The pieces the corrected splitter yields from state `st` on: at least
   * one from an active state, none once exhausted.
   */
  function Drain(st: State, d: Text): (pieces: seq<Text>)
    requires d != []
    decreases Size(st)
    ensures st == Exhausted ==> pieces == []
    ensures st.Active? ==> pieces != []
  {
    var s := NextFixed(st, d);
    match s.item
    case None => []
    case Some(piece) => [piece] + Drain(s.state, d)
  }

  /** The pieces of `h`, as the corrected splitter yields them. */
  function SplitFixed(h: Text, d: Text): seq<Text>
    requires d != []
  {
    Drain(Active(h), d)
  }

  /** The first step of the corrected split, where the delimiter occurs first at `p`. */
  lemma SplitFixedAtMatch(h: Text, d: Text, p: nat)
    requires d != [] && FindFirst(h, d) == Some(p)
    ensures SplitFixed(h, d) == [h[..p]] + SplitFixed(h[p + |d|..], d)
  {
    assert NextFixed(Active(h), d) == FixedStep(Some(h[..p]), Active(h[p + |d|..]));
  }

  /** Where the delimiter does not occur, the corrected split has the whole haystack as its one piece. */
  lemma SplitFixedNoMatch(h: Text, d: Text)
    requires d != [] && FindFirst(h, d) == None
    ensures SplitFixed(h, d) == [h]
  {
    assert NextFixed(Active(h), d) == FixedStep(Some(h), Exhausted);
  }

  /** Exactly one more piece than there are matches: at least one, and finitely many. */
  lemma {:induction false} SplitFixedCount(h: Text, d: Text)
    requires d != []
    ensures |SplitFixed(h, d)| == CountMatches(h, d) + 1
    decreases |h|
  {
    match FindFirst(h, d)
    case None =>
      SplitFixedNoMatch(h, d);
      assert CountMatches(h, d) == 0;
    case Some(p) =>
      SplitFixedAtMatch(h, d, p);
      SplitFixedCount(h[p + |d|..], d);
      assert CountMatches(h, d) == 1 + CountMatches(h[p + |d|..], d);
  }

  class FixedStrSplit {
    var state: State
    var delimiter: Text

    /** Starts active on the whole haystack, with the delimiter kept as given. */
    constructor (haystack: Text, delimiter: Text)
      ensures state == Active(haystack) && this.delimiter == delimiter
    {
      state := Active(haystack);
      this.delimiter := delimiter;
    }

    /** The corrected `next`: only the state changes. */
    method Next() returns (item: Option<Text>)
      modifies this`state
      ensures delimiter == old(delimiter)
      ensures FixedStep(item, state) == NextFixed(old(state), delimiter)
      ensures item.None? <==> old(state) == Exhausted
    {
      match state
      case Exhausted =>
        item := None;
      case Active(rem) =>
        var found := FindFirst(rem, delimiter);
        if found.Some? {
          var p := found.value;
          item := Some(rem[..p]);
          state := Active(rem[p + |delimiter|..]);
        } else {
          item := Some(rem);
          state := Exhausted;
        }
    }
  }

  /** Drives a fresh corrected splitter over `haystack` until it is exhausted. */
  method SplitAllFixed(haystack: Text, delimiter: Text) returns (pieces: seq<Text>)
    requires delimiter != []
    ensures pieces == SplitFixed(haystack, delimiter)
  {
    var it := new FixedStrSplit(haystack, delimiter);
    pieces := [];
    while it.state.Active?
      invariant it.delimiter == delimiter
      invariant pieces + Drain(it.state, delimiter) == SplitFixed(haystack, delimiter)
      decreases Size(it.state)
    {
      var item := it.Next();
      pieces := pieces + [item.value];
    }
  }

  /** Total coverage: the pieces, joined with the delimiter, are the haystack. */
  lemma {:induction false} SplitFixedRejoin(h: Text, d: Text)
    requires d != []
    ensures Join(SplitFixed(h, d), d) == h
    decreases |h|
  {
    match FindFirst(h, d)
    case None =>
      SplitFixedNoMatch(h, d);
    case Some(p) =>
      var rest := h[p + |d|..];
      SplitFixedAtMatch(h, d, p);
      SplitFixedRejoin(rest, d);
      JoinCons(h[..p], SplitFixed(rest, d), d);
      CutAtOccurrence(h, d, p);
  }

  /**
   * Splitting on a one-character delimiter undoes joining any non-empty list
   * of pieces that do not contain it, empty pieces included.
   */
  lemma {:induction false} SplitFixedJoinChar(ps: seq<Text>, c: char)
    requires ps != []
    requires forall i :: 0 <= i < |ps| ==> c !in ps[i]
    ensures SplitFixed(Join(ps, [c]), [c]) == ps
  {
    if |ps| == 1 {
      CharFreeHasNoOccurrence(ps[0], c);
      SplitFixedNoMatch(ps[0], [c]);
    } else {
      var rest := Join(ps[1..], [c]);
      var s := ps[0] + [c] + rest;
      assert Join(ps, [c]) == s;
      FindCharAfterFreePrefix(ps[0], c, rest);
      assert s[..|ps[0]|] == ps[0] && s[|ps[0]| + 1..] == rest;
      SplitFixedAtMatch(s, [c], |ps[0]|);
      SplitFixedJoinChar(ps[1..], c);
      assert ps == [ps[0]] + ps[1..];
    }
  }

  /**
   * The iterator as written yields the corrected pieces, except that it drops
   * the last one when that is empty.
   */
  lemma {:induction false} SplitDropsTrailingEmpty(h: Text, d: Text)
    requires d != []
    ensures var f := SplitFixed(h, d);
      Split(h, d) == if f[|f| - 1] == [] then f[..|f| - 1] else f
    decreases |h|
  {
    match FindFirst(h, d)
    case None =>
      SplitFixedNoMatch(h, d);
      SplitNoMatch(h, d);
    case Some(p) =>
      var rest := h[p + |d|..];
      SplitFixedAtMatch(h, d, p);
      SplitAtMatch(h, d, p);
      SplitDropsTrailingEmpty(rest, d);
      var f, g := SplitFixed(h, d), SplitFixed(rest, d);
      assert f[|f| - 1] == g[|g| - 1];
      assert f[..|f| - 1] == [h[..p]] + g[..|g| - 1];
  }

  /**
   * Coverage of the iterator as written: joining its pieces gives the
   * haystack, or the haystack without the delimiter it ends with.
   */
  lemma SplitRejoin(h: Text, d: Text)
    requires d != []
    ensures h == Join(Split(h, d), d) || h == Join(Split(h, d), d) + d
  {
    SplitDropsTrailingEmpty(h, d);
    SplitFixedRejoin(h, d);
    var f := SplitFixed(h, d);
    if f[|f| - 1] == [] && |f| > 1 {
      assert f == f[..|f| - 1] + [[]];
      JoinAppendEmpty(f[..|f| - 1], d);
    }
  }

  /**
   * Joining pieces without `c` that end in an empty piece, and splitting
   * again, loses that empty piece: the iterator as written is not the
   * inverse of joining.
   */
  lemma SplitJoinCharDropsEmptyLast(ps: seq<Text>, c: char)
    requires ps != [] && ps[|ps| - 1] == []
    requires forall i :: 0 <= i < |ps| ==> c !in ps[i]
    ensures Split(Join(ps, [c]), [c]) == ps[..|ps| - 1]
  {
    var h := Join(ps, [c]);
    SplitFixedJoinChar(ps, c);
    SplitDropsTrailingEmpty(h, [c]);
  }

  /** In that case joining the pieces again gives the text without its final delimiter. */
  lemma RejoinMissesFinalDelimiter(ps: seq<Text>, c: char)
    requires |ps| > 1 && ps[|ps| - 1] == []
    requires forall i :: 0 <= i < |ps| ==> c !in ps[i]
    ensures Join(Split(Join(ps, [c]), [c]), [c]) + [c] == Join(ps, [c])
  {
    SplitJoinCharDropsEmptyLast(ps, c);
    var init := ps[..|ps| - 1];
    assert ps == init + [[]];
    JoinAppendEmpty(init, [c]);
  }

  /** The empty haystack: no piece as written, one empty piece as intended. */
  lemma EmptyHaystack(d: Text)
    requires d != []
    ensures Split([], d) == [] && SplitFixed([], d) == [[]]
  {
    assert !OccursAt([], d, 0);
    SplitFixedNoMatch([], d);
  }

  /**
   * The defect on a concrete input: "a b c d " loses its trailing empty
   * piece, so its pieces no longer join back to it.
   */
  lemma TrailingPieceLost()
    ensures Split("a b c d ", " ") == ["a", "b", "c", "d"]
    ensures Join(Split("a b c d ", " "), " ") != "a b c d "
  {
    var ps: seq<Text> := ["a", "b", "c", "d", ""];
    assert Join(ps, " ") == "a b c d ";
    SplitJoinCharDropsEmptyLast(ps, ' ');
    RejoinMissesFinalDelimiter(ps, ' ');
    assert ps[..4] == ["a", "b", "c", "d"];
  }

  /** The same input split as intended keeps the trailing empty piece. */
  lemma TrailingPieceKept()
    ensures SplitFixed("a b c d ", " ") == ["a", "b", "c", "d", ""]
  {
    var ps: seq<Text> := ["a", "b", "c", "d", ""];
    assert Join(ps, " ") == "a b c d ";
    SplitFixedJoinChar(ps, ' ');
  }

  /** A corrected split whose last piece is empty comes from a haystack ending in the delimiter. */
  lemma {:induction false} EmptyLastPieceEndsWithDelimiter(h: Text, d: Text)
    requires d != [] && h != []
    requires var f := SplitFixed(h, d); f[|f| - 1] == []
    ensures |d| <= |h| && h[|h| - |d|..] == d
    decreases |h|
  {
    match FindFirst(h, d)
    case None =>
    case Some(p) =>
      var rest := h[p + |d|..];
      SplitFixedAtMatch(h, d, p);
      if rest == [] {
        assert h[|h| - |d|..] == h[p..p + |d|];
      } else {
        EmptyLastPieceEndsWithDelimiter(rest, d);
        assert h[|h| - |d|..] == rest[|rest| - |d|..];
      }
  }

  /** A haystack ending in a one-character delimiter has an empty last piece. */
  lemma {:induction false} EndsWithCharGivesEmptyLastPiece(h: Text, c: char)
    requires h != [] && h[|h| - 1] == c
    ensures var f := SplitFixed(h, [c]); f[|f| - 1] == []
    decreases |h|
  {
    assert OccursAt(h, [c], |h| - 1) by {
      assert h[|h| - 1..|h|] == [c];
    }
    var p := FindFirst(h, [c]).value;
    var rest := h[p + 1..];
    SplitFixedAtMatch(h, [c], p);
    if rest != [] {
      EndsWithCharGivesEmptyLastPiece(rest, c);
    }
  }

  /**
   * For a delimiter that overlaps itself, ending in the delimiter does not
   * make the last piece empty: "aaa" on "aa" gives "" and "a".
   */
  lemma OverlappingDelimiterKeepsLastPiece()
    ensures SplitFixed("aaa", "aa") == ["", "a"]
  {
    var h: Text := "aaa";
    assert OccursAt(h, "aa", 0) by {
      assert h[0..2] == "aa";
    }
    assert FindFirst(h, "aa") == Some(0);
    SplitFixedAtMatch(h, "aa", 0);
    assert h[2..] == "a" && h[..0] == "";
    assert !OccursAt("a", "aa", 0);
    assert FindFirst("a", "aa") == None;
  }
}
