# StrSplit: a verified model of a delimiter-splitting iterator

The crate defines `StrSplit`, an iterator over the pieces of a haystack
string between occurrences of a delimiter string. It holds two views: the
`remainder` of the haystack still to be split and the `delimiter`. `new`
starts with the whole haystack as the remainder. Each `next` looks for the
first occurrence of the delimiter in the remainder with `str::find`:

- if the delimiter is found at `p`, `next` returns the text before `p` and
  moves the remainder past the delimiter;
- if it is not found and the remainder is not empty, `next` returns the
  whole remainder and empties it;
- if it is not found and the remainder is empty, `next` returns `None`.

The last branch is marked `TODO: Bug` in the source. An empty remainder
means "no more items", so a haystack whose last delimiter match ends
exactly at its end loses its trailing empty piece, and the empty haystack
yields no piece at all.
The evidently intended iterator keeps "active with an empty remainder"
apart from "exhausted". There the empty remainder still yields one empty
piece, and every haystack yields at least one piece. Where the two
disagree, this model follows the code as written (module `Splitting`). The
intended iterator is modelled beside it (module `FixedSplitting`), and
lemmas relate the two.

Modules:

- `Wrappers`: the `Option` type.
- `Search`: `str::find` for a string pattern, as `FindFirst`, the least
  index where the pattern occurs. Text is `seq<char>`. Rust's `find` only
  returns character boundaries, so character indices and byte offsets
  slice the text the same way.
- `Splitting`: the iterator as written. The class `StrSplit` has the two
  fields. `Next` changes `remainder` only, and is proved against the pure
  function `NextStep`. `Split` gives all the pieces a splitter yields, and
  `SplitAll` drives a fresh `StrSplit` until `next` returns `None`. It is
  proved to return `Split`.
- `FixedSplitting`: the corrected iterator, with state `Exhausted` or
  `Active(rest)`, in the same shape (`NextFixed`, `Drain`, `SplitFixed`,
  class `FixedStrSplit`, `SplitAllFixed`). It also holds the lemmas that
  compare the corrected split with the one as written.

An empty delimiter is accepted by `new` and by `next`. `find` then matches
at index 0, so `next` returns an empty piece and leaves the remainder as it
was, and the iteration never ends. `Split`, `SplitAll` and `CountMatches`
therefore require a non-empty delimiter. `NextStep` and `Next` do not.

One might expect a haystack ending in the delimiter to have an empty last
piece in the corrected split. That holds for one-character delimiters
(`EndsWithCharGivesEmptyLastPiece`). It does not hold for a delimiter that
overlaps itself: "aaa" split on "aa" gives "" and "a".

## Model

| member | source | states |
|---|---|---|
| `Search.FindFrom` | src/lib.rs:21 | scanning from `i`: a result is an occurrence at or after `i` with none between `i` and it; no result means no occurrence at or after `i` |
| `Search.FindFirst` | src/lib.rs:21 | `find`: `Some(p)` means the delimiter occurs at `p` and at no smaller index; `None` means it occurs nowhere; the empty pattern is found at 0 |
| `Search.CutAtOccurrence` | src/lib.rs:22-23 | an occurrence at `p` cuts the text into the part before it, the delimiter and the part after it |
| `Search.PrefixBeforeFirstIsFree` | src/lib.rs:22 | the text before the first occurrence does not contain the delimiter |
| `Splitting.NextStep` | src/lib.rs:20-37 | one `next`: it returns `None` exactly when the remainder is empty and the delimiter is not; `None` leaves the remainder unchanged; with a non-empty delimiter every returned item shortens the remainder |
| `Splitting.NextStepCutsAtFirstMatch` | src/lib.rs:21-24 | when the delimiter occurs: the item is the text before its first occurrence (no occurrence below the item's length), and item + delimiter + new remainder is the old remainder |
| `Splitting.NextStepWithoutMatch` | src/lib.rs:32-35 | when the delimiter does not occur in a non-empty remainder, `next` returns all of it and leaves the remainder empty |
| `Splitting.EmptyDelimiterStalls` | src/lib.rs:21-23 | with an empty delimiter, `next` returns an empty item and the remainder does not shrink |
| `Splitting.CountMatchesZero` | src/lib.rs:21 | no non-overlapping match is counted exactly when the delimiter does not occur |
| `Splitting.CountMatchesFit` | src/lib.rs:21-23 | the counted matches do not overlap: count × delimiter length ≤ text length |
| `Splitting.Split` | src/lib.rs:26-29 | the pieces a splitter yields are empty exactly for the empty haystack |
| `Splitting.SplitAtMatch` | src/lib.rs:21-24 | where the first match is at `p`, the pieces are the text before `p` followed by the pieces of the text after the delimiter |
| `Splitting.SplitNoMatch` | src/lib.rs:26-35 | without a match, the pieces are the haystack alone, or nothing when it is empty |
| `Splitting.SplitCount` | src/lib.rs:21-35 | the number of pieces lies between the number of non-overlapping matches and that number plus one |
| `Splitting.NextStepItemIsFree` | src/lib.rs:21-22 | an item returned by `next` never contains the delimiter |
| `Splitting.SplitPiecesAreFree` | src/lib.rs:20-37 | no piece of a split contains the delimiter |
| `Splitting.StrSplit.constructor` | src/lib.rs:10-15 | `new` sets the remainder to the haystack and keeps the delimiter as given |
| `Splitting.StrSplit.Next` | src/lib.rs:20-37 | `next` changes only the remainder; the item and new remainder are those of `NextStep`; case by case: the text before the first match and the text after it, or the whole remainder then empty, or `None` with the remainder unchanged; a returned item shortens the remainder when the delimiter is non-empty |
| `Splitting.SplitAll` | src/lib.rs:20-37 | calling `next` on a fresh splitter until `None` collects exactly `Split(haystack, delimiter)` |
| `Splitting.FindCharAfterFreePrefix` | src/lib.rs:21 | `find` of a one-character delimiter in `p + [c] + rest`, with `c` not in `p`, is `|p|` |
| `Splitting.SplitJoinChar` | src/lib.rs:20-37 | splitting on a one-character delimiter undoes joining pieces that do not contain it, provided the last piece is non-empty |
| `Splitting.SplitExample` | src/lib.rs:41-44 | "a b c d e" split on " " yields exactly "a", "b", "c", "d", "e" |
| `FixedSplitting.NextFixed` | src/lib.rs:26-29 | corrected `next`: it returns `None` exactly from the exhausted state, and with a non-empty delimiter every item moves the state on |
| `FixedSplitting.Drain` | src/lib.rs:20-37 | an active state yields at least one piece, an exhausted one none; the corrected split `SplitFixed(h, d)` is `Drain(Active(h), d)` |
| `FixedSplitting.SplitFixedCount` | src/lib.rs:21-35 | the corrected split has exactly one more piece than there are non-overlapping matches |
| `FixedSplitting.FixedStrSplit.constructor` | src/lib.rs:10-15 | starts active on the whole haystack, delimiter kept |
| `FixedSplitting.FixedStrSplit.Next` | src/lib.rs:20-37 | changes only the state, as `NextFixed` says; returns `None` exactly when exhausted |
| `FixedSplitting.SplitAllFixed` | src/lib.rs:20-37 | driving the corrected splitter to exhaustion collects exactly `SplitFixed` |
| `FixedSplitting.SplitFixedRejoin` | src/lib.rs:21-35 | total coverage: the corrected pieces joined with the delimiter are the haystack |
| `FixedSplitting.SplitFixedJoinChar` | src/lib.rs:21-35 | the corrected split on a one-character delimiter undoes joining any non-empty list of pieces without it, empty pieces included |
| `FixedSplitting.SplitDropsTrailingEmpty` | src/lib.rs:26-29 | the split as written is the corrected split without its last piece when that piece is empty, and the same otherwise |
| `FixedSplitting.SplitRejoin` | src/lib.rs:20-37 | the pieces as written join to the haystack, or to the haystack less one final delimiter |
| `FixedSplitting.SplitJoinCharDropsEmptyLast` | src/lib.rs:26-29 | joining pieces that end in an empty piece and splitting again, as written, loses that piece |
| `FixedSplitting.RejoinMissesFinalDelimiter` | src/lib.rs:26-29 | in that case the pieces as written join to the text less its final delimiter |
| `FixedSplitting.EmptyHaystack` | src/lib.rs:26-29 | the empty haystack yields no piece as written and one empty piece as intended |
| `FixedSplitting.TrailingPieceLost` | src/lib.rs:26-29 | "a b c d " split on " " as written yields "a", "b", "c", "d", which does not join back to the haystack |
| `FixedSplitting.TrailingPieceKept` | src/lib.rs:26-29 | the corrected split of "a b c d " yields "a", "b", "c", "d", "" |
| `FixedSplitting.EmptyLastPieceEndsWithDelimiter` | src/lib.rs:21-24 | a non-empty haystack whose corrected last piece is empty ends with the delimiter |
| `FixedSplitting.EndsWithCharGivesEmptyLastPiece` | src/lib.rs:21-24 | a haystack ending in a one-character delimiter has an empty corrected last piece |
| `FixedSplitting.OverlappingDelimiterKeepsLastPiece` | src/lib.rs:21-23 | "aaa" split on "aa" gives "" and "a": a self-overlapping delimiter at the end need not leave an empty last piece |

## Left out

- Lifetimes and borrowing: the `&str` views (src/lib.rs:4-7, 19) are modelled as immutable `seq<char>` values, so whether a piece borrows the haystack is not modelled.
- UTF-8: offsets are character indices, not byte offsets, so char-boundary panics on slicing do not arise. `find` only returns boundaries.
- `self.remainder = &[]` at src/lib.rs:34 does not type-check as written. It is modelled as assigning the empty string.
- The `Iterator` trait machinery, and the misspelled `Optional` in the return type (src/lib.rs:18-20): only the `next` step is modelled, returning `Option`.
- The crate attributes and lints (src/lib.rs:1-2) have no behaviour.
- The test function (src/lib.rs:40-45) does not compile: its `for` loop has no body and it names an undeclared variable. Only its expected output is kept, as `Splitting.SplitExample`.
- Splitting.Split: requires a non-empty delimiter, because with an empty one `next` never ends the iteration (`Splitting.EmptyDelimiterStalls` shows why).
- Splitting.SplitAll: requires a non-empty delimiter, for the same reason.

## Findings

| source | as written | input that shows it | evidently intended | confidence | as-written member | corrected member |
|---|---|---|---|---|---|---|
| src/lib.rs:26-29 | `next` returns `None` as soon as the remainder is empty, even after a match that ended exactly at the end of the haystack | "a b c d " on " " yields "a", "b", "c", "d" (the trailing "" is lost, and the pieces no longer join back to the haystack); "" yields nothing | an empty remainder that was not yet returned yields one last empty piece, so the pieces always join back to the haystack: "a", "b", "c", "d", "" and "" | high: the source itself marks the branch `TODO: Bug`; not executed | `FixedSplitting.TrailingPieceLost` | `FixedSplitting.SplitFixedRejoin` |
