/** The optional value returned by `str::find` and by `Iterator::next`. */
module Wrappers {
  datatype Option<+T> = None | Some(value: T)
}

/**
 * Substring search, as the splitter uses Rust's `str::find` with a `&str`
 * pattern. Text is modelled at the level of characters: `find` only ever
 * returns an index on a character boundary, so slicing at that index is the
 * same whether it is counted in bytes or in characters.
 */
module Search {
  import opened Wrappers

  type Text = seq<char>

  /** `d` occurs in `s` starting at index `i`. */
  predicate OccursAt(s: Text, d: Text, i: nat)
  {
    i + |d| <= |s| && s[i..i + |d|] == d
  }

  /** `d` occurs somewhere in `s`. */
  ghost predicate Occurs(s: Text, d: Text)
  {
    exists i: nat :: OccursAt(s, d, i)
  }

  /** The least index at or after `i` where `d` occurs in `s`, if any. */
  function FindFrom(s: Text, d: Text, i: nat): (r: Option<nat>)
    decreases |s| - i
    ensures r.Some? ==> i <= r.value && OccursAt(s, d, r.value)
    ensures r.Some? ==> forall j: nat :: i <= j < r.value ==> !OccursAt(s, d, j)
    ensures r.None? ==> forall j: nat :: i <= j ==> !OccursAt(s, d, j)
  {
    if i + |d| > |s| then None
    else if s[i..i + |d|] == d then Some(i)
    else FindFrom(s, d, i + 1)
  }

  /**
   * `s.find(d)`: the index of the first occurrence of `d` in `s`, or None.
   * An empty pattern occurs at index 0 of every text, the empty one included.
   */
  function FindFirst(s: Text, d: Text): (r: Option<nat>)
    ensures r.Some? ==> OccursAt(s, d, r.value)
    ensures r.Some? ==> forall j: nat :: j < r.value ==> !OccursAt(s, d, j)
    ensures r.None? ==> forall j: nat :: !OccursAt(s, d, j)
    ensures d == [] ==> r == Some(0)
  {
    FindFrom(s, d, 0)
  }

  /** An occurrence of `d` at `p` cuts `s` into the text before it, `d` and the text after it. */
  lemma CutAtOccurrence(s: Text, d: Text, p: nat)
    requires OccursAt(s, d, p)
    ensures s == s[..p] + d + s[p + |d|..]
  {
    assert s == s[..p] + s[p..p + |d|] + s[p + |d|..];
  }

  /** A prefix of `s` that ends before the first occurrence of `d` does not contain `d`. */
  lemma PrefixBeforeFirstIsFree(s: Text, d: Text, p: nat)
    requires d != [] && p <= |s|
    requires forall j: nat :: j < p ==> !OccursAt(s, d, j)
    ensures !Occurs(s[..p], d)
  {
    forall j: nat | OccursAt(s[..p], d, j)
      ensures false
    {
      assert s[..p][j..j + |d|] == s[j..j + |d|];
      assert OccursAt(s, d, j);
    }
  }
}
