/** The parts of PCRE that the two patterns of the shortcode plugin use:
    the character classes `\s`, `\w` and `.`, a greedy run of one class, a
    lazy `.*?` up to a closing character, and the left-to-right,
    non-overlapping search of `preg_match_all`. */
module Pcre {
  import opened Wrappers

  /** `\s` with PCRE's default tables: space, tab, line feed, vertical
      tab, form feed and carriage return (code points 9 to 13 and 32). */
  predicate IsSpace(c: char)
  {
    c == ' ' || '\t' <= c <= '\r'
  }

  /** `\w` without Unicode support: `[A-Za-z0-9_]`. */
  predicate IsWordChar(c: char)
  {
    'a' <= c <= 'z' || 'A' <= c <= 'Z' || '0' <= c <= '9' || c == '_'
  }

  /** A match reported by the search: the matched text is
      `subject[start..end]`, `groups` holds what the capturing groups
      captured. */
  datatype Match<G> = Match(start: nat, end: nat, groups: G)

  /** A pattern is given by what a match attempt anchored at a position
      yields; it is well behaved on `t` when every match it reports starts
      where it was tried, is not empty and stays inside `t`. */
  ghost predicate Anchored<G>(pattern: (string, nat) -> Option<Match<G>>, t: string)
  {
    forall q: nat :: pattern(t, q).Some? ==>
      pattern(t, q).value.start == q < pattern(t, q).value.end <= |t|
  }

  /** `preg_match_all`: try the pattern at `from`; after a match go on at
      its end, otherwise at the next position. */
  function MatchAll<G>(pattern: (string, nat) -> Option<Match<G>>, t: string, from: nat): (ms: seq<Match<G>>)
    requires from <= |t| && Anchored(pattern, t)
    ensures |ms| <= |t| - from
    decreases |t| - from
  {
    if from == |t| then []
    else match pattern(t, from)
      case Some(m) => [m] + MatchAll(pattern, t, m.end)
      case None => MatchAll(pattern, t, from + 1)
  }

  /** The `i`-th gap of a scan from `from` with matches `ms`: the
      positions between the end of match `i - 1` (or `from`) and the start
      of match `i` (or the end of `t`). */
  function GapStart<G>(ms: seq<Match<G>>, i: int, from: nat): int
  {
    if 0 < i <= |ms| then ms[i - 1].end else from
  }

  function GapEnd<G>(ms: seq<Match<G>>, i: int, t: string): int
  {
    if 0 <= i < |ms| then ms[i].start else |t|
  }

  /** The declarative reading of a left-to-right search from `from`: every
      reported match is what the pattern yields where it starts, the
      matches come in order without overlapping, and the pattern yields
      nothing anywhere in the gaps around them. */
  ghost predicate IsLeftmostScan<G>(pattern: (string, nat) -> Option<Match<G>>, t: string, from: nat, ms: seq<Match<G>>)
  {
    && (forall i :: 0 <= i < |ms| ==> pattern(t, ms[i].start) == Some(ms[i]))
    && (forall i :: 0 <= i <= |ms| ==> GapStart(ms, i, from) <= GapEnd(ms, i, t))
    && (forall i, q: nat :: 0 <= i <= |ms| && GapStart(ms, i, from) <= q < GapEnd(ms, i, t) ==> pattern(t, q).None?)
  }

  /** `MatchAll` performs a leftmost scan. */
  lemma {:induction false} MatchAllIsLeftmostScan<G>(pattern: (string, nat) -> Option<Match<G>>, t: string, from: nat)
    requires from <= |t| && Anchored(pattern, t)
    ensures IsLeftmostScan(pattern, t, from, MatchAll(pattern, t, from))
    decreases |t| - from
  {
    var ms := MatchAll(pattern, t, from);
    if from == |t| {
    } else {
      match pattern(t, from)
      case Some(m) =>
        var rest := MatchAll(pattern, t, m.end);
        assert ms == [m] + rest;
        MatchAllIsLeftmostScan(pattern, t, m.end);
        LeftmostScanCons(pattern, t, from, m, rest);
      case None =>
        assert ms == MatchAll(pattern, t, from + 1);
        MatchAllIsLeftmostScan(pattern, t, from + 1);
        LeftmostScanSkip(pattern, t, from, ms);
    }
  }

  /** A position where the pattern yields nothing can be added in front of
      a leftmost scan. */
  lemma LeftmostScanSkip<G>(pattern: (string, nat) -> Option<Match<G>>, t: string, from: nat, ms: seq<Match<G>>)
    requires from < |t| && pattern(t, from).None?
    requires IsLeftmostScan(pattern, t, from + 1, ms)
    ensures IsLeftmostScan(pattern, t, from, ms)
  {
    forall i, q: nat | 0 <= i <= |ms| && GapStart(ms, i, from) <= q < GapEnd(ms, i, t)
      ensures pattern(t, q).None?
    {
      if i == 0 && q == from {
      } else {
        assert GapStart(ms, i, from + 1) <= q;
      }
    }
  }

  /** A match at `from` followed by a leftmost scan from its end is a
      leftmost scan from `from`. */
  lemma LeftmostScanCons<G>(pattern: (string, nat) -> Option<Match<G>>, t: string, from: nat, m: Match<G>, rest: seq<Match<G>>)
    requires Anchored(pattern, t) && from <= |t|
    requires pattern(t, from) == Some(m)
    requires IsLeftmostScan(pattern, t, m.end, rest)
    ensures IsLeftmostScan(pattern, t, from, [m] + rest)
  {
    var ms := [m] + rest;
    assert forall i :: 1 <= i < |ms| ==> ms[i] == rest[i - 1];
    assert forall i :: 1 <= i <= |ms| ==> GapStart(ms, i, from) == GapStart(rest, i - 1, m.end);
    assert forall i :: 1 <= i <= |ms| ==> GapEnd(ms, i, t) == GapEnd(rest, i - 1, t);
  }

  /** A leftmost scan is unique: whatever satisfies the declarative reading
      is exactly what `MatchAll` returns. */
  lemma {:induction false} LeftmostScanIsUnique<G>(pattern: (string, nat) -> Option<Match<G>>, t: string, from: nat, ms: seq<Match<G>>)
    requires from <= |t| && Anchored(pattern, t)
    requires IsLeftmostScan(pattern, t, from, ms)
    ensures ms == MatchAll(pattern, t, from)
    decreases |t| - from
  {
    if from == |t| {
    } else {
      match pattern(t, from)
      case Some(m) =>
        assert GapStart(ms, 0, from) == from;
        assert ms[0].start == from;
        var rest := ms[1..];
        assert forall i :: 0 <= i < |rest| ==> rest[i] == ms[i + 1];
        assert forall i :: 0 <= i <= |rest| ==> GapStart(rest, i, m.end) == GapStart(ms, i + 1, from);
        assert forall i :: 0 <= i <= |rest| ==> GapEnd(rest, i, t) == GapEnd(ms, i + 1, t);
        LeftmostScanIsUnique(pattern, t, m.end, rest);
        assert ms == [m] + rest;
      case None =>
        LeftmostScanIsUnique(pattern, t, from + 1, ms);
    }
  }

  /** A subject on which the pattern matches nowhere has no matches. */
  lemma NoMatchAnywhere<G>(pattern: (string, nat) -> Option<Match<G>>, t: string)
    requires Anchored(pattern, t)
    requires forall q: nat :: q < |t| ==> pattern(t, q).None?
    ensures MatchAll(pattern, t, 0) == []
  {
    LeftmostScanIsUnique(pattern, t, 0, []);
  }

  /** The end of the greedy run of `cls` characters that starts at `i`. */
  function RunEnd(t: string, i: nat, cls: char -> bool): (j: nat)
    requires i <= |t|
    ensures i <= j <= |t|
    ensures forall k :: i <= k < j ==> cls(t[k])
    ensures j < |t| ==> !cls(t[j])
    decreases |t| - i
  {
    if i < |t| && cls(t[i]) then RunEnd(t, i + 1, cls) else i
  }

  /** `.*?` starting at `i` can stop at `c`, where a `close` character
      follows: `c` is in `t`, holds a `close` character, and no line feed
      (the one character `.` does not match) lies in between. */
  predicate DotsThen(t: string, i: int, c: int, close: char -> bool)
  {
    0 <= i <= c < |t| && close(t[c]) && forall k :: i <= k < c ==> t[k] != '\n'
  }

  /** Where the lazy `.*?` followed by a `close` character stops: the
      first position it can stop at, or `None` when there is none. */
  function LazyDotsUntil(t: string, i: nat, close: char -> bool): (r: Option<nat>)
    requires i <= |t|
    requires !close('\n')
    ensures r.Some? ==> DotsThen(t, i, r.value, close)
    ensures r.Some? ==> forall k :: i <= k < r.value ==> !close(t[k])
    ensures r.None? ==> forall c :: !DotsThen(t, i, c, close)
    decreases |t| - i
  {
    if i == |t| then None
    else if close(t[i]) then Some(i)
    else if t[i] == '\n' then None
    else
      assert forall c :: DotsThen(t, i, c, close) ==> DotsThen(t, i + 1, c, close);
      LazyDotsUntil(t, i + 1, close)
  }
}
