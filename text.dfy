/** The PHP string primitives the shortcode plugin relies on: `strpos`,
    `str_replace` with one search string, `strtolower`, and `explode` /
    `implode`, which serve as the reference definition of `str_replace`. */
module Text {
  import opened Wrappers

  /** `needle` occurs in `s` at index `i`. */
  predicate OccursAt(s: string, needle: string, i: int)
  {
    0 <= i && i + |needle| <= |s| && s[i..i + |needle|] == needle
  }

  predicate Contains(s: string, needle: string)
  {
    exists i :: 0 <= i <= |s| && OccursAt(s, needle, i)
  }

  /** `strpos($s, $needle)`: the first index at which `needle` occurs, or
      `None` (PHP's `false`) when it does not occur at all. */
  function Strpos(s: string, needle: string): (r: Option<nat>)
    ensures r.Some? ==> OccursAt(s, needle, r.value)
    ensures r.Some? ==> forall i :: 0 <= i < r.value ==> !OccursAt(s, needle, i)
    ensures r.None? <==> !Contains(s, needle)
  {
    StrposFrom(s, needle, 0)
  }

  function StrposFrom(s: string, needle: string, from: nat): (r: Option<nat>)
    ensures r.Some? ==> from <= r.value && OccursAt(s, needle, r.value)
    ensures r.Some? ==> forall i :: from <= i < r.value ==> !OccursAt(s, needle, i)
    ensures r.None? ==> forall i :: from <= i ==> !OccursAt(s, needle, i)
    decreases |s| - from
  {
    if from + |needle| > |s| then None
    else if s[from..from + |needle|] == needle then Some(from)
    else StrposFrom(s, needle, from + 1)
  }

  /** `str_replace($search, $replace, $s)`: scans `s` from the left and
      replaces every non-overlapping occurrence of `search`; an empty
      `search` leaves `s` as it is. */
  function ReplaceAll(s: string, search: string, replace: string): (r: string)
    ensures |replace| == |search| ==> |r| == |s|
    decreases |s|
  {
    if search == [] || |s| < |search| then s
    else if s[..|search|] == search then replace + ReplaceAll(s[|search|..], search, replace)
    else [s[0]] + ReplaceAll(s[1..], search, replace)
  }

  /** `explode($sep, $s)`: the pieces of `s` between the occurrences of
      `sep` found by the same left-to-right scan. */
  function Split(s: string, sep: string): (pieces: seq<string>)
    requires sep != []
    ensures |pieces| >= 1 && pieces[0] <= s
    decreases |s|
  {
    if |s| < |sep| then [s]
    else if s[..|sep|] == sep then [[]] + Split(s[|sep|..], sep)
    else
      var rest := Split(s[1..], sep);
      [[s[0]] + rest[0]] + rest[1..]
  }

  /** `implode($sep, $pieces)`. */
  function Join(pieces: seq<string>, sep: string): string
  {
    if pieces == [] then []
    else if |pieces| == 1 then pieces[0]
    else pieces[0] + sep + Join(pieces[1..], sep)
  }

  lemma JoinConsChar(c: char, pieces: seq<string>, sep: string)
    requires |pieces| >= 1
    ensures Join([[c] + pieces[0]] + pieces[1..], sep) == [c] + Join(pieces, sep)
  {
    var ps := [[c] + pieces[0]] + pieces[1..];
    assert ps[1..] == pieces[1..];
  }

  /** `str_replace` replaces exactly the separators of `explode`: the
      result is the pieces between occurrences, glued with `replace`. */
  lemma {:induction false} ReplaceAllIsSplitJoin(s: string, search: string, replace: string)
    requires search != []
    ensures ReplaceAll(s, search, replace) == Join(Split(s, search), replace)
    decreases |s|
  {
    if |s| < |search| {
    } else if s[..|search|] == search {
      ReplaceAllIsSplitJoin(s[|search|..], search, replace);
      var rest := Split(s[|search|..], search);
      assert Split(s, search) == [[]] + rest;
      assert ([[]] + rest)[1..] == rest;
    } else {
      ReplaceAllIsSplitJoin(s[1..], search, replace);
      JoinConsChar(s[0], Split(s[1..], search), replace);
    }
  }

  /** No piece produced by `explode` contains the separator, so no
      occurrence found by the scan is left behind by `str_replace`. */
  lemma {:induction false} SplitPiecesAvoidSeparator(s: string, sep: string)
    requires sep != []
    ensures forall i :: 0 <= i < |Split(s, sep)| ==> !Contains(Split(s, sep)[i], sep)
    decreases |s|
  {
    var pieces := Split(s, sep);
    if |s| < |sep| {
      assert !Contains(s, sep);
    } else if s[..|sep|] == sep {
      SplitPiecesAvoidSeparator(s[|sep|..], sep);
      var rest := Split(s[|sep|..], sep);
      assert pieces == [[]] + rest;
      forall i | 0 <= i < |pieces| ensures !Contains(pieces[i], sep) {
        if i == 0 {
          assert !OccursAt([], sep, 0);
        } else {
          assert pieces[i] == rest[i - 1];
        }
      }
    } else {
      SplitPiecesAvoidSeparator(s[1..], sep);
      var rest := Split(s[1..], sep);
      var head := [s[0]] + rest[0];
      assert pieces == [head] + rest[1..];
      forall i | 0 <= i < |pieces| ensures !Contains(pieces[i], sep) {
        if i == 0 {
          forall j ensures !OccursAt(head, sep, j) {
            if j > 0 && OccursAt(head, sep, j) {
              assert head[j..j + |sep|] == rest[0][j - 1..j - 1 + |sep|];
              assert OccursAt(rest[0], sep, j - 1);
            }
          }
        } else {
          assert pieces[i] == rest[i];
        }
      }
    }
  }

  /** Gluing the pieces of `explode` back with the separator gives the
      original string. */
  lemma {:induction false} SplitJoinRoundTrip(s: string, sep: string)
    requires sep != []
    ensures Join(Split(s, sep), sep) == s
  {
    ReplaceAllIsSplitJoin(s, sep, sep);
    ReplaceAllBySelf(s, sep);
  }

  lemma {:induction false} ReplaceAllBySelf(s: string, sep: string)
    ensures ReplaceAll(s, sep, sep) == s
    decreases |s|
  {
    if sep == [] || |s| < |sep| {
    } else if s[..|sep|] == sep {
      ReplaceAllBySelf(s[|sep|..], sep);
      assert s == sep + s[|sep|..];
    } else {
      ReplaceAllBySelf(s[1..], sep);
      assert s == [s[0]] + s[1..];
    }
  }

  /** An occurrence at the front is replaced, and the scan goes on after it. */
  lemma ReplaceAllAtOccurrence(search: string, rest: string, replace: string)
    requires search != []
    ensures ReplaceAll(search + rest, search, replace) == replace + ReplaceAll(rest, search, replace)
  {
    var s := search + rest;
    assert s[..|search|] == search;
    assert s[|search|..] == rest;
  }

  /** An occurrence in the tail is an occurrence one further on. */
  lemma OccursInTail(s: string, search: string, i: nat)
    requires s != [] && OccursAt(s[1..], search, i)
    ensures OccursAt(s, search, i + 1)
  {
    assert s[1..][i..i + |search|] == s[i + 1..i + 1 + |search|];
  }

  /** A prefix in which no occurrence starts is copied as it is. */
  lemma {:induction false} ReplaceAllKeepsPrefix(a: string, b: string, search: string, replace: string)
    requires search != []
    requires forall i :: 0 <= i < |a| ==> !OccursAt(a + b, search, i)
    ensures ReplaceAll(a + b, search, replace) == a + ReplaceAll(b, search, replace)
    decreases |a|
  {
    var s := a + b;
    if a == [] {
      assert s == b;
    } else if |s| >= |search| {
      assert !OccursAt(s, search, 0);
      assert s[..|search|] == s[0..|search|] != search;
      assert ReplaceAll(s, search, replace) == [a[0]] + ReplaceAll(s[1..], search, replace);
      assert s[1..] == a[1..] + b;
      forall i | 0 <= i < |a[1..]|
        ensures !OccursAt(s[1..], search, i)
      {
        if OccursAt(s[1..], search, i) {
          OccursInTail(s, search, i);
        }
      }
      ReplaceAllKeepsPrefix(a[1..], b, search, replace);
      assert a == [a[0]] + a[1..];
    }
  }

  /** `str_replace` leaves a string without an occurrence untouched. */
  lemma {:induction false} ReplaceAllWithoutOccurrence(s: string, search: string, replace: string)
    requires !Contains(s, search)
    ensures ReplaceAll(s, search, replace) == s
    decreases |s|
  {
    if search == [] || |s| < |search| {
    } else {
      if s[..|search|] == search {
        assert OccursAt(s, search, 0);
      }
      forall j ensures !OccursAt(s[1..], search, j) {
        if OccursAt(s[1..], search, j) {
          assert s[j + 1..j + 1 + |search|] == s[1..][j..j + |search|];
          assert OccursAt(s, search, j + 1);
        }
      }
      ReplaceAllWithoutOccurrence(s[1..], search, replace);
      assert s == [s[0]] + s[1..];
    }
  }

  /** `strtolower` as in PHP 8.2 and later: only ASCII letters change. */
  function LowerChar(c: char): (r: char)
  {
    if 'A' <= c <= 'Z' then (c as int + 32) as char else c
  }

  function ToLower(s: string): (r: string)
    ensures |r| == |s|
    ensures forall i :: 0 <= i < |s| ==> r[i] == LowerChar(s[i])
  {
    seq(|s|, i requires 0 <= i < |s| => LowerChar(s[i]))
  }

  /** A string without upper-case ASCII letters is its own lower case. */
  lemma ToLowerOfLowerCase(s: string)
    requires forall i :: 0 <= i < |s| ==> !('A' <= s[i] <= 'Z')
    ensures ToLower(s) == s
  {
  }

  /** Lower-casing twice is lower-casing once: the keys stored by the
      attribute parser are fixed points of `strtolower`. */
  lemma ToLowerIdempotent(s: string)
    ensures ToLower(ToLower(s)) == ToLower(s)
  {
  }
}
