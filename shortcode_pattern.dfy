/** The shortcode pattern `/\{biotoken\s+(.*?)\}/i` of
    `PlgContentBiotoken::onContentPrepare`, as a match attempt anchored at
    one position. */
module ShortcodePattern {
  import opened Wrappers
  import opened Text
  import opened Pcre

  const Keyword: string := "biotoken"

  /** `\{biotoken` under the `i` flag: a brace, then the keyword in any
      mix of ASCII cases. */
  predicate KeywordAt(t: string, p: nat)
  {
    p + 9 <= |t| && t[p] == '{' && ToLower(t[p + 1..p + 9]) == Keyword
  }

  predicate IsCloseBrace(c: char)
  {
    c == '}'
  }

  /** The match PCRE reports for an attempt at `p`. `\s+` is greedy and
      `(.*?)` lazy, so the capture runs from the end of the whole
      whitespace run to the first `}`; a line feed before that `}` makes
      the attempt fail (giving back whitespace cannot help, since the same
      line feed stays in the way). The capture is the only group. */
  function MatchTagAt(t: string, p: nat): (r: Option<Match<string>>)
    ensures r.Some? ==> r.value.start == p < r.value.end <= |t|
  {
    if !KeywordAt(t, p) then None
    else
      var body := RunEnd(t, p + 9, IsSpace);
      if body == p + 9 then None
      else match LazyDotsUntil(t, body, IsCloseBrace)
        case None => None
        case Some(close) => Some(Match(p, close + 1, t[body..close]))
  }

  lemma TagPatternAnchored(t: string)
    ensures Anchored(MatchTagAt, t)
  {
  }

  /** The language of the pattern: it can match `t[p..c + 1]` with `\s+`
      taking `k` characters and `(.*?)` taking the rest up to `c`. */
  ghost predicate TagShape(t: string, p: nat, k: nat, c: nat)
  {
    && KeywordAt(t, p) && 1 <= k && p + 9 + k <= c < |t|
    && (forall i :: p + 9 <= i < p + 9 + k ==> IsSpace(t[i]))
    && DotsThen(t, p + 9 + k, c, IsCloseBrace)
  }

  /** The attempt at `p` succeeds exactly when some way of matching the
      pattern there exists. */
  lemma MatchTagAtIsRegexMatch(t: string, p: nat)
    ensures MatchTagAt(t, p).Some? <==> exists k: nat, c: nat :: TagShape(t, p, k, c)
  {
    if MatchTagAt(t, p).Some? {
      var body := RunEnd(t, p + 9, IsSpace);
      var c := MatchTagAt(t, p).value.end - 1;
      assert TagShape(t, p, body - (p + 9), c);
    }
    if k: nat, c: nat :| TagShape(t, p, k, c) {
      TagShapeIsFound(t, p, k, c);
    }
  }

  lemma TagShapeIsFound(t: string, p: nat, k: nat, c: nat)
    requires TagShape(t, p, k, c)
    ensures MatchTagAt(t, p).Some?
  {
    var body := RunEnd(t, p + 9, IsSpace);
    assert p + 9 + k <= body;
    assert body <= c;
    assert DotsThen(t, body, c, IsCloseBrace);
  }

  /** Which of the possible matches PCRE reports: the capture starts after
      the whole whitespace run and stops at the first `}`. */
  lemma MatchTagAtChoice(t: string, p: nat)
    requires MatchTagAt(t, p).Some?
    ensures var m := MatchTagAt(t, p).value;
      var body := m.end - 1 - |m.groups|;
      && p + 9 < body && t[m.end - 1] == '}'
      && TagShape(t, p, body - (p + 9), m.end - 1)
      && m.groups == t[body..m.end - 1]
      && !IsSpace(t[body])
      && '}' !in m.groups
  {
    var m := MatchTagAt(t, p).value;
    var body := RunEnd(t, p + 9, IsSpace);
    assert m.groups == t[body..m.end - 1];
    assert TagShape(t, p, body - (p + 9), m.end - 1);
  }
}
