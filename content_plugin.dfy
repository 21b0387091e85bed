/** `PlgContentBiotoken::onContentPrepare`: finds the shortcodes in an
    article's text and replaces each one with its generated markup. */
module ContentPlugin {
  import opened Wrappers
  import opened Text
  import opened Pcre
  import opened ShortcodePattern
  import Attributes
  import EmbedMarkup

  /** The article handed to the plugin by reference; the plugin rewrites
      its text in place. */
  class Article {
    var text: string

    constructor(text: string)
      ensures this.text == text
    {
      this.text := text;
    }
  }

  /** The cheap test that precedes the pattern search: a case-sensitive
      substring. */
  const Marker: string := "{biotoken"

  /** The shortcodes `preg_match_all` finds in `t`, left to right. */
  function Shortcodes(t: string): seq<Match<string>>
  {
    TagPatternAnchored(t);
    MatchAll(MatchTagAt, t, 0)
  }

  /** The shortcodes are the leftmost, non-overlapping scan of the tag
      pattern. */
  lemma ShortcodesAreLeftmostScan(t: string)
    ensures IsLeftmostScan(MatchTagAt, t, 0, Shortcodes(t))
  {
    TagPatternAnchored(t);
    MatchAllIsLeftmostScan(MatchTagAt, t, 0);
  }

  /** Each shortcode lies inside the text, so its text can be cut out. */
  lemma ShortcodesInBounds(t: string)
    ensures InBounds(t, Shortcodes(t))
  {
    TagPatternAnchored(t);
    ShortcodesAreLeftmostScan(t);
  }

  predicate InBounds(t: string, ms: seq<Match<string>>)
  {
    forall i :: 0 <= i < |ms| ==> ms[i].start <= ms[i].end <= |t|
  }

  /** The markup that replaces a shortcode whose capture is `body`, where
      this call of `uniqid()` returned `uid`. */
  function Replacement(body: string, uid: string): string
  {
    EmbedMarkup.GenerateEmbed(Attributes.AttributeTable(body), uid)
  }

  /** The markup for each shortcode, in order: the `i`-th call of
      `uniqid()` serves match `i`. */
  function Replacements(ms: seq<Match<string>>, uniqid: nat -> string): (rs: seq<string>)
    ensures |rs| == |ms|
    ensures forall i :: 0 <= i < |ms| ==> rs[i] == Replacement(ms[i].groups, uniqid(i))
  {
    seq(|ms|, i requires 0 <= i < |ms| => Replacement(ms[i].groups, uniqid(i)))
  }

  /** Every replacement opens with the wrapper `div` whose id comes from
      that match's own `uniqid()` call, so the embeds on one page can be
      told apart whenever the identifiers differ. */
  lemma ReplacementsOpenWithIds(ms: seq<Match<string>>, uniqid: nat -> string)
    ensures forall i :: 0 <= i < |ms| ==>
      EmbedMarkup.Render(EmbedMarkup.Wrapper(EmbedMarkup.IdOf(uniqid(i)))) <= Replacements(ms, uniqid)[i]
  {
    var rs := Replacements(ms, uniqid);
    forall i | 0 <= i < |ms|
      ensures EmbedMarkup.Render(EmbedMarkup.Wrapper(EmbedMarkup.IdOf(uniqid(i)))) <= rs[i]
    {
      EmbedMarkup.GenerateEmbedOpensWrapper(Attributes.AttributeTable(ms[i].groups), uniqid(i));
    }
  }

  /** The article text after the first `n` passes of the `foreach`: pass
      `i` replaces every occurrence of the text of match `i` in the current
      text with `rs[i]`. */
  function AfterPasses(original: string, ms: seq<Match<string>>, rs: seq<string>, n: nat): string
    requires n <= |ms| == |rs| && InBounds(original, ms)
  {
    if n == 0 then original
    else
      var m := ms[n - 1];
      ReplaceAll(AfterPasses(original, ms, rs, n - 1), original[m.start..m.end], rs[n - 1])
  }

  /** The article text `onContentPrepare` leaves behind. */
  function PreparedText(t: string, uniqid: nat -> string): string
  {
    if Strpos(t, Marker).None? then t
    else
      ShortcodesInBounds(t);
      var ms := Shortcodes(t);
      AfterPasses(t, ms, Replacements(ms, uniqid), |ms|)
  }

  /** `onContentPrepare($context, $article, $params)`, where the `n`-th
      call of `uniqid()` returns `uniqid(n)`: always reports success and
      leaves the prepared text in the article. */
  method OnContentPrepare(article: Article, uniqid: nat -> string) returns (handled: bool)
    modifies article
    ensures handled
    ensures article.text == PreparedText(old(article.text), uniqid)
  {
    handled := true;
    var original := article.text;
    if Strpos(original, Marker).None? {
      return;
    }
    var matches := Shortcodes(original);
    ShortcodesInBounds(original);
    if |matches| > 0 {
      ReplaceAllShortcodes(article, original, matches, uniqid);
    }
  }

  /** The `foreach` over the matches found in `original`, the text the
      article held when the search ran: pass `i` replaces the `i`-th
      match's text with its markup. */
  method ReplaceAllShortcodes(article: Article, original: string, matches: seq<Match<string>>, uniqid: nat -> string)
    requires InBounds(original, matches) && article.text == original
    modifies article
    ensures article.text == AfterPasses(original, matches, Replacements(matches, uniqid), |matches|)
  {
    ghost var rs := Replacements(matches, uniqid);
    for index := 0 to |matches|
      invariant article.text == AfterPasses(original, matches, rs, index)
    {
      var m := matches[index];
      ReplaceShortcode(article, original[m.start..m.end], m.groups, uniqid(index));
    }
  }

  /** One pass of the `foreach`: the markup for the shortcode whose text
      is `tag` and whose capture is `body` replaces every occurrence of
      `tag` in the article. */
  method ReplaceShortcode(article: Article, tag: string, body: string, uid: string)
    modifies article
    ensures article.text == ReplaceAll(old(article.text), tag, Replacement(body, uid))
  {
    var attributes := Attributes.ParseAttributes(body);
    var replacement := EmbedMarkup.GenerateEmbed(attributes, uid);
    article.text := ReplaceAll(article.text, tag, replacement);
  }

  /** Without the lower-case marker the text is returned as it is, even
      where the case-insensitive pattern would match. */
  lemma WithoutMarkerUnchanged(t: string, uniqid: nat -> string)
    requires !Contains(t, Marker)
    ensures PreparedText(t, uniqid) == t
  {
  }

  /** A text with the marker but no shortcode is returned as it is. */
  lemma WithoutShortcodeUnchanged(t: string, uniqid: nat -> string)
    requires Shortcodes(t) == []
    ensures PreparedText(t, uniqid) == t
  {
    ShortcodesInBounds(t);
  }

  /** Pass `n` replaces every occurrence of match `n`'s text: the new text
      is the old one cut at those occurrences and glued back together with
      the markup, and none of the pieces kept still holds the match text. */
  lemma PassReplacesEveryOccurrence(original: string, ms: seq<Match<string>>, rs: seq<string>, n: nat)
    requires n < |ms| == |rs| && InBounds(original, ms) && ms[n].start < ms[n].end
    ensures var search := original[ms[n].start..ms[n].end];
      var pieces := Split(AfterPasses(original, ms, rs, n), search);
      && AfterPasses(original, ms, rs, n + 1) == Join(pieces, rs[n])
      && forall j :: 0 <= j < |pieces| ==> !Contains(pieces[j], search)
  {
    var search := original[ms[n].start..ms[n].end];
    var before := AfterPasses(original, ms, rs, n);
    ReplaceAllIsSplitJoin(before, search, rs[n]);
    SplitPiecesAvoidSeparator(before, search);
  }

  /** `{BIOTOKEN x="y"}` is a shortcode to the pattern, but the text lacks
      the lower-case marker, so it is left as it is. */
  lemma UpperCaseTagLeftAlone(uniqid: nat -> string)
    ensures |Shortcodes("{BIOTOKEN x=\"y\"}")| == 1
    ensures PreparedText("{BIOTOKEN x=\"y\"}", uniqid) == "{BIOTOKEN x=\"y\"}"
  {
    var t := "{BIOTOKEN x=\"y\"}";
    assert ToLower(t[1..9]) == Keyword;
    TagPatternAnchored(t);
    assert MatchTagAt(t, 0) == Some(Match(0, |t|, t[10..|t| - 1]));
    assert Shortcodes(t) == [Match(0, |t|, t[10..|t| - 1])];
    forall i | 0 <= i <= |t| ensures !OccursAt(t, Marker, i) {
      if i + |Marker| <= |t| {
        if i == 0 {
          assert t[i..i + |Marker|][1] == 'B' != Marker[1];
        } else {
          assert t[i..i + |Marker|][0] == t[i] != Marker[0];
        }
      }
    }
  }

  /** The text of `NestedTagNotReplaced`: a tag, a blank, and a second
      tag whose capture ends in a copy of the first tag's text. */
  const NestedText: string := NestedTag + NestedMiddle + NestedTag
  const NestedTag: string := "{biotoken a}"
  const NestedMiddle: string := " {biotoken x"

  /** `\{biotoken` spelled out in lower case at `p`. */
  lemma KeywordAtChars(t: string, p: nat)
    requires p + 9 <= |t| && t[p] == '{'
    requires t[p + 1] == 'b' && t[p + 2] == 'i' && t[p + 3] == 'o' && t[p + 4] == 't'
    requires t[p + 5] == 'o' && t[p + 6] == 'k' && t[p + 7] == 'e' && t[p + 8] == 'n'
    ensures KeywordAt(t, p)
  {
    var w := ToLower(t[p + 1..p + 9]);
    assert w == ['b', 'i', 'o', 't', 'o', 'k', 'e', 'n'];
  }

  /** The tag pattern at `p`, given where its blank run ends and where
      its lazy body stops. */
  lemma TagFoundAt(t: string, p: nat, body: nat, close: nat)
    requires KeywordAt(t, p) && p + 9 < body
    requires RunEnd(t, p + 9, IsSpace) == body
    requires LazyDotsUntil(t, body, IsCloseBrace) == Some(close)
    ensures MatchTagAt(t, p) == Some(Match(p, close + 1, t[body..close]))
  {
  }

  /** The lazy body from `i` stops at `c` when `c` holds the first `}`
      from `i` on and no line feed comes before it. */
  lemma LazyStopsAt(t: string, i: nat, c: nat)
    requires i <= c < |t| && t[c] == '}'
    requires forall k :: i <= k < c ==> t[k] != '}' && t[k] != '\n'
    ensures LazyDotsUntil(t, i, IsCloseBrace) == Some(c)
  {
    assert DotsThen(t, i, c, IsCloseBrace);
  }

  /** A blank run of length one from `i`. */
  lemma OneBlank(t: string, i: nat)
    requires i + 1 < |t| && t[i] == ' ' && !IsSpace(t[i + 1])
    ensures RunEnd(t, i, IsSpace) == i + 1
  {
  }

  lemma NestedTagAt0()
    ensures MatchTagAt(NestedText, 0) == Some(Match(0, 12, "a"))
  {
    NestedKeywords();
    NestedBlanks();
    NestedLazyStops();
    NestedCaptures();
    TagFoundAt(NestedText, 0, 10, 11);
  }

  lemma NestedKeywords()
    ensures KeywordAt(NestedText, 0) && KeywordAt(NestedText, 13)
  {
    KeywordAtChars(NestedText, 0);
    KeywordAtChars(NestedText, 13);
  }

  lemma NestedBlanks()
    ensures RunEnd(NestedText, 9, IsSpace) == 10 && RunEnd(NestedText, 22, IsSpace) == 23
  {
    OneBlank(NestedText, 9);
    OneBlank(NestedText, 22);
  }

  lemma NestedLazyStops()
    ensures LazyDotsUntil(NestedText, 10, IsCloseBrace) == Some(11)
    ensures LazyDotsUntil(NestedText, 23, IsCloseBrace) == Some(35)
  {
    LazyStopsAt(NestedText, 10, 11);
    LazyStopsAt(NestedText, 23, 35);
  }

  lemma NestedCaptures()
    ensures NestedText[10..11] == "a" && NestedText[23..35] == "x{biotoken a"
  {
  }

  lemma NoTagAt12()
    ensures MatchTagAt(NestedText, 12).None?
  {
    assert NestedText[12] != '{';
  }

  lemma NestedTagAt13()
    ensures MatchTagAt(NestedText, 13) == Some(Match(13, 36, "x{biotoken a"))
  {
    NestedKeywords();
    NestedBlanks();
    NestedLazyStops();
    NestedCaptures();
    TagFoundAt(NestedText, 13, 23, 35);
  }

  /** Replacing the first tag's text rewrites both of its copies: the one
      at the front and the one that closes the second tag. */
  lemma NestedFirstPass(r: string)
    ensures ReplaceAll(NestedText, NestedTag, r) == r + NestedMiddle + r
  {
    var tag, middle := NestedTag, NestedMiddle;
    assert NestedText == tag + (middle + tag);
    ReplaceAllAtOccurrence(tag, middle + tag, r);
    NoTagStartsInMiddle();
    ReplaceAllKeepsPrefix(middle, tag, tag, r);
    ReplaceAllAtOccurrence(tag, [], r);
    assert tag + [] == tag;
  }

  /** No copy of the first tag starts inside the text between the two
      copies: only `{` at index 1 could start one, and there `x` stands
      where the tag has `a`. */
  lemma NoTagStartsInMiddle()
    ensures forall i :: 0 <= i < |NestedMiddle| ==> !OccursAt(NestedMiddle + NestedTag, NestedTag, i)
  {
    var s := NestedMiddle + NestedTag;
    forall i | 0 <= i < |NestedMiddle|
      ensures !OccursAt(s, NestedTag, i)
    {
      if i == 1 {
        MismatchAt(s, NestedTag, 1, 10);
      } else {
        MismatchAt(s, NestedTag, i, 0);
      }
    }
  }

  /** A needle does not occur where one of its characters differs. */
  lemma MismatchAt(s: string, needle: string, i: nat, k: nat)
    requires k < |needle| && i + k < |s| && s[i + k] != needle[k]
    ensures !OccursAt(s, needle, i)
  {
  }

  /** The two shortcodes of `NestedText`. */
  const NestedMatches: seq<Match<string>> := [Match(0, 12, "a"), Match(13, 36, "x{biotoken a")]

  lemma NestedShortcodes()
    ensures Shortcodes(NestedText) == NestedMatches
  {
    var t := NestedText;
    var ms := NestedMatches;
    NestedTagAt0();
    NoTagAt12();
    NestedTagAt13();
    TagPatternAnchored(t);
    assert MatchAll(MatchTagAt, t, 36) == [];
    assert MatchAll(MatchTagAt, t, 13) == [ms[1]];
    assert MatchAll(MatchTagAt, t, 12) == [ms[1]];
  }

  lemma NestedHasMarker()
    ensures Strpos(NestedText, Marker).Some?
  {
    assert NestedText[0..9] == NestedTag[0..9] == Marker;
    assert OccursAt(NestedText, Marker, 0);
  }

  /** A shortcode whose capture ends in the text of an earlier shortcode is
      not replaced as a whole: in `{biotoken a} {biotoken x{biotoken a}`,
      pass 0 rewrites every occurrence of `{biotoken a}`, also the one that
      closes the second tag, so pass 1 searches for the text of a tag that
      is no longer there in one piece. */
  lemma NestedTagNotReplaced(uniqid: nat -> string)
    ensures Shortcodes(NestedText) == NestedMatches
    ensures var r := Replacement("a", uniqid(0));
      PreparedText(NestedText, uniqid) ==
        ReplaceAll(r + NestedMiddle + r, NestedText[13..36], Replacement("x{biotoken a", uniqid(1)))
  {
    NestedShortcodes();
    NestedHasMarker();
    ShortcodesInBounds(NestedText);
    var rs := Replacements(NestedMatches, uniqid);
    assert NestedText[0..12] == NestedTag;
    NestedFirstPass(rs[0]);
    assert AfterPasses(NestedText, NestedMatches, rs, 1) == rs[0] + NestedMiddle + rs[0];
  }

  /** `\s+` needs at least one blank after the keyword: `{biotoken}` is no
      shortcode and stays as it is. */
  lemma BareKeywordIsNoShortcode(uniqid: nat -> string)
    ensures Shortcodes("{biotoken}") == []
    ensures PreparedText("{biotoken}", uniqid) == "{biotoken}"
  {
    var t := "{biotoken}";
    forall q: nat | q < |t| ensures MatchTagAt(t, q).None? {
      if q == 0 {
        assert RunEnd(t, 9, IsSpace) == 9;
      }
    }
    TagPatternAnchored(t);
    NoMatchAnywhere(MatchTagAt, t);
    WithoutShortcodeUnchanged(t, uniqid);
  }

  /** `.` does not match a line feed: a tag whose `}` is on a later line is
      no shortcode and stays as it is. */
  lemma LineBreakInTagIsNoShortcode(uniqid: nat -> string)
    ensures Shortcodes("{biotoken a\n}") == []
    ensures PreparedText("{biotoken a\n}", uniqid) == "{biotoken a\n}"
  {
    var t := "{biotoken a\n}";
    forall q: nat | q < |t| ensures MatchTagAt(t, q).None? {
      if q == 0 {
        assert ToLower(t[1..9]) == Keyword;
        assert RunEnd(t, 9, IsSpace) == 10;
        assert LazyDotsUntil(t, 10, IsCloseBrace).None?;
      }
    }
    TagPatternAnchored(t);
    NoMatchAnywhere(MatchTagAt, t);
    WithoutShortcodeUnchanged(t, uniqid);
  }
}
