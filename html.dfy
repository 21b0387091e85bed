/** PHP's `htmlspecialchars` as the shortcode plugin calls it: `&`, `<`,
    `>` and `"` become entities. The single quote is left out of the model
    (whether it is encoded depends on the PHP version's default flags). */
module Html {

  function EscapeChar(c: char): string
  {
    match c
    case '&' => "&amp;"
    case '<' => "&lt;"
    case '>' => "&gt;"
    case '"' => "&quot;"
    case _ => [c]
  }

  /** A string in which no character can open a tag, close one or end a
      double-quoted attribute value. */
  predicate IsInert(s: string)
  {
    forall i :: 0 <= i < |s| ==> s[i] != '<' && s[i] != '>' && s[i] != '"'
  }

  /** `htmlspecialchars($s)`: its result is inert whatever `s` holds. */
  function HtmlSpecialChars(s: string): (r: string)
    ensures IsInert(r)
    ensures |r| >= |s|
  {
    if s == [] then [] else EscapeChar(s[0]) + HtmlSpecialChars(s[1..])
  }

  /** The decoder `htmlspecialchars_decode` for the four entities above;
      any other `&` is kept as it is. */
  function HtmlDecode(s: string): string
    decreases |s|
  {
    if s == [] then []
    else if s[0] != '&' then [s[0]] + HtmlDecode(s[1..])
    else if |s| >= 5 && s[..5] == "&amp;" then "&" + HtmlDecode(s[5..])
    else if |s| >= 4 && s[..4] == "&lt;" then "<" + HtmlDecode(s[4..])
    else if |s| >= 4 && s[..4] == "&gt;" then ">" + HtmlDecode(s[4..])
    else if |s| >= 6 && s[..6] == "&quot;" then "\"" + HtmlDecode(s[6..])
    else "&" + HtmlDecode(s[1..])
  }

  /** Escaping loses nothing: decoding the escaped text gives the original
      attribute value back. */
  lemma {:induction false} DecodeEscapeRoundTrip(s: string)
    ensures HtmlDecode(HtmlSpecialChars(s)) == s
    decreases |s|
  {
    if s != [] {
      DecodeEscapeRoundTrip(s[1..]);
      DecodeEscapedChar(s[0], HtmlSpecialChars(s[1..]));
      assert s == [s[0]] + s[1..];
    }
  }

  /** The decoder reads one escaped character back, whatever follows it. */
  lemma DecodeEscapedChar(c: char, rest: string)
    ensures HtmlDecode(EscapeChar(c) + rest) == [c] + HtmlDecode(rest)
  {
    var t := EscapeChar(c) + rest;
    match c
    case '&' =>
      assert t[..5] == "&amp;" && t[5..] == rest;
    case '<' =>
      assert t[..4] == "&lt;" && t[4..] == rest;
      assert t[1] == 'l';
    case '>' =>
      assert t[..4] == "&gt;" && t[4..] == rest;
      assert t[1] == 'g';
    case '"' =>
      assert t[..6] == "&quot;" && t[6..] == rest;
      assert t[1] == 'q';
    case _ =>
      assert t[1..] == rest;
  }
}
