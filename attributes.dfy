/** `PlgContentBiotoken::parseAttributes`: the attribute pattern
    `/(\w+)=["\'](.*?)["\']/i`, the table of defaults, and the loop that
    lays the pairs found over the defaults. */
module Attributes {
  import opened Wrappers
  import opened Text
  import opened Pcre

  /** The two groups of one attribute match: the name and the value. */
  datatype Pair = Pair(name: string, value: string)

  predicate IsQuote(c: char)
  {
    c == '"' || c == '\''
  }

  /** The match PCRE reports for an attempt at `p`. `(\w+)` is greedy and
      only a `=` may follow it, so the name is the whole run of word
      characters from `p`; the value runs from either quote to the first
      quote of either kind, and a line feed before that quote makes the
      attempt fail. */
  function MatchPairAt(s: string, p: nat): (r: Option<Match<Pair>>)
    ensures r.Some? ==> r.value.start == p < r.value.end <= |s|
  {
    if p >= |s| || !IsWordChar(s[p]) then None
    else
      var eq := RunEnd(s, p, IsWordChar);
      if eq + 1 < |s| && s[eq] == '=' && IsQuote(s[eq + 1]) then
        match LazyDotsUntil(s, eq + 2, IsQuote)
        case None => None
        case Some(close) => Some(Match(p, close + 1, Pair(s[p..eq], s[eq + 2..close])))
      else None
  }

  /** The language of the pattern: it can match `s[p..c + 1]` with the
      name `s[p..eq]` and the value `s[eq + 2..c]`. */
  ghost predicate PairShape(s: string, p: nat, eq: nat, c: nat)
  {
    && p < eq && eq + 2 <= c < |s|
    && (forall i :: p <= i < eq ==> IsWordChar(s[i]))
    && s[eq] == '=' && IsQuote(s[eq + 1])
    && DotsThen(s, eq + 2, c, IsQuote)
  }

  /** The attempt at `p` succeeds exactly when some way of matching the
      pattern there exists. */
  lemma MatchPairAtIsRegexMatch(s: string, p: nat)
    ensures MatchPairAt(s, p).Some? <==> exists eq: nat, c: nat :: PairShape(s, p, eq, c)
  {
    if MatchPairAt(s, p).Some? {
      var eq := RunEnd(s, p, IsWordChar);
      assert PairShape(s, p, eq, MatchPairAt(s, p).value.end - 1);
    }
    if eq: nat, c: nat :| PairShape(s, p, eq, c) {
      PairShapeIsFound(s, p, eq, c);
    }
  }

  lemma PairShapeIsFound(s: string, p: nat, eq: nat, c: nat)
    requires PairShape(s, p, eq, c)
    ensures MatchPairAt(s, p).Some?
  {
    var e := RunEnd(s, p, IsWordChar);
    assert e == eq;
  }

  /** Which of the possible matches PCRE reports: the name is the whole
      word run, and the value is the shortest run after the opening quote,
      so it holds no quote and no line feed. */
  lemma MatchPairAtChoice(s: string, p: nat)
    requires MatchPairAt(s, p).Some?
    ensures var m := MatchPairAt(s, p).value;
      var eq := p + |m.groups.name|;
      && PairShape(s, p, eq, m.end - 1)
      && m.groups.name == s[p..eq]
      && m.groups.value == s[eq + 2..m.end - 1]
      && (forall i :: 0 <= i < |m.groups.value| ==> !IsQuote(m.groups.value[i]) && m.groups.value[i] != '\n')
  {
    var m := MatchPairAt(s, p).value;
    var eq := RunEnd(s, p, IsWordChar);
    assert PairShape(s, p, eq, m.end - 1);
  }

  /** The pairs `preg_match_all` finds in an attribute string. */
  function AttributePairs(s: string): seq<Match<Pair>>
  {
    MatchAll(MatchPairAt, s, 0)
  }

  /** The table key a pair is stored under: its name in lower case. */
  function KeyOf(m: Match<Pair>): string
  {
    ToLower(m.groups.name)
  }

  /** The index of the last pair stored under `key`, if any. */
  function LastIndexOf(pairs: seq<Match<Pair>>, key: string): (r: Option<nat>)
    ensures r.Some? ==> r.value < |pairs| && KeyOf(pairs[r.value]) == key
    ensures r.Some? ==> forall j :: r.value < j < |pairs| ==> KeyOf(pairs[j]) != key
    ensures r.None? ==> forall j :: 0 <= j < |pairs| ==> KeyOf(pairs[j]) != key
  {
    if pairs == [] then None
    else if KeyOf(pairs[|pairs| - 1]) == key then Some(|pairs| - 1)
    else LastIndexOf(pairs[..|pairs| - 1], key)
  }

  const Defaults: map<string, string> :=
    map["url" := "", "width" := "100%", "height" := "600px", "loading" := "true", "title" := "BioToken App"]

  function KeysOf(pairs: seq<Match<Pair>>): set<string>
  {
    set i | 0 <= i < |pairs| :: KeyOf(pairs[i])
  }

  /** Pair `i` is the last one stored under its key. */
  predicate IsLastFor(pairs: seq<Match<Pair>>, i: int)
    requires 0 <= i < |pairs|
  {
    forall j :: i < j < |pairs| ==> KeyOf(pairs[j]) != KeyOf(pairs[i])
  }

  /** The table that results from storing the pairs one after another
      over the defaults, each under its lower-cased name. */
  function TableOf(pairs: seq<Match<Pair>>): (table: map<string, string>)
    ensures Defaults.Keys <= table.Keys
  {
    if pairs == [] then Defaults
    else
      var last := pairs[|pairs| - 1];
      TableOf(pairs[..|pairs| - 1])[KeyOf(last) := last.groups.value]
  }

  /** The same table described entry by entry: it holds the default keys
      and the lower-cased name of every pair, and each entry comes from the
      last pair stored under it, or else from the defaults. */
  function LastWinsTable(pairs: seq<Match<Pair>>): (table: map<string, string>)
    ensures table.Keys == Defaults.Keys + KeysOf(pairs)
  {
    map k | k in Defaults.Keys + KeysOf(pairs) :: Entry(pairs, k)
  }

  /** The value stored under `k`: the last pair's value, else the default. */
  function Entry(pairs: seq<Match<Pair>>, k: string): string
    requires k in Defaults.Keys + KeysOf(pairs)
  {
    match LastIndexOf(pairs, k)
    case Some(i) => pairs[i].groups.value
    case None => Defaults[k]
  }

  /** The last pair stored under a key decides its value: a later
      attribute overrides an earlier one, whatever the case of its name. */
  lemma LastPairWins(pairs: seq<Match<Pair>>, i: nat)
    requires i < |pairs| && IsLastFor(pairs, i)
    ensures LastWinsTable(pairs)[KeyOf(pairs[i])] == pairs[i].groups.value
  {
    assert LastIndexOf(pairs, KeyOf(pairs[i])) == Some(i);
  }

  /** A default key that no pair names keeps its default value. */
  lemma UnnamedDefaultKept(pairs: seq<Match<Pair>>, k: string)
    requires k in Defaults && k !in KeysOf(pairs)
    ensures LastWinsTable(pairs)[k] == Defaults[k]
  {
  }

  lemma LastWinsTableNoPairs()
    ensures LastWinsTable([]) == Defaults
  {
    assert LastWinsTable([]).Keys == Defaults.Keys;
  }

  lemma KeysOfSnoc(pairs: seq<Match<Pair>>, m: Match<Pair>)
    ensures KeysOf(pairs + [m]) == KeysOf(pairs) + {KeyOf(m)}
  {
    var ps := pairs + [m];
    forall k | k in KeysOf(ps) ensures k in KeysOf(pairs) + {KeyOf(m)} {
      var i :| 0 <= i < |ps| && KeyOf(ps[i]) == k;
      if i < |pairs| { assert ps[i] == pairs[i]; }
    }
    forall k | k in KeysOf(pairs) ensures k in KeysOf(ps) {
      var i :| 0 <= i < |pairs| && KeyOf(pairs[i]) == k;
      assert ps[i] == pairs[i];
    }
    assert KeyOf(ps[|pairs|]) == KeyOf(m);
  }

  lemma EntrySnoc(pairs: seq<Match<Pair>>, m: Match<Pair>, k: string)
    requires k in Defaults.Keys + KeysOf(pairs) + {KeyOf(m)}
    ensures KeysOf(pairs + [m]) == KeysOf(pairs) + {KeyOf(m)}
    ensures Entry(pairs + [m], k) == if k == KeyOf(m) then m.groups.value else Entry(pairs, k)
  {
    var ps := pairs + [m];
    assert ps[..|ps| - 1] == pairs;
    KeysOfSnoc(pairs, m);
  }

  /** One more pair overwrites the entry for its lower-cased name and
      leaves every other entry as it was. */
  lemma LastWinsTableSnoc(pairs: seq<Match<Pair>>, m: Match<Pair>)
    ensures LastWinsTable(pairs + [m]) == LastWinsTable(pairs)[KeyOf(m) := m.groups.value]
  {
    var after, expected := LastWinsTable(pairs + [m]), LastWinsTable(pairs)[KeyOf(m) := m.groups.value];
    KeysOfSnoc(pairs, m);
    forall k | k in after ensures after[k] == expected[k] {
      EntrySnoc(pairs, m, k);
    }
  }

  /** Storing the pairs one by one gives the entry-by-entry table. */
  lemma {:induction false} TableOfIsLastWins(pairs: seq<Match<Pair>>)
    ensures TableOf(pairs) == LastWinsTable(pairs)
    decreases |pairs|
  {
    if pairs == [] {
      LastWinsTableNoPairs();
    } else {
      var init, last := pairs[..|pairs| - 1], pairs[|pairs| - 1];
      TableOfIsLastWins(init);
      assert pairs == init + [last];
      LastWinsTableSnoc(init, last);
    }
  }

  /** The attribute table `parseAttributes` returns for an attribute
      string; it always holds the default keys. */
  function AttributeTable(s: string): (table: map<string, string>)
    ensures Defaults.Keys <= table.Keys
  {
    TableOfIsLastWins(AttributePairs(s));
    TableOf(AttributePairs(s))
  }

  /** `parseAttributes($attributeString)`: starts from the defaults and
      stores each pair found under its lower-cased name, in order. */
  method ParseAttributes(attributeString: string) returns (attributes: map<string, string>)
    ensures attributes == AttributeTable(attributeString)
  {
    attributes := Defaults;
    var attrMatches := MatchAll(MatchPairAt, attributeString, 0);
    if |attrMatches| > 0 {
      for index := 0 to |attrMatches|
        invariant attributes == TableOf(attrMatches[..index])
      {
        var attr := attrMatches[index];
        assert attrMatches[..index + 1][..index] == attrMatches[..index];
        attributes := attributes[ToLower(attr.groups.name) := attr.groups.value];
      }
      assert attrMatches[..|attrMatches|] == attrMatches;
    }
  }

  lemma DefaultKeysAreLowerCase()
    ensures forall k :: k in Defaults ==> ToLower(k) == k
  {
    ToLowerOfLowerCase("url");
    ToLowerOfLowerCase("width");
    ToLowerOfLowerCase("height");
    ToLowerOfLowerCase("loading");
    ToLowerOfLowerCase("title");
  }

  /** Every key of the table is already lower case. */
  lemma TableKeysAreLowerCase(pairs: seq<Match<Pair>>)
    ensures forall k :: k in TableOf(pairs) ==> ToLower(k) == k
  {
    TableOfIsLastWins(pairs);
    DefaultKeysAreLowerCase();
    forall k | k in KeysOf(pairs) ensures ToLower(k) == k {
      var i :| 0 <= i < |pairs| && KeyOf(pairs[i]) == k;
      ToLowerIdempotent(pairs[i].groups.name);
    }
  }

  /** Without a quote character no pair can match, so the table is exactly
      the defaults: a name followed by an unquoted value adds nothing. */
  lemma UnquotedStringGivesDefaults(s: string)
    requires forall i :: 0 <= i < |s| ==> !IsQuote(s[i])
    ensures AttributePairs(s) == []
    ensures AttributeTable(s) == Defaults
  {
    forall q: nat | q < |s| ensures MatchPairAt(s, q).None? {
      if MatchPairAt(s, q).Some? {
        MatchPairAtChoice(s, q);
      }
    }
    NoMatchAnywhere(MatchPairAt, s);
  }
}
