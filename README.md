# BioToken embedding: a Dafny model

This project models the two pieces of logic in the BioToken embedding code.

1. **The Joomla content plugin `PlgContentBiotoken`** (`joomla_shortcode_plugin.php`).
   - `onContentPrepare` looks for `{biotoken ...}` shortcodes in an article. It passes each match's text in turn to `str_replace`, with that match's generated markup as the replacement.
   - `parseAttributes` turns the text inside a shortcode into an attribute table laid over fixed defaults.
   - `generateBioTokenEmbed` renders the markup from that table and a unique id.
2. **The browser class `BioTokenEmbed`** (`embed_script.js`). It resolves its options and puts an iframe into a container element on the page. It reacts to the iframe's load and error events and to window `message` and `resize` events, and it can remove the iframe again or post a message to it.

Modules, one per concern:

- **Text**: PHP's `strpos`, `str_replace`, `strtolower`, and `explode`/`implode`. The last two are the reference definition of `str_replace`.
- **Html**: `htmlspecialchars` and its decoder.
- **Pcre**: the PCRE features the two patterns use:
  - the `\s`, `\w` and `.` classes;
  - greedy runs and the lazy `.*?`;
  - the leftmost, non-overlapping search of `preg_match_all`, with a declarative characterisation that is proved unique.
- **ShortcodePattern**: `/\{biotoken\s+(.*?)\}/i` as a matcher anchored at one position, proved equal to the pattern's language.
- **Attributes**: the pattern `/(\w+)=["'](.*?)["']/i` and the `parseAttributes` loop.
  - The loop is proved against a fold (`TableOf`).
  - The fold is proved equal to a declarative "defaults, then the last pair for each lower-cased key wins" table.
- **EmbedMarkup**: `generateBioTokenEmbed` as a list of template pieces (`Layout`), each rendered to its exact text (`Render`).
- **ContentPlugin**: the `Article` whose text the plugin rewrites in place, and the `onContentPrepare` loop.
- **JsValues**: JavaScript values with truthiness and `String(...)`.
- **EmbedOptions**: the constructor's option defaulting.
- **EmbedController**:
  - an abstract page (`Document`): a map from element id to children and style properties, the set of ids currently on the page, and a counter of created iframes. Another script may take an element off the page (`Document.RemoveElement`);
  - the `BioTokenEmbed` class, whose methods update `iframe`, `container` and the page.

Nondeterminism and browser services are parameters:

| source | in the model |
|---|---|
| the `n`-th call of `uniqid()` | `uniqid(n)` |
| `new URL(...).origin` | `originOf`, a function to `Option<string>`; `None` means the URL does not parse |
| the container's `offsetWidth` | an integer argument |

The callbacks the embed invokes and the messages it posts are recorded in the ghost logs `calls` and `posts`. The code only tests that a callback is truthy before calling it. A truthy value that is not a function throws a `TypeError`, so the model records a call only for a function. A `postMessage` whose target origin does not parse, or whose message is a function, throws instead of posting, and the model records no post.

Behaviour of the code that the model keeps as written:

- **Missing container.** `embed()` only logs to the console. It does not call `onError`, and it keeps the previous `iframe` reference. After a successful `embed()`, the container may be taken off the page, and then `embed()` is called again. In that case `container` is null while `iframe` still holds the old frame. If that frame's `error` event fires now, `showErrorMessage()` throws on the null container, and `onError` is never called.
- **Nested shortcodes.** Each pass replaces every occurrence of its match's text in the current text. A later match whose text contains an earlier match's text is therefore cut apart by the earlier pass. In `{biotoken a} {biotoken x{biotoken a}`, pass 0 also rewrites the `{biotoken a}` that closes the second tag. Pass 1 then searches for a tag that is no longer there in one piece: the second shortcode is left mangled, although `uniqid()` is still called for it (`ContentPlugin.NestedTagNotReplaced`).
- **Message listeners.** Every successful `embed()` adds another window `message` listener, and `destroy()` removes none. A matching message therefore reaches `onMessage` once per successful `embed()`, not exactly once (`EmbedController.Deliveries`).
- **The marker test.** The `strpos` pre-check is case-sensitive, so `{BIOTOKEN ...}` alone is never replaced, although the pattern itself ignores case.
- **The attribute pattern.** It carries the `i` flag. This makes no difference, since `\w` already covers both cases.

## Model

| member | source | states |
|---|---|---|
| Text.Strpos | joomla_shortcode_plugin.php:22-24 | the result is the first index where the needle occurs, and `None` exactly when it occurs nowhere |
| Text.Split | joomla_shortcode_plugin.php:33 | `explode` yields at least one piece, and the first piece is a prefix of the subject |
| Text.ReplaceAllIsSplitJoin | joomla_shortcode_plugin.php:33 | `str_replace` equals `implode(replace, explode(search, s))` for a non-empty search |
| Text.SplitPiecesAvoidSeparator | joomla_shortcode_plugin.php:33 | no piece of `explode` contains the separator, so `str_replace` leaves no occurrence found by its scan |
| Text.SplitJoinRoundTrip | joomla_shortcode_plugin.php:33 | `implode(sep, explode(sep, s)) == s` |
| Text.ReplaceAllBySelf | joomla_shortcode_plugin.php:33 | replacing a string by itself changes nothing |
| Text.ReplaceAllWithoutOccurrence | joomla_shortcode_plugin.php:33 | `str_replace` on a subject without the search string returns the subject |
| Text.ReplaceAllAtOccurrence | joomla_shortcode_plugin.php:33 | an occurrence at the front is replaced and the scan resumes after it |
| Text.ReplaceAllKeepsPrefix | joomla_shortcode_plugin.php:33 | a prefix in which no occurrence starts is copied unchanged |
| Text.ToLower | joomla_shortcode_plugin.php:56 | `strtolower` keeps the length and lower-cases exactly the ASCII capitals, character by character |
| Text.ToLowerOfLowerCase | joomla_shortcode_plugin.php:45-51 | a string without ASCII capitals is its own lower case |
| Text.ToLowerIdempotent | joomla_shortcode_plugin.php:56 | lower-casing twice equals lower-casing once |
| Text.ReplaceAll | joomla_shortcode_plugin.php:33 | `str_replace` keeps the length when the replacement is as long as the search string; `ReplaceAllIsSplitJoin` and `SplitPiecesAvoidSeparator` give its partner `explode`/`implode` and show that no occurrence survives |
| Html.HtmlSpecialChars | joomla_shortcode_plugin.php:105-109 | the escaped text contains no `<`, `>` or `"`, whatever the input, and is at least as long as the input |
| Html.DecodeEscapeRoundTrip | joomla_shortcode_plugin.php:105-109 | decoding the escaped text gives back the original value, so escaping loses nothing |
| Html.DecodeEscapedChar | joomla_shortcode_plugin.php:105 | one escaped character decodes back to itself whatever text follows it |
| Pcre.RunEnd | joomla_shortcode_plugin.php:27 | a greedy run stops at the first character outside the class, and every character it covers is in the class |
| Pcre.IsSpace | joomla_shortcode_plugin.php:27 | `\s` with PCRE's default tables: space and the code points 9 to 13 |
| Pcre.IsWordChar | joomla_shortcode_plugin.php:54 | `\w` without Unicode support: ASCII letters, digits and `_` |
| Pcre.LazyDotsUntil | joomla_shortcode_plugin.php:27 | `.*?` stops at the first closing character with no line feed before it, and fails exactly when no such stop exists |
| Pcre.MatchAll | joomla_shortcode_plugin.php:29 | `preg_match_all` reports at most one match per position of the subject; `MatchAllIsLeftmostScan` gives its declarative reading |
| Pcre.MatchAllIsLeftmostScan | joomla_shortcode_plugin.php:29 | `preg_match_all` reports, in order and without overlap, each match the pattern yields where it starts, and the pattern yields nothing in the gaps |
| Pcre.LeftmostScanCons | joomla_shortcode_plugin.php:29 | a match followed by a leftmost scan from its end is a leftmost scan |
| Pcre.LeftmostScanSkip | joomla_shortcode_plugin.php:29 | a position where the pattern yields nothing may be added in front of a leftmost scan |
| Pcre.LeftmostScanIsUnique | joomla_shortcode_plugin.php:29 | any sequence meeting that description equals what `preg_match_all` returns |
| Pcre.NoMatchAnywhere | joomla_shortcode_plugin.php:29 | a subject where the pattern matches at no position yields no matches |
| ShortcodePattern.MatchTagAt | joomla_shortcode_plugin.php:27 | a tag match starts where it was tried, is not empty and lies inside the text |
| ShortcodePattern.TagPatternAnchored | joomla_shortcode_plugin.php:27 | the tag matcher is well formed for the search on every text |
| ShortcodePattern.MatchTagAtIsRegexMatch | joomla_shortcode_plugin.php:27 | a match is reported at `p` if and only if `{`, `biotoken` in any case, one or more blanks, then non-line-feed characters up to a `}` occur at `p` |
| ShortcodePattern.TagShapeIsFound | joomla_shortcode_plugin.php:27 | every way of matching the tag pattern at `p` makes the matcher succeed there |
| ShortcodePattern.MatchTagAtChoice | joomla_shortcode_plugin.php:27 | the capture starts after the whole blank run, ends before the first `}`, and contains no `}` |
| Attributes.MatchPairAt | joomla_shortcode_plugin.php:54 | a pair match starts where it was tried and lies inside the text |
| Attributes.AttributePairs | joomla_shortcode_plugin.php:54 | the pairs `preg_match_all` finds in an attribute string, as the leftmost scan of the pair pattern |
| Attributes.MatchPairAtIsRegexMatch | joomla_shortcode_plugin.php:54 | a pair is reported at `p` if and only if word characters, `=`, a quote, non-line-feed characters and a quote of either kind occur there |
| Attributes.PairShapeIsFound | joomla_shortcode_plugin.php:54 | every way of matching the pair pattern at `p` makes the matcher succeed there |
| Attributes.MatchPairAtChoice | joomla_shortcode_plugin.php:54 | the key is the whole word run before `=`; the value is the shortest run after the opening quote, up to the next `"` or `'`, and holds no quote |
| Attributes.LastIndexOf | joomla_shortcode_plugin.php:55-57 | the index found is the last pair whose lower-cased key is the given one, and `None` exactly when there is none |
| Attributes.LastWinsTable | joomla_shortcode_plugin.php:45-58 | the table's keys are the five default keys plus every lower-cased key of a pair |
| Attributes.LastPairWins | joomla_shortcode_plugin.php:55-57 | a key that some pair names holds the value of the last such pair |
| Attributes.UnnamedDefaultKept | joomla_shortcode_plugin.php:45-51 | a default key that no pair names keeps its default value |
| Attributes.LastWinsTableNoPairs | joomla_shortcode_plugin.php:45-51 | without pairs the table is exactly the defaults: url '', width '100%', height '600px', loading 'true', title 'BioToken App' |
| Attributes.KeysOfSnoc | joomla_shortcode_plugin.php:55-57 | appending a pair adds exactly its lower-cased key to the named keys |
| Attributes.EntrySnoc | joomla_shortcode_plugin.php:55-57 | after appending a pair, its key holds its value and every other key is unchanged |
| Attributes.LastWinsTableSnoc | joomla_shortcode_plugin.php:55-57 | one more loop step (store the pair under its lower-cased key) turns the table for a prefix into the table for the longer prefix |
| Attributes.TableOf | joomla_shortcode_plugin.php:45-57 | storing the pairs one after another over the defaults never loses a default key; `TableOfIsLastWins` gives the whole table |
| Attributes.TableOfIsLastWins | joomla_shortcode_plugin.php:54-58 | the loop's fold over the pairs equals the declarative last-wins table |
| Attributes.AttributeTable | joomla_shortcode_plugin.php:43-61 | the parsed table always holds the five default keys |
| Attributes.ParseAttributes | joomla_shortcode_plugin.php:43-61 | the loop over the matched pairs returns `AttributeTable` of the attribute string, which is the last-wins table by `TableOfIsLastWins` |
| Attributes.DefaultKeysAreLowerCase | joomla_shortcode_plugin.php:45-51 | the default keys are fixed points of `strtolower` |
| Attributes.TableKeysAreLowerCase | joomla_shortcode_plugin.php:55-57 | every key of a parsed table is in lower case |
| Attributes.UnquotedStringGivesDefaults | joomla_shortcode_plugin.php:54 | a body without any quote yields no pairs, so unquoted values contribute nothing and the table is the defaults |
| EmbedMarkup.Layout | joomla_shortcode_plugin.php:66-180 | the pieces of the markup, in order; `LayoutShape` states their shape |
| EmbedMarkup.Render | joomla_shortcode_plugin.php:68-180 | the exact text of each piece, with the escaped values and the id inserted |
| EmbedMarkup.GenerateEmbed | joomla_shortcode_plugin.php:66-180 | the markup is the rendered pieces in order; `GenerateEmbedOpensWrapper`, `OutputDependsOnlyOnEscapedValues` and `UnknownKeysIgnored` state what it depends on |
| EmbedMarkup.LayoutShape | joomla_shortcode_plugin.php:66-180 | the wrapper is first and the style block is always last; loading panel and loader script appear if and only if `loading` is exactly `true`; the container is `display: none` then and `block` otherwise; every piece uses `biotoken-` plus the unique id; every attribute value inserted is escaped |
| EmbedMarkup.GenerateEmbedOpensWrapper | joomla_shortcode_plugin.php:68-71 | the markup begins with the wrapper `div` carrying `biotoken-` plus the unique id |
| EmbedMarkup.OutputDependsOnlyOnEscapedValues | joomla_shortcode_plugin.php:66-180 | two tables whose escaped url, title, width and height agree and whose `loading` agrees on being `true` give the same markup |
| EmbedMarkup.UnknownKeysIgnored | joomla_shortcode_plugin.php:66-122 | keys other than the five defaults never change the markup |
| ContentPlugin.ShortcodesAreLeftmostScan | joomla_shortcode_plugin.php:27-29 | the shortcodes found are the leftmost non-overlapping matches of the tag pattern |
| ContentPlugin.Shortcodes | joomla_shortcode_plugin.php:27-29 | the matches `preg_match_all` finds in the article text, as the leftmost scan of the tag pattern |
| ContentPlugin.ShortcodesInBounds | joomla_shortcode_plugin.php:29 | each shortcode found lies inside the text |
| ContentPlugin.ReplacementsOpenWithIds | joomla_shortcode_plugin.php:30-32 | the replacement for match `i` opens with the wrapper `div` whose id is `biotoken-` plus the `i`-th unique id |
| ContentPlugin.AfterPasses | joomla_shortcode_plugin.php:30-34 | the text after the first `n` passes of the `foreach`; `PassReplacesEveryOccurrence` states what one pass does |
| ContentPlugin.PreparedText | joomla_shortcode_plugin.php:22-35 | the text `onContentPrepare` leaves: unchanged without the marker, otherwise every pass applied; `WithoutMarkerUnchanged`, `WithoutShortcodeUnchanged`, `UpperCaseTagLeftAlone` and the other example lemmas state its behaviour |
| ContentPlugin.OnContentPrepare | joomla_shortcode_plugin.php:19-38 | always returns true and leaves the prepared text in the article: unchanged without the marker; otherwise each match's text is passed to `str_replace` in turn, on the text as the earlier passes left it |
| ContentPlugin.ReplaceAllShortcodes | joomla_shortcode_plugin.php:30-35 | after the `foreach`, the article holds the original text with pass `i` applied for every match `i` |
| ContentPlugin.ReplaceShortcode | joomla_shortcode_plugin.php:31-33 | one pass parses the capture, generates the markup and replaces every occurrence of the match text |
| ContentPlugin.WithoutMarkerUnchanged | joomla_shortcode_plugin.php:22-24 | a text without the lower-case `{biotoken` is returned as it is |
| ContentPlugin.WithoutShortcodeUnchanged | joomla_shortcode_plugin.php:29 | a text in which the pattern finds nothing is returned as it is |
| ContentPlugin.PassReplacesEveryOccurrence | joomla_shortcode_plugin.php:33 | pass `n` cuts the current text at every occurrence of match `n`'s text and glues the pieces with its markup; no piece still contains that text |
| ContentPlugin.UpperCaseTagLeftAlone | joomla_shortcode_plugin.php:22-27 | `{BIOTOKEN x="y"}` is a match of the pattern, yet the text is returned unchanged |
| ContentPlugin.BareKeywordIsNoShortcode | joomla_shortcode_plugin.php:27 | `{biotoken}` is not a shortcode and stays as it is |
| ContentPlugin.LineBreakInTagIsNoShortcode | joomla_shortcode_plugin.php:27 | a tag whose `}` follows a line feed is not a shortcode and stays as it is |
| ContentPlugin.NestedTagNotReplaced | joomla_shortcode_plugin.php:29-33 | in `{biotoken a} {biotoken x{biotoken a}` both tags are shortcodes; the first pass leaves the first markup, ` {biotoken x` and the first markup again, and the second pass only searches that text for the second tag's whole text |
| ContentPlugin.NestedShortcodes | joomla_shortcode_plugin.php:27-29 | the scan of that text finds `(0, 12, "a")` and `(13, 36, "x{biotoken a")` |
| ContentPlugin.NestedFirstPass | joomla_shortcode_plugin.php:33 | the first pass replaces both copies of `{biotoken a}`, also the one closing the second tag |
| ContentPlugin.TagFoundAt | joomla_shortcode_plugin.php:27 | the tag pattern matches where the keyword, a blank run and a lazy body up to `}` follow each other |
| ContentPlugin.LazyStopsAt | joomla_shortcode_plugin.php:27 | `.*?` stops at the first `}` when no line feed comes before it |
| JsValues.Digits | embed_script.js:40 | the decimal numeral of a number is non-empty, made of digits, and has no leading zero |
| JsValues.Truthy | embed_script.js:10-27 | JavaScript truthiness: `undefined`, `null`, `false`, `0` and `""` are falsy, everything else truthy |
| JsValues.Or | embed_script.js:10-27 | JavaScript's logical or: the first operand when it is truthy, else the second |
| JsValues.DigitsValue | embed_script.js:40 | the numeral `Digits(n)` denotes `n`, so for numbers below 10^21, where `String(n)` is the plain numeral, `getElementById` looks up the number's own decimal name |
| JsValues.ToJsString | embed_script.js:40 | `String(v)` as `getElementById` applies it to the container id: `undefined`, `null`, `true`/`false`, the decimal numeral with a leading `-` for negatives, a string itself, a function's source text |
| EmbedOptions.Resolve | embed_script.js:8-28 | every text option ends up truthy; `showBorder` and `allowFullscreen` are on unless given exactly `false`; every callback is `null` or truthy |
| EmbedOptions.ResolveKeepsTruthyOptions | embed_script.js:10-27 | each option is kept when truthy and otherwise replaced by its default, or by `null` for callbacks, so an empty string also falls back |
| EmbedOptions.ResolveIdempotent | embed_script.js:8-28 | resolving already resolved options changes nothing |
| EmbedOptions.DefaultsWithoutOptions | embed_script.js:7-28 | with no options: containerId 'biotoken-app', width '100%', height '600px', the placeholder base URL, border and fullscreen on, the listed styling and sandbox defaults, loading 'lazy', and null callbacks |
| EmbedController.NewIframe | embed_script.js:69-87 | the new iframe's src is the base URL and its loading is the loading option; it has the fixed title, the `application` role, 100% size, no frame border, border none and display block; fullscreen follows the option; the sandbox is set only when the option is truthy |
| EmbedController.ContainerStyle | embed_script.js:92-106 | width, height, background, position and overflow are always set; border radius and shadow are set if and only if `showBorder` holds; no other property is set |
| EmbedController.Embedded | embed_script.js:53-105 | the container after `setupStyles` and `appendChild`: its children plus the new iframe, its style updated with the container style |
| EmbedController.Deliveries | embed_script.js:135-141 | with `n` listeners, a message yields `n` calls of `onMessage` with `event.data` if its origin equals the base URL's origin exactly and `onMessage` is a function, and none otherwise |
| EmbedController.ForeignOriginIgnored | embed_script.js:135-141 | a message from any other origin reaches no callback |
| EmbedController.Resized | embed_script.js:189-198 | the page keeps its ids; every element other than the container is unchanged, and the container keeps its children |
| EmbedController.ResizedIdempotent | embed_script.js:189-198 | resizing twice at the same width equals resizing once; only the container can change, and only below 768 pixels |
| EmbedController.WithoutFrame | embed_script.js:205 | removing the iframe keeps every other child exactly as often as it was there, adds none, and changes nothing when the iframe is not a child |
| EmbedController.WithoutFrameKeepsFrames | embed_script.js:205 | removing an iframe keeps no iframe that was not there before |
| EmbedController.AppendedFrameIsNew | embed_script.js:47-53 | a newly created iframe is not yet a child of the container, and after appending it is the latest iframe there |
| EmbedController.Document.constructor | embed_script.js:40 | a page as delivered: every element is on the page and no iframe has been created |
| EmbedController.Document.RemoveElement | embed_script.js:40-44 | an element taken off the page is no longer found by id, while references to it stay valid |
| EmbedController.BioTokenEmbed.constructor | embed_script.js:7-32 | the options are resolved; `iframe` and `container` start null; no listener is registered |
| EmbedController.BioTokenEmbed.Key | embed_script.js:40 | the string `getElementById` receives: `String(containerId)` |
| EmbedController.BioTokenEmbed.Embed | embed_script.js:37-56 | the result is true exactly when an element of the configured id is on the page. Without it: `container` becomes null, the page, `iframe` and the listeners are unchanged, no callback runs, and the result is false. Otherwise the container is styled and gets exactly one new iframe appended; the listeners are added, the iframe is attached, and the result is true |
| EmbedController.BioTokenEmbed.ShowErrorMessage | embed_script.js:152-184 | the container's only child is the error panel; its style is kept, and the iframe is detached |
| EmbedController.BioTokenEmbed.IframeLoaded | embed_script.js:118-123 | `onLoad` is called with the embed's current iframe exactly when it is a function; a truthy non-function throws and nothing is called |
| EmbedController.BioTokenEmbed.IframeError | embed_script.js:126-132 | with a container, the error panel replaces its children first, and then `onError`, when it is a function, is called with the event at a moment when the panel is the container's only child (the logged `ErrorEvent([ErrorPanel])`); with a null container, `showErrorMessage` throws and nothing changes |
| EmbedController.BioTokenEmbed.WindowMessage | embed_script.js:135-141 | a window message adds exactly the calls `Deliveries` gives for this embed's listeners |
| EmbedController.BioTokenEmbed.HandleResize | embed_script.js:189-198 | only with both an iframe and a container, and only when narrower than 768 pixels, the container's height becomes `500px`; nothing else changes |
| EmbedController.BioTokenEmbed.WindowResize | embed_script.js:144-146 | however many resize listeners there are, the page ends up resized once, or unchanged without a listener |
| EmbedController.BioTokenEmbed.Destroy | embed_script.js:203-212 | afterwards `iframe` is null and detached. With a container, the container has no children. Without one, only the iframe is removed from the element it was appended to. With neither, nothing changes, so a second call changes nothing more |
| EmbedController.BioTokenEmbed.SendMessage | embed_script.js:217-221 | posts the message, with the base URL as target origin, exactly when the embed's iframe is on the page, `postMessage` accepts the target origin, and the message is not a function; otherwise, for example after `destroy`, nothing is posted |
| EmbedController.TargetOriginAccepted | embed_script.js:219 | `postMessage` accepts `*`, `/` or a URL that parses as target origin |

## Left out

- `uniqid()` is time-based. The model takes its successive results as the parameter `uniqid`.
- `htmlspecialchars` is modelled for `&`, `<`, `>` and `"` only. Whether `'` is encoded depends on the PHP version's default flags.
- The error panel's HTML in the embed script (embed_script.js:154-180) is the opaque node `ErrorPanel`. Its text is not reproduced.
- The long fixed texts of the template are reproduced, but not interpreted:
  - the loader `<script>` with its 5-second fallback timer;
  - the CSS block.
- PHP strings are byte strings; the model works on characters. `strtolower` is modelled as ASCII-only, and `\w` and `\s` as PCRE's non-Unicode classes.
- The Joomla plugin registration (`JPlugin`, the plugin event wiring) and every `console` call are not modelled.
- `joomla_module.php` is not part of this model. It is a server template whose inputs all come from the framework.
- `embed()` has a `catch` path for exceptions thrown by DOM operations. It is not modelled, because the abstract page never throws.
- The `DOMContentLoaded` auto-embedding is not modelled. It maps the `data-biotoken-*` attributes of marked elements onto constructor options and calls `embed()`.
- Numbers in `JsValues` are integers. Fractions, `NaN` and `-0` are not modelled.
- JsValues.ToJsString prints every number as a plain decimal numeral. JavaScript numbers are doubles: from 10^21 on, `String(n)` uses exponential form (`1e+21`), and not every integer above 2^53 is representable. The model takes a numeric `containerId` to be below 10^21 in magnitude; for a larger one, `Key()` differs from the string `getElementById` receives.
- `EmbedController.BioTokenEmbed.IframeLoaded` and `IframeError` stand for the listeners of any iframe this embed created. The model does not track which iframe fired.
- `EmbedController.BioTokenEmbed.Destroy` removes the iframe only from the element of the configured id. Only `Embed` appends this embed's iframes, and always under that id, so no other element holds one.
- JavaScript objects, arrays and symbols are not among the `JsValues` values. For example, `width: {}` is truthy and would be kept by the defaulting; the model cannot express it.
- `new BioTokenEmbed(null)` throws a `TypeError` when it reads `options.containerId`. The model's constructor takes an option record and does not model that throw.
- `preg_match_all` returns `false` when PCRE hits its backtracking or recursion limits. The model's search always completes.
- `ContentPlugin.PassReplacesEveryOccurrence` does not prove the following: when two shortcodes have the same text, the later pass finds nothing left (given that `uniqid()` yields hex digits, so that no markup contains a shortcode), so both share the first pass's markup and id. The passes are modelled exactly, but that consequence is not stated as a lemma.
