/** `PlgContentBiotoken::generateBioTokenEmbed`: the markup that replaces
    one shortcode. The generator is a fixed template with holes; the holes
    are the unique id and four attribute values, each value passed through
    `htmlspecialchars` first. The model names the template's pieces
    (`Layout`) and renders each piece to its exact text (`Render`). */
module EmbedMarkup {
  import opened Html
  import Attributes

  /** The pieces of the markup in the order they are appended. `Container`
      also closes the wrapper `div`. */
  datatype Part =
    | Wrapper(id: string)
    | LoadingPanel(id: string, height: string, title: string)
    | Container(id: string, display: string, src: string, title: string, width: string, height: string)
    | LoaderScript(id: string)
    | Styles

  /** The id of the wrapper element; the other elements append `-loading`,
      `-container` and `-iframe` to it. */
  function IdOf(uniqid: string): string
  {
    "biotoken-" + uniqid
  }

  predicate HasLoadingPanel(parts: seq<Part>)
  {
    exists i :: 0 <= i < |parts| && parts[i].LoadingPanel?
  }

  predicate HasLoaderScript(parts: seq<Part>)
  {
    exists i :: 0 <= i < |parts| && parts[i].LoaderScript?
  }

  /** Every text a piece takes from an attribute is inert in HTML. */
  predicate InertFields(p: Part)
  {
    match p
    case LoadingPanel(_, height, title) => IsInert(height) && IsInert(title)
    case Container(_, _, src, title, width, height) =>
      IsInert(src) && IsInert(title) && IsInert(width) && IsInert(height)
    case _ => true
  }

  /** The pieces `generateBioTokenEmbed` appends for an attribute table and
      the value of `uniqid()`. */
  function Layout(attributes: map<string, string>, uniqid: string): seq<Part>
    requires Attributes.Defaults.Keys <= attributes.Keys
  {
    var id := IdOf(uniqid);
    var showLoading := attributes["loading"] == "true";
    var url := HtmlSpecialChars(attributes["url"]);
    var title := HtmlSpecialChars(attributes["title"]);
    var width := HtmlSpecialChars(attributes["width"]);
    var height := HtmlSpecialChars(attributes["height"]);
    var container := Container(id, if showLoading then "none" else "block", url, title, width, height);
    if showLoading then [Wrapper(id), LoadingPanel(id, height, title), container, LoaderScript(id), Styles]
    else [Wrapper(id), container, Styles]
  }

  /** The loading panel and the loader script are there exactly when the
      `loading` attribute is the string `true`, and the container is then
      hidden until the script shows it; the wrapper comes first and the
      style block always comes last; every piece carries the same id; and
      every attribute value reaches a piece only in escaped form. */
  lemma LayoutShape(attributes: map<string, string>, uniqid: string)
    requires Attributes.Defaults.Keys <= attributes.Keys
    ensures var parts := Layout(attributes, uniqid);
      && |parts| >= 2 && parts[0] == Wrapper(IdOf(uniqid)) && parts[|parts| - 1] == Styles
      && (HasLoadingPanel(parts) <==> attributes["loading"] == "true")
      && (HasLoaderScript(parts) <==> attributes["loading"] == "true")
      && (exists i :: 0 <= i < |parts| && parts[i].Container?)
      && (forall i :: 0 <= i < |parts| && parts[i].Container? ==>
            parts[i].display == (if attributes["loading"] == "true" then "none" else "block"))
      && (forall i :: 0 <= i < |parts| && !parts[i].Styles? ==> parts[i].id == IdOf(uniqid))
      && (forall i :: 0 <= i < |parts| ==> InertFields(parts[i]))
  {
    var parts := Layout(attributes, uniqid);
    if attributes["loading"] == "true" {
      assert parts[1].LoadingPanel? && parts[3].LoaderScript? && parts[2].Container?;
    } else {
      assert parts[1].Container?;
    }
  }

  /** The exact text of one piece. */
  function Render(p: Part): string
  {
    match p
    case Wrapper(id) => "<div id=\"" + id + "\" class=\"biotoken-shortcode-embed\">"
    case LoadingPanel(id, height, title) =>
      "\n" +
      "            <div id=\"" + id + "-loading\" class=\"biotoken-loading\" style=\"\n" +
      "                display: flex; \n" +
      "                flex-direction: column; \n" +
      "                align-items: center; \n" +
      "                justify-content: center; \n" +
      "                height: " + height + "; \n" +
      "                background: #f8f9fa; \n" +
      "                border-radius: 8px; \n" +
      "                border: 1px solid #dee2e6;\n" +
      "                margin: 20px 0;\n" +
      "            \">\n" +
      "                <div style=\"\n" +
      "                    width: 40px; \n" +
      "                    height: 40px; \n" +
      "                    border: 4px solid #e3f2fd; \n" +
      "                    border-top: 4px solid #2196f3; \n" +
      "                    border-radius: 50%; \n" +
      "                    animation: biotoken-spin 1s linear infinite; \n" +
      "                    margin-bottom: 15px;\n" +
      "                \"></div>\n" +
      "                <p style=\"color: #666; font-size: 14px; margin: 0;\">\n" +
      "                    " + title + " wird geladen...\n" +
      "                </p>\n" +
      "            </div>"
    case Container(id, display, src, title, width, height) =>
      "\n" +
      "        <div id=\"" + id + "-container\" class=\"biotoken-container\" style=\"display: " + display + "; margin: 20px 0;\">\n" +
      "            <iframe \n" +
      "                id=\"" + id + "-iframe\"\n" +
      "                src=\"" + src + "\"\n" +
      "                title=\"" + title + "\"\n" +
      "                style=\"\n" +
      "                    width: " + width + "; \n" +
      "                    height: " + height + "; \n" +
      "                    border: none; \n" +
      "                    border-radius: 8px;\n" +
      "                    box-shadow: 0 4px 6px rgba(0,0,0,0.1);\n" +
      "                \"\n" +
      "                allowfullscreen\n" +
      "                loading=\"lazy\">\n" +
      "                <p>Ihr Browser unterst\U{00FC}tzt keine iFrames. \n" +
      "                   <a href=\"" + src + "\" target=\"_blank\">\n" +
      "                   \U{00D6}ffnen Sie die BioToken App hier</a>.\n" +
      "                </p>\n" +
      "            </iframe>\n" +
      "        </div>\n" +
      "        </div>"
    case LoaderScript(id) =>
      "\n" +
      "            <script>\n" +
      "            (function() {\n" +
      "                var iframe = document.getElementById(\"" + id + "-iframe\");\n" +
      "                var container = document.getElementById(\"" + id + "-container\");\n" +
      "                var loading = document.getElementById(\"" + id + "-loading\");\n" +
      "                \n" +
      "                if (iframe && container && loading) {\n" +
      "                    iframe.addEventListener(\"load\", function() {\n" +
      "                        loading.style.display = \"none\";\n" +
      "                        container.style.display = \"block\";\n" +
      "                    });\n" +
      "                    \n" +
      "                    // Fallback: Show iframe after 5 seconds\n" +
      "                    setTimeout(function() {\n" +
      "                        if (loading.style.display !== \"none\") {\n" +
      "                            loading.style.display = \"none\";\n" +
      "                            container.style.display = \"block\";\n" +
      "                        }\n" +
      "                    }, 5000);\n" +
      "                }\n" +
      "            })();\n" +
      "            </script>"
    case Styles =>
      "\n" +
      "        <style>\n" +
      "        @keyframes biotoken-spin {\n" +
      "            0% { transform: rotate(0deg); }\n" +
      "            100% { transform: rotate(360deg); }\n" +
      "        }\n" +
      "        \n" +
      "        .biotoken-shortcode-embed iframe {\n" +
      "            transition: transform 0.3s ease;\n" +
      "        }\n" +
      "        \n" +
      "        .biotoken-shortcode-embed iframe:hover {\n" +
      "            transform: translateY(-2px);\n" +
      "        }\n" +
      "        \n" +
      "        @media (max-width: 768px) {\n" +
      "            .biotoken-shortcode-embed iframe {\n" +
      "                height: 500px !important;\n" +
      "            }\n" +
      "        }\n" +
      "        \n" +
      "        @media (max-width: 480px) {\n" +
      "            .biotoken-shortcode-embed iframe {\n" +
      "                height: 400px !important;\n" +
      "            }\n" +
      "        }\n" +
      "        </style>"
  }

  function RenderAll(parts: seq<Part>): string
  {
    if parts == [] then "" else Render(parts[0]) + RenderAll(parts[1..])
  }

  /** `generateBioTokenEmbed($attributes)` where `uniqid()` returned
      `uniqid`: the pieces of the layout, rendered one after another. */
  function GenerateEmbed(attributes: map<string, string>, uniqid: string): string
    requires Attributes.Defaults.Keys <= attributes.Keys
  {
    RenderAll(Layout(attributes, uniqid))
  }

  /** The markup opens the wrapper element carrying the unique id. */
  lemma GenerateEmbedOpensWrapper(attributes: map<string, string>, uniqid: string)
    requires Attributes.Defaults.Keys <= attributes.Keys
    ensures Render(Wrapper(IdOf(uniqid))) <= GenerateEmbed(attributes, uniqid)
  {
    var parts := Layout(attributes, uniqid);
    assert parts[0] == Wrapper(IdOf(uniqid));
    assert RenderAll(parts) == Render(parts[0]) + RenderAll(parts[1..]);
  }

  /** The attribute `key` of both tables escapes to the same text. */
  predicate SameEscaped(a1: map<string, string>, a2: map<string, string>, key: string)
  {
    key in a1 && key in a2 && HtmlSpecialChars(a1[key]) == HtmlSpecialChars(a2[key])
  }

  /** The output depends on the attribute table only through the escaped
      url, title, width and height and whether `loading` is `true`: no
      other attribute, and no raw form of these, reaches the markup. */
  lemma OutputDependsOnlyOnEscapedValues(a1: map<string, string>, a2: map<string, string>, uniqid: string)
    requires Attributes.Defaults.Keys <= a1.Keys && Attributes.Defaults.Keys <= a2.Keys
    requires (a1["loading"] == "true") == (a2["loading"] == "true")
    requires SameEscaped(a1, a2, "url") && SameEscaped(a1, a2, "title")
    requires SameEscaped(a1, a2, "width") && SameEscaped(a1, a2, "height")
    ensures GenerateEmbed(a1, uniqid) == GenerateEmbed(a2, uniqid)
  {
    assert Layout(a1, uniqid) == Layout(a2, uniqid);
  }

  /** Attributes outside the defaults' keys are stored by the parser but
      never read by the generator. */
  lemma UnknownKeysIgnored(a1: map<string, string>, a2: map<string, string>, uniqid: string)
    requires Attributes.Defaults.Keys <= a1.Keys && Attributes.Defaults.Keys <= a2.Keys
    requires forall k :: k in Attributes.Defaults ==> a1[k] == a2[k]
    ensures GenerateEmbed(a1, uniqid) == GenerateEmbed(a2, uniqid)
  {
    OutputDependsOnlyOnEscapedValues(a1, a2, uniqid);
  }
}
