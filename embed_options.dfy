/** The option handling of the `BioTokenEmbed` constructor: each option
    the caller gives is kept or replaced by its default. */
module EmbedOptions {
  import opened JsValues

  /** The options object passed to the constructor; a property the caller
      leaves out is `Undefined`. */
  datatype Options = Options(
    containerId: JsValue, width: JsValue, height: JsValue, baseUrl: JsValue,
    showBorder: JsValue, borderRadius: JsValue, boxShadow: JsValue, backgroundColor: JsValue,
    allowFullscreen: JsValue, sandbox: JsValue, loading: JsValue,
    onLoad: JsValue, onError: JsValue, onMessage: JsValue)

  /** `new BioTokenEmbed()` without an argument: `options = {}`. */
  const NoOptions: Options := Options(
    Undefined, Undefined, Undefined, Undefined, Undefined, Undefined, Undefined,
    Undefined, Undefined, Undefined, Undefined, Undefined, Undefined, Undefined)

  /** `this.options` after construction. */
  datatype Config = Config(
    containerId: JsValue, width: JsValue, height: JsValue, baseUrl: JsValue,
    showBorder: bool, borderRadius: JsValue, boxShadow: JsValue, backgroundColor: JsValue,
    allowFullscreen: bool, sandbox: JsValue, loading: JsValue,
    onLoad: JsValue, onError: JsValue, onMessage: JsValue)

  const DefaultContainerId := "biotoken-app"
  const DefaultWidth := "100%"
  const DefaultHeight := "600px"
  const DefaultBaseUrl := "https://your-domain.com/biotoken"
  const DefaultBorderRadius := "8px"
  const DefaultBoxShadow := "0 4px 12px rgba(0,0,0,0.15)"
  const DefaultBackgroundColor := "#ffffff"
  const DefaultSandbox := "allow-scripts allow-same-origin allow-popups allow-forms"
  const DefaultLoading := "lazy"

  /** A text option after `option || default`: the given value when it is
      truthy, else the default. */
  predicate KeptOrDefaulted(given: JsValue, resolved: JsValue, default: string)
  {
    if Truthy(given) then resolved == given else resolved == Str(default)
  }

  /** A callback after `option || null`. */
  predicate KeptOrNull(given: JsValue, resolved: JsValue)
  {
    if Truthy(given) then resolved == given else resolved == Null
  }

  /** The constructor's option resolution. Every text option ends up
      truthy, whatever the caller passed; the two switches are on unless
      given exactly `false`; every callback is either a truthy value or
      `null`. */
  function Resolve(o: Options): (c: Config)
    ensures Truthy(c.containerId) && Truthy(c.width) && Truthy(c.height) && Truthy(c.baseUrl)
    ensures Truthy(c.borderRadius) && Truthy(c.boxShadow) && Truthy(c.backgroundColor)
    ensures Truthy(c.sandbox) && Truthy(c.loading)
    ensures c.showBorder <==> o.showBorder != Bool(false)
    ensures c.allowFullscreen <==> o.allowFullscreen != Bool(false)
    ensures (c.onLoad == Null || Truthy(c.onLoad)) && (c.onError == Null || Truthy(c.onError))
    ensures c.onMessage == Null || Truthy(c.onMessage)
  {
    Config(
      containerId := Or(o.containerId, Str(DefaultContainerId)),
      width := Or(o.width, Str(DefaultWidth)),
      height := Or(o.height, Str(DefaultHeight)),
      baseUrl := Or(o.baseUrl, Str(DefaultBaseUrl)),
      showBorder := o.showBorder != Bool(false),
      borderRadius := Or(o.borderRadius, Str(DefaultBorderRadius)),
      boxShadow := Or(o.boxShadow, Str(DefaultBoxShadow)),
      backgroundColor := Or(o.backgroundColor, Str(DefaultBackgroundColor)),
      allowFullscreen := o.allowFullscreen != Bool(false),
      sandbox := Or(o.sandbox, Str(DefaultSandbox)),
      loading := Or(o.loading, Str(DefaultLoading)),
      onLoad := Or(o.onLoad, Null),
      onError := Or(o.onError, Null),
      onMessage := Or(o.onMessage, Null))
  }

  /** Each option is kept exactly when it is truthy and otherwise replaced
      by its default, so an empty string, `0` or `false` also falls back. */
  lemma ResolveKeepsTruthyOptions(o: Options)
    ensures var c := Resolve(o);
      && KeptOrDefaulted(o.containerId, c.containerId, DefaultContainerId)
      && KeptOrDefaulted(o.width, c.width, DefaultWidth)
      && KeptOrDefaulted(o.height, c.height, DefaultHeight)
      && KeptOrDefaulted(o.baseUrl, c.baseUrl, DefaultBaseUrl)
      && KeptOrDefaulted(o.borderRadius, c.borderRadius, DefaultBorderRadius)
      && KeptOrDefaulted(o.boxShadow, c.boxShadow, DefaultBoxShadow)
      && KeptOrDefaulted(o.backgroundColor, c.backgroundColor, DefaultBackgroundColor)
      && KeptOrDefaulted(o.sandbox, c.sandbox, DefaultSandbox)
      && KeptOrDefaulted(o.loading, c.loading, DefaultLoading)
      && KeptOrNull(o.onLoad, c.onLoad) && KeptOrNull(o.onError, c.onError)
      && KeptOrNull(o.onMessage, c.onMessage)
  {
  }

  /** The configuration seen as an options object again. */
  function AsOptions(c: Config): Options
  {
    Options(
      c.containerId, c.width, c.height, c.baseUrl, Bool(c.showBorder), c.borderRadius,
      c.boxShadow, c.backgroundColor, Bool(c.allowFullscreen), c.sandbox, c.loading,
      c.onLoad, c.onError, c.onMessage)
  }

  /** Resolving a resolved configuration changes nothing: an embed built
      from another embed's options behaves the same. */
  lemma ResolveIdempotent(o: Options)
    ensures Resolve(AsOptions(Resolve(o))) == Resolve(o)
  {
  }

  /** Without options every default applies and both switches are on. */
  lemma DefaultsWithoutOptions()
    ensures Resolve(NoOptions) == Config(
      Str("biotoken-app"), Str("100%"), Str("600px"), Str("https://your-domain.com/biotoken"),
      true, Str("8px"), Str("0 4px 12px rgba(0,0,0,0.15)"), Str("#ffffff"),
      true, Str("allow-scripts allow-same-origin allow-popups allow-forms"), Str("lazy"),
      Null, Null, Null)
  {
  }
}
