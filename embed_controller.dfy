/** The `BioTokenEmbed` class of the embed script: a small state machine
    over two nullable fields, `iframe` and `container`, acting on an
    abstract page. The page is a map from element id to an element record
    (its children and its style properties); `new URL(...).origin` and the
    container's layout width are inputs; the callbacks the class invokes and
    the messages it posts are recorded in logs. */
module EmbedController {
  import opened Wrappers
  import opened JsValues
  import opened EmbedOptions

  /** An iframe created by `embed`. `serial` tells iframes apart: it is
      the number of iframes the page had created before this one. */
  datatype Iframe = Iframe(
    serial: nat,
    src: JsValue,
    width: string,
    height: string,
    frameBorder: string,
    loading: JsValue,
    allowFullscreen: bool,
    sandbox: Option<JsValue>,
    title: string,
    role: string,
    border: string,
    display: string)

  /** A child node of an element: an iframe created by an embed, the error
      panel of `showErrorMessage`, or anything else the page holds. */
  datatype Node = Frame(iframe: Iframe) | ErrorPanel | Other

  datatype Element = Element(children: seq<Node>, style: map<string, JsValue>)

  /** What a callback was invoked with: the embed's current iframe, the
      error event of an iframe (with the children the container held when
      the callback ran), or the data of a window message. */
  datatype Argument = FrameArg(frame: Option<Iframe>) | ErrorEvent(seen: seq<Node>) | Data(data: JsValue)

  datatype Invocation = Invocation(callback: JsValue, argument: Argument)

  /** A `postMessage` to the iframe with serial `target`. */
  datatype Post = Post(target: nat, message: JsValue, targetOrigin: JsValue)

  /** The iframe that `document.createElement` followed by `setupIframe`
      produces: its source is the base URL, it loads as the `loading`
      option says, it carries the fixed title and the `application` role,
      and it gets the sandbox only when that option is truthy. */
  function NewIframe(c: Config, serial: nat): (f: Iframe)
    ensures f.serial == serial && f.src == c.baseUrl && f.loading == c.loading
    ensures f.width == "100%" && f.height == "100%" && f.frameBorder == "0"
    ensures f.allowFullscreen == c.allowFullscreen
    ensures f.sandbox.Some? <==> Truthy(c.sandbox)
    ensures f.sandbox.Some? ==> f.sandbox.value == c.sandbox
    ensures f.title == "BioToken Biodiversit\U{00E4}ts-App" && f.role == "application"
    ensures f.border == "none" && f.display == "block"
  {
    Iframe(
      serial := serial,
      src := c.baseUrl,
      width := "100%",
      height := "100%",
      frameBorder := "0",
      loading := c.loading,
      allowFullscreen := c.allowFullscreen,
      sandbox := if Truthy(c.sandbox) then Some(c.sandbox) else None,
      title := "BioToken Biodiversit\U{00E4}ts-App",
      role := "application",
      border := "none",
      display := "block")
  }

  /** The style properties `setupStyles` assigns to the container: size
      and background always, the rounded border and the shadow only when
      `showBorder` is on, and nothing else. */
  function ContainerStyle(c: Config): (s: map<string, JsValue>)
    ensures s.Keys <= {"width", "height", "backgroundColor", "position", "overflow", "borderRadius", "boxShadow"}
    ensures "width" in s && s["width"] == c.width
    ensures "height" in s && s["height"] == c.height
    ensures "backgroundColor" in s && s["backgroundColor"] == c.backgroundColor
    ensures "position" in s && s["position"] == Str("relative")
    ensures "overflow" in s && s["overflow"] == Str("hidden")
    ensures "borderRadius" in s <==> c.showBorder
    ensures "boxShadow" in s <==> c.showBorder
    ensures c.showBorder ==> s["borderRadius"] == c.borderRadius && s["boxShadow"] == c.boxShadow
  {
    var base := map["width" := c.width, "height" := c.height, "backgroundColor" := c.backgroundColor,
                    "position" := Str("relative"), "overflow" := Str("hidden")];
    if c.showBorder then base["borderRadius" := c.borderRadius]["boxShadow" := c.boxShadow] else base
  }

  /** `Object.assign(container.style, …)` followed by `appendChild`. */
  function Embedded(e: Element, f: Iframe, c: Config): Element
  {
    Element(e.children + [Frame(f)], e.style + ContainerStyle(c))
  }

  /** Whether one window message listener passes the message on: only when
      the event's origin is exactly the origin of the base URL, and the
      `onMessage` callback is a function. `originOf` is `new URL(...).origin`,
      and `None` when the URL does not parse, in which case the listener
      throws and calls nothing; a truthy `onMessage` that is no function
      throws a `TypeError` when called, so it is not called either. */
  function Deliveries(n: nat, c: Config, origin: string, data: JsValue, originOf: string -> Option<string>): (calls: seq<Invocation>)
    ensures |calls| == if originOf(ToJsString(c.baseUrl)) == Some(origin) && c.onMessage.Function? then n else 0
    ensures forall i :: 0 <= i < |calls| ==> calls[i] == Invocation(c.onMessage, Data(data))
  {
    if n == 0 || originOf(ToJsString(c.baseUrl)) != Some(origin) || !c.onMessage.Function? then []
    else Deliveries(n - 1, c, origin, data, originOf) + [Invocation(c.onMessage, Data(data))]
  }

  /** A message from any other origin reaches no callback, however many
      listeners the embeds have left on the window. */
  lemma ForeignOriginIgnored(n: nat, c: Config, origin: string, data: JsValue, originOf: string -> Option<string>)
    requires originOf(ToJsString(c.baseUrl)) != Some(origin)
    ensures Deliveries(n, c, origin, data, originOf) == []
  {
  }

  /** The target origins `postMessage` accepts: `*` (any), `/` (the
      sender's own), or a URL that parses; any other string makes it throw
      a `SyntaxError`. */
  predicate TargetOriginAccepted(target: string, originOf: string -> Option<string>)
  {
    target == "*" || target == "/" || originOf(target).Some?
  }

  /** `handleResize` on the page: the container's height becomes `500px`
      when it is narrower than 768 pixels. */
  function Resized(elements: map<string, Element>, key: string, width: int): (r: map<string, Element>)
    ensures r.Keys == elements.Keys
    ensures forall k :: k in elements && k != key ==> r[k] == elements[k]
    ensures key in elements ==> r[key].children == elements[key].children
  {
    if key in elements && width < 768 then
      elements[key := Element(elements[key].children, elements[key].style["height" := Str("500px")])]
    else elements
  }

  /** Resizing twice at the same width is resizing once, so the number of
      resize listeners left on the window does not matter. */
  lemma ResizedIdempotent(elements: map<string, Element>, key: string, width: int)
    ensures Resized(Resized(elements, key, width), key, width) == Resized(elements, key, width)
    ensures elements.Keys == Resized(elements, key, width).Keys
    ensures forall k :: k in elements && (k != key || width >= 768) ==> Resized(elements, key, width)[k] == elements[k]
  {
    if key in elements && width < 768 {
      var once := Resized(elements, key, width);
      var style := elements[key].style["height" := Str("500px")];
      assert once[key].style == style;
      assert style["height" := Str("500px")] == style;
    }
  }

  /** `iframe.remove()` as seen from the element holding it: every other
      child stays, as often as it was there, and nothing is added. */
  function WithoutFrame(children: seq<Node>, f: Iframe): (r: seq<Node>)
    ensures multiset(r) == multiset(children)[Frame(f) := 0]
    ensures Frame(f) !in children ==> r == children
  {
    if children == [] then []
    else if children[0] == Frame(f) then
      assert children == [children[0]] + children[1..];
      WithoutFrame(children[1..], f)
    else
      assert children == [children[0]] + children[1..];
      [children[0]] + WithoutFrame(children[1..], f)
  }

  /** Every iframe among `children` was created before the `bound`-th. */
  ghost predicate FramesBefore(children: seq<Node>, bound: nat)
  {
    forall i :: 0 <= i < |children| && children[i].Frame? ==> children[i].iframe.serial < bound
  }

  /** An iframe created after every child is none of them, and once
      appended it is the latest. */
  lemma AppendedFrameIsNew(children: seq<Node>, f: Iframe)
    requires FramesBefore(children, f.serial)
    ensures Frame(f) !in children
    ensures FramesBefore(children + [Frame(f)], f.serial + 1)
  {
  }

  /** Removing an iframe keeps no child that was not there. */
  lemma WithoutFrameKeepsFrames(children: seq<Node>, f: Iframe, bound: nat)
    requires FramesBefore(children, bound)
    ensures FramesBefore(WithoutFrame(children, f), bound)
  {
    var r := WithoutFrame(children, f);
    forall i | 0 <= i < |r| && r[i].Frame?
      ensures r[i].iframe.serial < bound
    {
      assert multiset(r)[r[i]] > 0;
      assert r[i] in multiset(children);
      var j :| 0 <= j < |children| && children[j] == r[i];
    }
  }

  /** The page. `elements` holds every element by id, also one that has
      been taken off the page, since a script may still hold a reference to
      it; `attached` holds the ids of the elements on the page, the only
      ones `getElementById` finds; `created` counts the iframes created. */
  class Document {
    var elements: map<string, Element>
    var attached: set<string>
    var created: nat

    /** Every element on the page is known, and every iframe was created
        before: a new serial is never found in any element. */
    ghost predicate Valid()
      reads this
    {
      && attached <= elements.Keys
      && forall k :: k in elements ==> FramesBefore(elements[k].children, created)
    }

    /** A page as the server delivered it, holding no iframe of an embed. */
    constructor(elements: map<string, Element>)
      requires forall k, i :: k in elements && 0 <= i < |elements[k].children| ==> !elements[k].children[i].Frame?
      ensures Valid() && this.elements == elements && attached == elements.Keys && created == 0
    {
      this.elements := elements;
      attached := elements.Keys;
      created := 0;
    }

    /** Some other script takes the element `id` off the page
        (`element.remove()`); references to it keep working. */
    method RemoveElement(id: string)
      requires Valid()
      modifies this`attached
      ensures Valid()
      ensures attached == old(attached) - {id} && id !in attached
    {
      attached := attached - {id};
    }
  }

  class BioTokenEmbed {
    const options: Config
    const document: Document
    var iframe: Option<Iframe>
    /** The id under which `getElementById` found the container. */
    var container: Option<string>
    /** How many `message` and `resize` listeners this embed has added to
        the window (one of each per successful `embed`). */
    var messageListeners: nat
    var resizeListeners: nat
    /** The callbacks invoked so far and the messages posted so far. */
    ghost var calls: seq<Invocation>
    ghost var posts: seq<Post>

    /** `getElementById` converts its argument to a string. */
    function Key(): string
    {
      ToJsString(options.containerId)
    }

    /** The container is the element of the configured id, and this
        embed's iframes were only ever appended to that element. */
    ghost predicate Valid()
      reads this, document
    {
      && document.Valid()
      && (container.Some? ==> container.value == Key())
      && (container.Some? || iframe.Some? ==> Key() in document.elements)
      && (iframe.Some? ==> iframe.value.serial < document.created)
      && resizeListeners == messageListeners
    }

    /** The embed's iframe is on the page, so that it has a content window:
        it is a child of the container, and the container is on the page. */
    ghost predicate Attached()
      reads this, document
    {
      iframe.Some? && Key() in document.attached && Key() in document.elements
      && Frame(iframe.value) in document.elements[Key()].children
    }

    /** `new BioTokenEmbed(options)`: the options are resolved, both fields
        start out null and no listener is registered yet. */
    constructor(given: Options, document: Document)
      requires document.Valid()
      ensures Valid()
      ensures options == Resolve(given) && this.document == document
      ensures iframe == None && container == None
      ensures messageListeners == 0 && resizeListeners == 0 && calls == [] && posts == []
    {
      options := Resolve(given);
      this.document := document;
      iframe := None;
      container := None;
      messageListeners := 0;
      resizeListeners := 0;
      calls := [];
      posts := [];
    }

    /** `embed()`. Without an element of the configured id on the page it
        forgets the container, keeps the iframe it may hold from an earlier
        call, creates nothing, calls no callback and returns false.
        Otherwise it styles the container, appends one new iframe to it,
        registers the listeners and returns true; a second call appends a
        second iframe. */
    method Embed() returns (ok: bool)
      requires Valid()
      modifies this, document
      ensures Valid()
      ensures ok <==> Key() in old(document.attached)
      ensures calls == old(calls) && posts == old(posts) && document.attached == old(document.attached)
      ensures !ok ==> && container == None && iframe == old(iframe)
                      && document.elements == old(document.elements) && document.created == old(document.created)
                      && messageListeners == old(messageListeners) && resizeListeners == old(resizeListeners)
      ensures ok ==> && container == Some(Key())
                     && iframe == Some(NewIframe(options, old(document.created)))
                     && Frame(iframe.value) !in old(document.elements[Key()].children)
                     && document.created == old(document.created) + 1
                     && document.elements == old(document.elements)[Key() := Embedded(old(document.elements[Key()]), iframe.value, options)]
                     && messageListeners == old(messageListeners) + 1 && resizeListeners == old(resizeListeners) + 1
      ensures ok ==> Attached()
    {
      var key := Key();
      if key !in document.attached {
        container := None;
        return false;
      }
      container := Some(key);
      var frame := NewIframe(options, document.created);
      document.created := document.created + 1;
      iframe := Some(frame);
      var e := document.elements[key];
      AppendedFrameIsNew(e.children, frame);
      document.elements := document.elements[key := Embedded(e, frame, options)];
      messageListeners := messageListeners + 1;
      resizeListeners := resizeListeners + 1;
      ok := true;
    }

    /** `showErrorMessage()`: the container's children are replaced by the
        error panel alone; its style stays. */
    method ShowErrorMessage()
      requires Valid() && container.Some?
      modifies document`elements
      ensures Valid()
      ensures document.elements == old(document.elements)[Key() := Element([ErrorPanel], old(document.elements[Key()].style))]
      ensures !Attached()
    {
      var key := container.value;
      document.elements := document.elements[key := Element([ErrorPanel], document.elements[key].style)];
    }

    /** The `load` listener of an iframe of this embed: `onLoad` is called
        with the iframe the embed holds at that moment. The listener only
        tests that `onLoad` is truthy; a truthy value that is no function
        throws a `TypeError` and nothing is called. */
    method IframeLoaded()
      requires Valid() && messageListeners > 0
      modifies this`calls
      ensures calls == old(calls) + if options.onLoad.Function? then [Invocation(options.onLoad, FrameArg(iframe))] else []
    {
      if options.onLoad.Function? {
        calls := calls + [Invocation(options.onLoad, FrameArg(iframe))];
      }
    }

    /** The `error` listener of an iframe of this embed: the error panel is
        shown first, then `onError`, when it is a function, is called with
        the event, at a moment when the panel is the container's only child.
        After a failed `embed` the container is null, `showErrorMessage`
        throws, and the listener stops before anything happens. */
    method IframeError()
      requires Valid() && messageListeners > 0
      modifies this`calls, document`elements
      ensures Valid()
      ensures container.Some? ==>
        && document.elements == old(document.elements)[Key() := Element([ErrorPanel], old(document.elements[Key()].style))]
        && calls == old(calls) + if options.onError.Function? then [Invocation(options.onError, ErrorEvent([ErrorPanel]))] else []
      ensures container.None? ==> document.elements == old(document.elements) && calls == old(calls)
    {
      if container.None? {
        return;
      }
      ShowErrorMessage();
      if options.onError.Function? {
        calls := calls + [Invocation(options.onError, ErrorEvent(document.elements[container.value].children))];
      }
    }

    /** A window `message` event, seen by every message listener this embed
        has registered: each passes the event's data to `onMessage` when
        the origin is exactly the base URL's. */
    method WindowMessage(origin: string, data: JsValue, originOf: string -> Option<string>)
      requires Valid()
      modifies this`calls
      ensures calls == old(calls) + Deliveries(messageListeners, options, origin, data, originOf)
    {
      var n := 0;
      while n < messageListeners
        invariant n <= messageListeners
        invariant calls == old(calls) + Deliveries(n, options, origin, data, originOf)
      {
        if originOf(ToJsString(options.baseUrl)) == Some(origin) && options.onMessage.Function? {
          calls := calls + [Invocation(options.onMessage, Data(data))];
        }
        n := n + 1;
      }
    }

    /** `handleResize()`, with the container's `offsetWidth` as input: only
        with both an iframe and a container, and only below 768 pixels,
        the container's height becomes `500px`. */
    method HandleResize(containerWidth: int)
      requires Valid()
      modifies document`elements
      ensures Valid()
      ensures document.elements == if iframe.Some? && container.Some? then Resized(old(document.elements), Key(), containerWidth) else old(document.elements)
    {
      if iframe.Some? && container.Some? {
        var key := container.value;
        if containerWidth < 768 {
          var e := document.elements[key];
          document.elements := document.elements[key := Element(e.children, e.style["height" := Str("500px")])];
        }
      }
    }

    /** A window `resize` event, seen by every resize listener of this
        embed: the page ends up resized once, or not at all without a
        listener. */
    method WindowResize(containerWidth: int)
      requires Valid()
      modifies document`elements
      ensures Valid()
      ensures document.elements ==
        if resizeListeners > 0 && iframe.Some? && container.Some? then Resized(old(document.elements), Key(), containerWidth)
        else old(document.elements)
    {
      var n := 0;
      while n < resizeListeners
        invariant n <= resizeListeners && Valid()
        invariant document.elements ==
          if n > 0 && iframe.Some? && container.Some? then Resized(old(document.elements), Key(), containerWidth)
          else old(document.elements)
      {
        ResizedIdempotent(old(document.elements), Key(), containerWidth);
        HandleResize(containerWidth);
        n := n + 1;
      }
    }

    /** `destroy()`: the iframe is removed and forgotten and the container
        emptied. Nothing requires an embed to exist, and a second call
        finds nothing left to do. */
    method Destroy()
      requires Valid()
      modifies this`iframe, document`elements
      ensures Valid()
      ensures iframe == None && !Attached()
      ensures document.elements ==
        if container.Some? then old(document.elements)[Key() := Element([], old(document.elements[Key()].style))]
        else if old(iframe).Some? then
          old(document.elements)[Key() := Element(WithoutFrame(old(document.elements[Key()].children), old(iframe).value), old(document.elements[Key()].style))]
        else old(document.elements)
    {
      if iframe.Some? {
        var key := Key();
        var e := document.elements[key];
        WithoutFrameKeepsFrames(e.children, iframe.value, document.created);
        document.elements := document.elements[key := Element(WithoutFrame(e.children, iframe.value), e.style)];
        iframe := None;
      }
      if container.Some? {
        var key := container.value;
        document.elements := document.elements[key := Element([], document.elements[key].style)];
      }
    }

    /** `sendMessage(message)`: posted to the iframe with the base URL as
        the target origin, only while the embed's iframe is on the page;
        otherwise nothing happens. `postMessage` throws instead of posting
        when the target origin is not accepted or the message is a function,
        which cannot be cloned. */
    method SendMessage(message: JsValue, originOf: string -> Option<string>)
      requires Valid()
      modifies this`posts
      ensures posts == old(posts) +
        if Attached() && TargetOriginAccepted(ToJsString(options.baseUrl), originOf) && !message.Function?
        then [Post(iframe.value.serial, message, options.baseUrl)] else []
    {
      if iframe.Some? && Key() in document.attached && Key() in document.elements
        && Frame(iframe.value) in document.elements[Key()].children
        && TargetOriginAccepted(ToJsString(options.baseUrl), originOf) && !message.Function?
      {
        posts := posts + [Post(iframe.value.serial, message, options.baseUrl)];
      }
    }
  }
}
