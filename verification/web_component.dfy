/** The `<nc-player>` custom element: its observed attributes, the typed
    properties behind them with their setter checks, the translation of an
    attribute change into a property assignment, and the list of clean-up
    callbacks run when the element leaves the document. */
module WebComponent {
  import opened Js
  import opened AttributeParse

  /** The values a property of the element can hold. */
  datatype JsValue =
    | Undefined
    | Null
    | Str(s: string)
    | Num(n: Number)
    | Bool(b: bool)
    | SourceList(sources: seq<VideoSource>)
    | TrackList(tracks: seq<SubtitleTrack>)

  /** The seventeen observed attributes, one property each. */
  datatype Prop =
    | Autoplay | ControlsTimeout | Height | Loop | Muted | PersistentVolume
    | Poster | Preload | Preview | PreviewHeight | PreviewUpdateThrottle
    | PreviewWidth | Styles | SwipeControlRange | Width | SourcesProp | Subtitles

  /** The attribute name of a property, as listed in `observedAttributes`. */
  function AttributeName(p: Prop): string {
    match p
    case Autoplay => "autoplay"
    case ControlsTimeout => "controls-timeout"
    case Height => "height"
    case Loop => "loop"
    case Muted => "muted"
    case PersistentVolume => "persistent-volume"
    case Poster => "poster"
    case Preload => "preload"
    case Preview => "preview"
    case PreviewHeight => "preview-height"
    case PreviewUpdateThrottle => "preview-update-throttle"
    case PreviewWidth => "preview-width"
    case Styles => "styles"
    case SwipeControlRange => "swipe-control-range"
    case Width => "width"
    case SourcesProp => "sources"
    case Subtitles => "subtitles"
  }

  /** The property an attribute name selects in `attributeChangedCallback`. */
  function PropOf(name: string): Option<Prop> {
    match name
    case "autoplay" => Some(Autoplay)
    case "controls-timeout" => Some(ControlsTimeout)
    case "height" => Some(Height)
    case "loop" => Some(Loop)
    case "muted" => Some(Muted)
    case "persistent-volume" => Some(PersistentVolume)
    case "poster" => Some(Poster)
    case "preload" => Some(Preload)
    case "preview" => Some(Preview)
    case "preview-height" => Some(PreviewHeight)
    case "preview-update-throttle" => Some(PreviewUpdateThrottle)
    case "preview-width" => Some(PreviewWidth)
    case "styles" => Some(Styles)
    case "swipe-control-range" => Some(SwipeControlRange)
    case "width" => Some(Width)
    case "sources" => Some(SourcesProp)
    case "subtitles" => Some(Subtitles)
    case _ => None
  }

  /** Every property has its own attribute, and an attribute name selects the
      property it names and nothing else. */
  lemma AttributeNames(p: Prop, name: string)
    ensures PropOf(AttributeName(p)) == Some(p)
    ensures PropOf(name) == Some(p) ==> AttributeName(p) == name
  {
    NameSelectsProp(p);
    if PropOf(name) == Some(p) {
      PropHasName(name);
    }
  }

  lemma NameSelectsProp(p: Prop)
    ensures PropOf(AttributeName(p)) == Some(p)
  {
    match p
    case Autoplay =>
    case ControlsTimeout =>
    case Height =>
    case Loop =>
    case Muted =>
    case PersistentVolume =>
    case Poster =>
    case Preload =>
    case Preview =>
    case PreviewHeight =>
    case PreviewUpdateThrottle =>
    case PreviewWidth =>
    case Styles =>
    case SwipeControlRange =>
    case Width =>
    case SourcesProp =>
    case Subtitles =>
  }

  lemma PropHasName(name: string)
    ensures PropOf(name).Some? ==> AttributeName(PropOf(name).value) == name
  {
  }

  // ---------------------------------------------------------------------------
  // Setter checks

  /** What a property's setter accepts. */
  datatype Kind = StringKind | NumberKind | BooleanKind | StylesKind | AnyKind

  function KindOf(p: Prop): Kind {
    match p
    case Autoplay | Loop | Muted | PersistentVolume => BooleanKind
    case ControlsTimeout | Height | PreviewHeight | PreviewUpdateThrottle
      | PreviewWidth | SwipeControlRange | Width => NumberKind
    case Poster | Preload | Preview => StringKind
    case Styles => StylesKind
    case SourcesProp | Subtitles => AnyKind
  }

  /** The dynamic type test `typeof value === ...` of each kind. */
  predicate HasType(k: Kind, v: JsValue) {
    match k
    case StringKind => v.Str?
    case NumberKind => v.Num?
    case BooleanKind => v.Bool?
    case StylesKind => v.Str? || v.Bool?
    case AnyKind => true
  }

  /** A setter accepts `undefined` or a value of its type; the `styles`
      setter alone also refuses `undefined`. */
  predicate Accepts(p: Prop, v: JsValue) {
    HasType(KindOf(p), v) || (v.Undefined? && KindOf(p) != StylesKind)
  }

  function MustBe(name: string, what: string): string {
    "Attribute \"" + name + "\" must be " + what
  }

  /** `validateString`: `undefined` passes, any other non-string throws. */
  function ValidateString(name: string, v: JsValue): (r: Result<()>)
    ensures r.Ok? <==> v.Undefined? || v.Str?
    ensures r.Err? ==> r.message == MustBe(name, "a string")
  {
    if v.Undefined? then Ok(())
    else if !v.Str? then Err(MustBe(name, "a string"))
    else Ok(())
  }

  /** `validateNumber`: `undefined` passes, any other non-number throws. */
  function ValidateNumber(name: string, v: JsValue): (r: Result<()>)
    ensures r.Ok? <==> v.Undefined? || v.Num?
    ensures r.Err? ==> r.message == MustBe(name, "a number")
  {
    if v.Undefined? then Ok(())
    else if !v.Num? then Err(MustBe(name, "a number"))
    else Ok(())
  }

  /** `validateBoolean`: `undefined` passes, any other non-boolean throws. */
  function ValidateBoolean(name: string, v: JsValue): (r: Result<()>)
    ensures r.Ok? <==> v.Undefined? || v.Bool?
    ensures r.Err? ==> r.message == MustBe(name, "a boolean")
  {
    if v.Undefined? then Ok(())
    else if !v.Bool? then Err(MustBe(name, "a boolean"))
    else Ok(())
  }

  /** The check in the `styles` setter: a string or a boolean, never `undefined`. */
  function ValidateStyles(v: JsValue): Result<()> {
    if !v.Str? && !v.Bool? then Err(MustBe("styles", "either a string or a boolean"))
    else Ok(())
  }

  /** The check a property's setter runs before storing the value. */
  function Validate(p: Prop, v: JsValue): Result<()> {
    match KindOf(p)
    case StringKind => ValidateString(AttributeName(p), v)
    case NumberKind => ValidateNumber(AttributeName(p), v)
    case BooleanKind => ValidateBoolean(AttributeName(p), v)
    case StylesKind => ValidateStyles(v)
    case AnyKind => Ok(())
  }

  /** The message a refused value is thrown with. */
  function ErrorMessage(p: Prop): string {
    MustBe(AttributeName(p), match KindOf(p)
      case StringKind => "a string"
      case NumberKind => "a number"
      case BooleanKind => "a boolean"
      case _ => "either a string or a boolean")
  }

  /** The checks throw exactly on the values a setter does not accept, with
      the message naming the attribute and the expected type. */
  lemma ValidateAccepts(p: Prop, v: JsValue)
    ensures Validate(p, v).Ok? <==> Accepts(p, v)
    ensures Validate(p, v).Err? ==> Validate(p, v).message == ErrorMessage(p) && KindOf(p) != AnyKind
  {
    if KindOf(p) == StylesKind {
      assert p == Styles && AttributeName(p) == "styles";
    }
  }

  // ---------------------------------------------------------------------------
  // The element

  /** The element's property cells and its pending clean-up callbacks, each
      callback named by an identifier. */
  datatype Element = Element(values: map<Prop, JsValue>, cleanups: seq<nat>) {
    /** A property's getter: the value last stored, `undefined` at first. */
    function Get(p: Prop): JsValue {
      if p in values then values[p] else Undefined
    }
  }

  const Initial: Element := Element(map[], [])

  /** A property's setter: the check, then the store. */
  function Set(e: Element, p: Prop, v: JsValue): (r: Result<Element>)
    ensures r.Ok? <==> Accepts(p, v)
    ensures r.Err? ==> r.message == ErrorMessage(p)
    ensures r.Ok? ==> r.value.Get(p) == v && r.value.cleanups == e.cleanups
    ensures r.Ok? ==> forall q :: q != p ==> r.value.Get(q) == e.Get(q)
  {
    ValidateAccepts(p, v);
    match Validate(p, v)
    case Err(m) => Err(m)
    case Ok(_) => Ok(e.(values := e.values[p := v]))
  }

  // ---------------------------------------------------------------------------
  // Attribute changes

  datatype ParseType = AsString | AsNumber | AsBoolean

  /** `parse(value, type)`. `Number(value)` is the parameter `toNumber`. */
  function Parse(value: Option<string>, t: ParseType, toNumber: string -> Number): (r: JsValue)
    ensures value.None? <==> r.Undefined?
  {
    match value
    case None => Undefined
    case Some(s) =>
      match t
      case AsNumber => Num(toNumber(s))
      case AsBoolean => Bool(true)
      case AsString => Str(s)
  }

  /** A boolean attribute is true whenever it is present, whatever its text,
      `"false"` and the empty string included. */
  lemma ParsePresence(s: string, toNumber: string -> Number)
    ensures Parse(Some(s), AsBoolean, toNumber) == Bool(true)
    ensures Parse(Some("false"), AsBoolean, toNumber) == Bool(true)
    ensures Parse(Some(""), AsBoolean, toNumber) == Bool(true)
  {
  }

  /** The `styles` attribute: removed is `undefined`, `"none"` is `false`, any
      other text is kept as it is. */
  function StylesValue(value: Option<string>): (r: JsValue)
    ensures value.None? <==> r.Undefined?
  {
    match value
    case None => Undefined
    case Some(s) => if s == "none" then Bool(false) else Str(s)
  }

  function ParseTypeOf(k: Kind): ParseType {
    match k
    case NumberKind => AsNumber
    case BooleanKind => AsBoolean
    case _ => AsString
  }

  /** The value `attributeChangedCallback` hands to a property's setter;
      `sources` is read by `parseSources` as it is written. */
  function AttributeValue(p: Prop, value: Option<string>, toNumber: string -> Number): JsValue {
    match p
    case Styles => StylesValue(value)
    case SourcesProp =>
      (match ParseSourcesAsWritten(value)
       case None => Undefined
       case Some(Url(u)) => Str(u)
       case Some(Sources(list)) => SourceList(list))
    case Subtitles =>
      (match ParseSubtitles(value)
       case None => Undefined
       case Some(ts) => TrackList(ts))
    case _ => Parse(value, ParseTypeOf(KindOf(p)), toNumber)
  }

  /** `attributeChangedCallback(name, _, newValue)`: an unobserved name
      changes nothing; an observed one goes through its property's setter. */
  function AttributeChanged(e: Element, name: string, value: Option<string>, toNumber: string -> Number): Result<Element> {
    match PropOf(name)
    case None => Ok(e)
    case Some(p) => Set(e, p, AttributeValue(p, value, toNumber))
  }

  /** The parsed text of an attribute always passes its setter's check,
      except a removed `styles`, which reaches the setter as `undefined`. */
  lemma AttributeValueAccepted(p: Prop, value: Option<string>, toNumber: string -> Number)
    ensures Accepts(p, AttributeValue(p, value, toNumber)) <==> !(p == Styles && value.None?)
  {
  }

  /** An attribute change throws only when `styles` is removed, with the
      `styles` setter's message; otherwise the property of that attribute
      takes the parsed value and every other property keeps its own. */
  lemma AttributeChangedEffect(e: Element, name: string, value: Option<string>, toNumber: string -> Number)
    ensures var r := AttributeChanged(e, name, value, toNumber);
      && (r.Err? <==> name == "styles" && value.None?)
      && (r.Err? ==> r.message == MustBe("styles", "either a string or a boolean"))
      && (r.Ok? && PropOf(name).Some? ==>
            r.value.Get(PropOf(name).value) == AttributeValue(PropOf(name).value, value, toNumber))
      && (r.Ok? ==> r.value.cleanups == e.cleanups)
      && (r.Ok? ==> forall q :: PropOf(name) != Some(q) ==> r.value.Get(q) == e.Get(q))
  {
    match PropOf(name)
    case None =>
    case Some(p) =>
      AttributeNames(p, name);
      SetFromAttribute(e, p, value, toNumber);
      assert p == Styles <==> name == "styles";
  }

  /** The setter of `p` given the parsed attribute text. */
  lemma SetFromAttribute(e: Element, p: Prop, value: Option<string>, toNumber: string -> Number)
    ensures var r := Set(e, p, AttributeValue(p, value, toNumber));
      && (r.Err? <==> p == Styles && value.None?)
      && (r.Err? ==> r.message == MustBe("styles", "either a string or a boolean"))
      && (r.Ok? ==> r.value.Get(p) == AttributeValue(p, value, toNumber) && r.value.cleanups == e.cleanups)
      && (r.Ok? ==> forall q :: q != p ==> r.value.Get(q) == e.Get(q))
  {
    AttributeValueAccepted(p, value, toNumber);
    if p == Styles {
      assert ErrorMessage(p) == MustBe("styles", "either a string or a boolean");
    }
  }

  /** Setting the `styles` attribute to `"none"` stores `false`, any other
      text stores that text. */
  lemma StylesAttribute(e: Element, s: string, toNumber: string -> Number)
    ensures var r := AttributeChanged(e, "styles", Some(s), toNumber);
      r.Ok? && r.value.Get(Styles) == (if s == "none" then Bool(false) else Str(s))
  {
    AttributeChangedEffect(e, "styles", Some(s), toNumber);
  }

  /** A `sources` attribute listing two or more sources in the documented
      syntax gives the element those sources with their types and labels
      empty, and changes nothing else. */
  lemma SourcesAttributeKeepsOnlySrc(e: Element, vs: seq<VideoSource>, toNumber: string -> Number)
    requires |vs| >= 2 && forall k :: 0 <= k < |vs| ==> PlainSource(vs[k])
    ensures var r := AttributeChanged(e, "sources", Some(RenderSources(vs)), toNumber);
      && r.Ok? && r.value.Get(SourcesProp) == SourceList(SrcOnly(vs))
      && forall q :: q != SourcesProp ==> r.value.Get(q) == e.Get(q)
  {
    AsWrittenSourcesKeepOnlySrc(vs);
    SourcesChanged(e, RenderSources(vs), SrcOnly(vs), toNumber);
  }

  /** The element after a `sources` attribute whose text parses to a list. */
  lemma SourcesChanged(e: Element, text: string, list: seq<VideoSource>, toNumber: string -> Number)
    requires ParseSourcesAsWritten(Some(text)) == Some(Sources(list))
    ensures var r := AttributeChanged(e, "sources", Some(text), toNumber);
      && r.Ok? && r.value.Get(SourcesProp) == SourceList(list)
      && forall q :: q != SourcesProp ==> r.value.Get(q) == e.Get(q)
  {
    AttributeNames(SourcesProp, "sources");
    AttributeChangedEffect(e, "sources", Some(text), toNumber);
  }

  // ---------------------------------------------------------------------------
  // Clean-up on disconnection

  /** The player's `ondismount(fn)`: `fn` joins the end of the list. */
  function OnDismount(e: Element, fn: nat): (r: Element)
    ensures r.values == e.values
    ensures |r.cleanups| == |e.cleanups| + 1
    ensures r.cleanups[..|e.cleanups|] == e.cleanups && r.cleanups[|e.cleanups|..] == [fn]
  {
    e.(cleanups := e.cleanups + [fn])
  }

  /** Registering several callbacks in turn. */
  function OnDismountAll(e: Element, fns: seq<nat>): Element
    decreases |fns|
  {
    if fns == [] then e else OnDismountAll(OnDismount(e, fns[0]), fns[1..])
  }

  lemma {:induction false} OnDismountAllAppends(e: Element, fns: seq<nat>)
    ensures OnDismountAll(e, fns) == e.(cleanups := e.cleanups + fns)
    decreases |fns|
  {
    if fns != [] {
      OnDismountAllAppends(OnDismount(e, fns[0]), fns[1..]);
      assert e.cleanups + [fns[0]] + fns[1..] == e.cleanups + fns;
    }
  }

  /** `disconnectedCallback`: empties the list and calls what it held, first
      registered first; `ran` is the order of the calls. */
  method Disconnect(e: Element) returns (after: Element, ran: seq<nat>)
    ensures ran == e.cleanups
    ensures after.cleanups == [] && after.values == e.values
  {
    var taken := e.cleanups;
    after := e.(cleanups := []);
    ran := [];
    var i := 0;
    while i < |taken|
      invariant 0 <= i <= |taken|
      invariant ran == taken[..i]
    {
      ran := ran + [taken[i]];
      i := i + 1;
    }
    assert taken[..|taken|] == taken;
  }

  /** Every callback registered since the element was created runs exactly
      once, in registration order, and a second disconnection runs nothing. */
  method DisconnectTwice(fns: seq<nat>) returns (first: seq<nat>, second: seq<nat>)
    ensures first == fns && second == []
  {
    OnDismountAllAppends(Initial, fns);
    var e := OnDismountAll(Initial, fns);
    var after;
    after, first := Disconnect(e);
    after, second := Disconnect(after);
  }
}
