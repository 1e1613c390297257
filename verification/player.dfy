/** The player component's own logic: the attributes it derives for the
    `<video>` element, the stylesheet it renders, and the seek handler it
    gives the seek track. */
module Player {
  import opened Js
  import opened WebComponent
  import opened Slider

  /** `src`: the sources value when it is a plain URL string, otherwise no
      `src` attribute (the list of `<source>` children is used instead). */
  function VideoSrc(sources: JsValue): (r: Option<string>)
    ensures r.Some? <==> sources.Str?
    ensures r.Some? ==> r.value == sources.s
  {
    match sources
    case Str(s) => Some(s)
    case _ => None
  }

  /** `width` and `height`: the property while not fullscreen, nothing while
      fullscreen. */
  function Dimension(prop: JsValue, fullscreen: bool): (r: JsValue)
    ensures fullscreen ==> r.Undefined?
    ensures !fullscreen ==> r == prop
  {
    if !fullscreen then prop else Undefined
  }

  /** The `<style>` element rendered for the `styles` property. */
  datatype Style = NoStyle | Custom(css: string) | DefaultStyle

  /** `false` renders nothing, a string renders that stylesheet, anything
      else (`true`, unset) renders the default stylesheet. */
  function StyleFor(styles: JsValue): (r: Style)
    ensures r == NoStyle <==> styles == Bool(false)
    ensures r.Custom? <==> styles.Str?
    ensures r.Custom? ==> r.css == styles.s
  {
    if styles == Bool(false) then NoStyle
    else if styles.Str? then Custom(styles.s)
    else DefaultStyle
  }

  /** The parts of the `<video>` element `onSeek` touches, and the player's
      `progress` signal. */
  datatype Seekable = Seekable(duration: Number, currentTime: Number, progress: Number)

  /** The `TypeError` a `double` attribute such as `currentTime` raises when
      it is assigned a non-finite number (the Web IDL conversion to
      `double`). */
  const NonFiniteTime: string := "The provided double value is non-finite."

  /** `onSeek(newProgress)`: nothing happens until the duration is known;
      then the video jumps to that fraction of its duration and the progress
      signal takes the fraction. A fraction whose time is not finite (NaN,
      or any fraction of an infinite duration) throws at the `currentTime`
      assignment, before the progress is dispatched. */
  function OnSeek(v: Seekable, p: Number): (r: Result<Seekable>)
    ensures v.duration.NaN? ==> r == Ok(v)
    ensures r.Err? <==> !v.duration.NaN? && !Mul(v.duration, p).Fin?
    ensures r.Err? ==> r.message == NonFiniteTime
    ensures r.Ok? && !v.duration.NaN? ==> r.value == Seekable(v.duration, Mul(v.duration, p), p)
  {
    if v.duration.NaN? then Ok(v)
    else
      var newTime := Mul(v.duration, p);
      if !newTime.Fin? then Err(NonFiniteTime)
      else Ok(v.(currentTime := newTime, progress := p))
  }

  /** A seek that throws leaves the video and the progress as they were; the
      drag goes on with the next pointer event. */
  function Seeked(v: Seekable, p: Number): Seekable {
    match OnSeek(v, p)
    case Ok(w) => w
    case Err(_) => v
  }

  /** A seek to `p` reaches a video of duration `d`. */
  predicate Lands(d: Number, p: Number) {
    !d.NaN? && Mul(d, p).Fin?
  }

  /** The index of the last fraction of `ps` that reaches the video, if
      any. */
  function LastLanding(d: Number, ps: seq<Number>): (k: Option<nat>)
    ensures k.Some? ==> k.value < |ps| && Lands(d, ps[k.value])
    ensures k.Some? ==> forall j :: k.value < j < |ps| ==> !Lands(d, ps[j])
    ensures k.None? ==> forall j :: 0 <= j < |ps| ==> !Lands(d, ps[j])
  {
    if ps == [] then None
    else if Lands(d, ps[|ps| - 1]) then Some(|ps| - 1)
    else LastLanding(d, ps[..|ps| - 1])
  }

  /** The seeks of a drag, one after another: the video ends at the last
      fraction that reached it, and is untouched when none did. */
  function SeekAll(v: Seekable, ps: seq<Number>): (r: Seekable)
    ensures r.duration == v.duration
    ensures LastLanding(v.duration, ps).None? ==> r == v
    ensures LastLanding(v.duration, ps).Some? ==>
      var p := ps[LastLanding(v.duration, ps).value];
      r.progress == p && r.currentTime == Mul(v.duration, p)
    decreases |ps|
  {
    if ps == [] then v else Seeked(SeekAll(v, ps[..|ps| - 1]), ps[|ps| - 1])
  }

  // ---------------------------------------------------------------------------
  // Properties

  /** Leaving fullscreen gives the video its width and height back. */
  lemma DimensionRestored(prop: JsValue)
    ensures Dimension(Dimension(prop, false), false) == prop
    ensures Dimension(prop, true) != prop <==> !prop.Undefined?
  {
  }

  /** The `styles` attribute in the page decides the stylesheet: `"none"`
      renders nothing, any other text renders itself, and a player whose
      `styles` was never set renders the default. */
  lemma StylesAttributeRendered(e: Element, s: string, toNumber: string -> Number)
    ensures var r := AttributeChanged(e, "styles", Some(s), toNumber);
      r.Ok? && StyleFor(r.value.Get(Styles)) == (if s == "none" then NoStyle else Custom(s))
    ensures StyleFor(Initial.Get(Styles)) == DefaultStyle
  {
    StylesAttribute(e, s, toNumber);
  }

  /** A seek sent by the seek track on a video of known, finite duration `d`
      lands inside the video: at a time between 0 and `d`, with the progress
      signal between 0 and 1. A seek with a NaN value (the slider's current
      value was not finite) throws, and the video and the progress stay as
      they were. */
  lemma SeekLandsInVideo(d: real, time: Number, progress: Number, current: Number, percent: Number)
    requires d >= 0.0
    ensures var p := SliderValue(current, percent);
      var v := Seekable(Fin(d), time, progress);
      var r := OnSeek(v, p);
      && (!p.NaN? ==> r.Ok? && r.value.currentTime.Fin? && 0.0 <= r.value.currentTime.v <= d)
      && (!p.NaN? ==> r.Ok? && r.value.progress.Fin? && 0.0 <= r.value.progress.v <= 1.0)
      && (p.NaN? ==> r.Err? && Seeked(v, p) == v)
  {
    var p := SliderValue(current, percent);
    SliderValueRange(current, percent);
    if !p.NaN? {
      ScaledInside(d, p);
    }
  }

  /** After a seek that reaches the video, the time is the progress times the
      duration. */
  lemma SeekKeepsTimeInStep(v: Seekable, p: Number)
    requires OnSeek(v, p).Ok? && !v.duration.NaN?
    ensures var w := OnSeek(v, p).value;
      w.currentTime == Mul(w.duration, w.progress) && w.currentTime.Fin?
  {
  }

  /** On a video of infinite duration (a live stream) every seek throws. */
  lemma SeekOnEndlessVideo(v: Seekable, p: Number)
    requires v.duration.Inf?
    ensures OnSeek(v, p).Err?
    ensures Seeked(v, p) == v
  {
  }

  /** A fraction in [0, 1] of a duration `d` is a time in [0, d]. */
  lemma ScaledInside(d: real, p: Number)
    requires d >= 0.0 && p.Fin? && 0.0 <= p.v <= 1.0
    ensures Mul(Fin(d), p).Fin? && 0.0 <= Mul(Fin(d), p).v <= d
  {
    var x := p.v;
    assert Mul(Fin(d), p) == Fin(d * x);
    assert d * x <= d * 1.0;
  }

  /** Before the video's metadata is loaded no seek has any effect. */
  lemma {:induction false} SeekBeforeMetadata(time: Number, progress: Number, ps: seq<Number>)
    ensures SeekAll(Seekable(NaN, time, progress), ps) == Seekable(NaN, time, progress)
    decreases |ps|
  {
    if ps != [] {
      SeekBeforeMetadata(time, progress, ps[..|ps| - 1]);
    }
  }
}
