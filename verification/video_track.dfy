/** `VideoTrack`, beyond the drag it shares with the volume slider: the
    hover preview — whether there is one and its size, where it is placed
    along the track, and which frame it shows. */
module VideoTrack {
  import opened Js
  import opened MathUtil
  import opened Slider

  /** The width a preview gets when neither width nor height is given. */
  const DefaultPreviewWidth: real := 320.0

  /** The throttle interval of preview updates when none is given. */
  const DefaultThrottle: real := 250.0

  /** The preview `<video>`: its width, height and source. */
  datatype PreviewPlayer = PreviewPlayer(width: Option<Number>, height: Option<Number>, src: string)

  /** A JavaScript-truthy optional number: defined, not 0, not NaN. */
  predicate Given(n: Option<Number>) {
    n.Some? && Truthy(n.value)
  }

  /** The derived preview player: none without a preview URL (undefined or
      empty) or on a mobile device; otherwise a player whose width is 320
      when neither width nor height is truthy. */
  function PreviewFor(preview: Option<string>, width: Option<Number>, height: Option<Number>, mobile: bool): (r: Option<PreviewPlayer>)
    ensures r.None? <==> preview.None? || preview == Some("") || mobile
    ensures r.Some? ==> r.value.src == preview.value && r.value.height == height
    ensures r.Some? && (Given(width) || Given(height)) ==> r.value.width == width
    ensures r.Some? && !Given(width) && !Given(height) ==> r.value.width == Some(Fin(DefaultPreviewWidth))
  {
    if preview.None? || preview.value == "" || mobile then None
    else
      var w := if !Given(width) && !Given(height) then Some(Fin(DefaultPreviewWidth)) else width;
      Some(PreviewPlayer(w, height, preview.value))
  }

  /** The throttle interval: a default parameter, so only `undefined` takes
      the default. */
  function ThrottleTime(t: Option<Number>): (r: Number)
    ensures t.None? ==> r == Fin(DefaultThrottle)
    ensures t.Some? ==> r == t.value
  {
    t.GetOr(Fin(DefaultThrottle))
  }

  /** The preview's `left` in pixels, relative to the track: centred on the
      mouse, clamped so that it starts no further left than the window's left
      edge and ends no further right than the window's right edge. */
  function PreviewLeft(clientX: real, trackLeft: real, previewWidth: real, innerWidth: real): real {
    Clamp(clientX - trackLeft - previewWidth / 2.0, -trackLeft, innerWidth - previewWidth - trackLeft)
  }

  /** When the preview fits in the window it stays fully on screen, and it
      is centred on the mouse whenever that keeps it on screen. */
  lemma PreviewOnScreen(clientX: real, trackLeft: real, previewWidth: real, innerWidth: real)
    requires previewWidth <= innerWidth
    ensures var x := trackLeft + PreviewLeft(clientX, trackLeft, previewWidth, innerWidth);
      0.0 <= x && x + previewWidth <= innerWidth
    ensures 0.0 <= clientX - previewWidth / 2.0 <= innerWidth - previewWidth ==>
      trackLeft + PreviewLeft(clientX, trackLeft, previewWidth, innerWidth) == clientX - previewWidth / 2.0
  {
  }

  /** The time `updatePreview` moves the preview to: the stepped pointer
      position times the duration, applied only when finite. */
  function PreviewTime(current: Number, percent: Number, duration: Number): (r: Option<real>)
    ensures r.Some? ==> Mul(ChangeWithStepN(current, ToPrecisionN(percent, 6), 0.01), duration) == Fin(r.value)
    ensures r.None? <==> !Mul(ChangeWithStepN(current, ToPrecisionN(percent, 6), 0.01), duration).Fin?
  {
    var t := Mul(ChangeWithStepN(current, ToPrecisionN(percent, 6), 0.01), duration);
    if t.Fin? then Some(t.v) else None
  }

  /** A duration that is not known yet (NaN) or infinite (a live stream)
      never moves the preview, and neither does an infinite current value. */
  lemma PreviewTimeNeedsFiniteDuration(current: Number, percent: Number, duration: Number)
    ensures !duration.Fin? || !current.Fin? ==> PreviewTime(current, percent, duration).None?
    ensures current.Fin? && percent.Fin? && duration.Fin? ==> PreviewTime(current, percent, duration).Some?
  {
  }

  /** The hover state of the preview: whether the mouse is over the track,
      whether the preview is displayed, its offset and its time. */
  datatype Hover = Hover(isOver: bool, displayed: bool, left: real, time: Option<real>)

  /** `handleMouseEnter`: the mouse is over the track and the preview is
      displayed where it last was, showing the frame it last showed. */
  function MouseEnter(h: Hover): (r: Hover)
    ensures r.isOver && r.displayed
    ensures r.left == h.left && r.time == h.time
  {
    h.(isOver := true, displayed := true)
  }

  /** `handleMouseLeave`: the mouse is off the track and the preview is
      hidden, keeping its place and frame. */
  function MouseLeave(h: Hover): (r: Hover)
    ensures !r.isOver && !r.displayed
    ensures r.left == h.left && r.time == h.time
  {
    h.(isOver := false, displayed := false)
  }

  /** A mouse move over the track places the preview and, when the frame time
      is finite, moves it there; a move while not over the track does
      nothing. */
  function MouseMove(h: Hover, clientX: real, trackLeft: real, trackWidth: real, previewWidth: real,
                     innerWidth: real, current: Number, duration: Number): (r: Hover)
    ensures !h.isOver ==> r == h
    ensures r.isOver == h.isOver && r.displayed == h.displayed
    ensures h.isOver ==> r.left == PreviewLeft(clientX, trackLeft, previewWidth, innerWidth)
    ensures h.isOver ==> var t := PreviewTime(current, DivReal(clientX - trackLeft, trackWidth), duration);
      r.time == if t.Some? then t else h.time
  {
    if !h.isOver then h
    else
      var t := PreviewTime(current, DivReal(clientX - trackLeft, trackWidth), duration);
      h.(left := PreviewLeft(clientX, trackLeft, previewWidth, innerWidth),
         time := if t.Some? then t else h.time)
  }

  /** Over the track, a move whose preview fits in the window leaves the
      whole preview on screen, and the frame changes only to the finite time
      under the pointer. */
  lemma MouseMoveOnScreen(h: Hover, clientX: real, trackLeft: real, trackWidth: real, previewWidth: real,
                          innerWidth: real, current: Number, duration: Number)
    requires h.isOver && previewWidth <= innerWidth
    ensures var r := MouseMove(h, clientX, trackLeft, trackWidth, previewWidth, innerWidth, current, duration);
      && 0.0 <= trackLeft + r.left && trackLeft + r.left + previewWidth <= innerWidth
      && (r.time != h.time ==>
            && r.time.Some?
            && Mul(ChangeWithStepN(current, ToPrecisionN(DivReal(clientX - trackLeft, trackWidth), 6), 0.01), duration) == Fin(r.time.value))
  {
    PreviewOnScreen(clientX, trackLeft, previewWidth, innerWidth);
  }

  /** Once the mouse has entered, a move places the preview at the clamped
      offset under the pointer, and the preview stays displayed; this holds
      after a leave too, so entering again revives the preview. */
  lemma EnterThenMove(h: Hover, clientX: real, trackLeft: real, trackWidth: real, previewWidth: real,
                      innerWidth: real, current: Number, duration: Number)
    ensures var r := MouseMove(MouseEnter(h), clientX, trackLeft, trackWidth, previewWidth, innerWidth, current, duration);
      && r.left == PreviewLeft(clientX, trackLeft, previewWidth, innerWidth)
      && r.isOver && r.displayed
    ensures var r := MouseMove(MouseEnter(MouseLeave(h)), clientX, trackLeft, trackWidth, previewWidth, innerWidth, current, duration);
      r.left == PreviewLeft(clientX, trackLeft, previewWidth, innerWidth)
  {
  }

  /** After the mouse leaves, moves do not touch the preview until it
      enters again. */
  lemma LeaveFreezesPreview(h: Hover, clientX: real, trackLeft: real, trackWidth: real, previewWidth: real,
                            innerWidth: real, current: Number, duration: Number)
    ensures MouseMove(MouseLeave(h), clientX, trackLeft, trackWidth, previewWidth, innerWidth, current, duration) == MouseLeave(h)
  {
  }
}
