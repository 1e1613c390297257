/** The drag logic shared by the seek track (`VideoTrack`) and the volume
    slider (`VolumeControl`): after a press on the slider, every pointer move
    the window's listener receives sends a value between 0 and 1, the
    pointer's position across the slider rounded to a hundredth step, until
    the pointer is released. Which moves reach the window is not decided
    here. Also the bar and thumb positions both sliders draw. */
module Slider {
  import opened Js
  import opened MathUtil

  datatype PointerKind = Mouse | Pen | Touch

  /** A pointer event, with what the handler reads alongside it: the slider's
      bounding box and the slider's current value. */
  datatype PointerEvent = PointerEvent(kind: PointerKind, button: int, clientX: real, left: real, width: real, current: Number)

  /** `(clientX - left) / width` */
  function Percent(e: PointerEvent): Number {
    DivReal(e.clientX - e.left, e.width)
  }

  /** `clamp(changeWithStep(current, toPrecision(percent, 6), 0.01), 0, 1)`;
      `min + percent * (max - min)` with `min = 0, max = 1` is `percent`. */
  function SliderValue(current: Number, percent: Number): Number {
    ClampN(ChangeWithStepN(current, ToPrecisionN(percent, 6), 0.01), 0.0, 1.0)
  }

  /** What a handler leaves behind: the `isPressed` flag, and the value sent
      to `onSeek` / `onVolumeChange`, if any. */
  datatype Outcome = Outcome(pressed: bool, sent: Option<Number>)

  /** `handlePointerMove`: only a pressed slider sends a value. */
  function PointerMove(pressed: bool, e: PointerEvent): (r: Outcome)
    ensures r.pressed == pressed
    ensures r.sent.Some? <==> pressed
  {
    if pressed then Outcome(true, Some(SliderValue(e.current, Percent(e)))) else Outcome(false, None)
  }

  /** `handlePointerDown`: a mouse button other than the main one is ignored;
      anything else presses the slider and is processed as a move at once. */
  function PointerDown(pressed: bool, e: PointerEvent): (r: Outcome)
    ensures e.kind == Mouse && e.button != 0 ==> r == Outcome(pressed, None)
    ensures !(e.kind == Mouse && e.button != 0) ==> r.pressed && r.sent == Some(SliderValue(e.current, Percent(e)))
  {
    if e.kind == Mouse && e.button != 0 then Outcome(pressed, None)
    else PointerMove(true, e)
  }

  /** `handlePointerUp`: releases the slider; when it was not pressed there
      was nothing to release. */
  function PointerUp(pressed: bool): (r: Outcome)
    ensures !r.pressed && r.sent.None?
  {
    if !pressed then Outcome(pressed, None) else Outcome(false, None)
  }

  // ---------------------------------------------------------------------------
  // The value sent

  /** The value is NaN exactly when the current value is not finite or the
      pointer position is 0 / 0 (a zero-width slider, pointer on its edge);
      otherwise it is a finite number in [0, 1]. */
  lemma SliderValueRange(current: Number, percent: Number)
    ensures SliderValue(current, percent).NaN? <==> !current.Fin? || percent.NaN?
    ensures !SliderValue(current, percent).NaN? ==>
      SliderValue(current, percent).Fin? && 0.0 <= SliderValue(current, percent).v <= 1.0
  {
  }

  lemma PercentNaN(e: PointerEvent)
    ensures Percent(e).NaN? <==> e.width == 0.0 && e.clientX == e.left
  {
  }

  /** For a pointer over the slider, the value sent is within half a step
      (0.005) plus the truncation to six decimals of the pointer's position
      across the slider. */
  lemma SliderValueNearPointer(current: real, p: real)
    requires 0.0 <= p <= 1.0
    ensures SliderValue(Fin(current), Fin(p)).Fin?
    ensures Abs(SliderValue(Fin(current), Fin(p)).v - p) <= 0.005 + 0.000001
  {
    assert Pow10(6) == 1000000.0;
    var tp := ToPrecision(p, 6);
    assert 0.0 <= p - tp < 0.000001;
    var x := ChangeWithStep(current, tp, 0.01);
    ChangeWithStepSpec(current, tp, 0.01);
    assert Abs(x - tp) <= 0.005;
    ClampNonExpansive(x, p, 0.0, 1.0);
    assert Clamp(p, 0.0, 1.0) == p;
    assert SliderValue(Fin(current), Fin(p)) == Fin(Clamp(x, 0.0, 1.0));
  }

  // ---------------------------------------------------------------------------
  // Drags

  datatype Event = Down(e: PointerEvent) | Move(e: PointerEvent) | Up

  function Handle(pressed: bool, ev: Event): Outcome {
    match ev
    case Down(e) => PointerDown(pressed, e)
    case Move(e) => PointerMove(pressed, e)
    case Up => PointerUp(pressed)
  }

  /** The values sent over a sequence of pointer events. */
  function Sent(pressed: bool, evs: seq<Event>): seq<Number>
    decreases |evs|
  {
    if evs == [] then []
    else
      var o := Handle(pressed, evs[0]);
      (if o.sent.Some? then [o.sent.value] else []) + Sent(o.pressed, evs[1..])
  }

  /** A pointer-down the slider takes: a touch, a pen, or the main mouse
      button. */
  predicate Presses(ev: Event) {
    ev.Down? && !(ev.e.kind == Mouse && ev.e.button != 0)
  }

  /** Every value sent is NaN or a number in [0, 1]. */
  lemma {:induction false} SentInRange(pressed: bool, evs: seq<Event>)
    ensures forall k :: 0 <= k < |Sent(pressed, evs)| ==>
      Sent(pressed, evs)[k].NaN? || (Sent(pressed, evs)[k].Fin? && 0.0 <= Sent(pressed, evs)[k].v <= 1.0)
    decreases |evs|
  {
    if evs != [] {
      var o := Handle(pressed, evs[0]);
      SentInRange(o.pressed, evs[1..]);
      match evs[0]
      case Down(e) => SliderValueRange(e.current, Percent(e));
      case Move(e) => SliderValueRange(e.current, Percent(e));
      case Up =>
    }
  }

  /** Without a pointer-down the slider takes, an unpressed slider sends
      nothing, however the pointer moves. */
  lemma {:induction false} NoPressNoValue(evs: seq<Event>)
    requires forall k :: 0 <= k < |evs| ==> !Presses(evs[k])
    ensures Sent(false, evs) == []
    decreases |evs|
  {
    if evs != [] {
      assert !Presses(evs[0]);
      NoPressNoValue(evs[1..]);
    }
  }

  // ---------------------------------------------------------------------------
  // Bar and thumb

  function OneMinus(p: Number): Number {
    match p
    case Fin(x) => Fin(1.0 - x)
    case NaN => NaN
    case Inf(up) => Inf(!up)
  }

  /** The `right` percentage of the filled bar: `clamp((1 - p) * 100, 0, 100)`. */
  function BarRight(p: Number): Number {
    ClampN(Mul(OneMinus(p), Fin(100.0)), 0.0, 100.0)
  }

  /** The `left` percentage of the thumb: `clamp(p * 100, 0, 100)`. */
  function ThumbLeft(p: Number): Number {
    ClampN(Mul(p, Fin(100.0)), 0.0, 100.0)
  }

  /** Both percentages lie in [0, 100] unless the value is NaN; for a value in
      [0, 1] the thumb sits where the bar ends. */
  lemma BarAndThumb(p: Number)
    ensures p.NaN? <==> BarRight(p).NaN?
    ensures p.NaN? <==> ThumbLeft(p).NaN?
    ensures !p.NaN? ==> 0.0 <= BarRight(p).v <= 100.0 && 0.0 <= ThumbLeft(p).v <= 100.0
    ensures p.Fin? && 0.0 <= p.v <= 1.0 ==> BarRight(p).v + ThumbLeft(p).v == 100.0
  {
    match p
    case Fin(x) =>
      assert Mul(OneMinus(p), Fin(100.0)) == Fin((1.0 - x) * 100.0);
      assert Mul(p, Fin(100.0)) == Fin(x * 100.0);
      if 0.0 <= x <= 1.0 {
        BarMeetsThumb(x);
      }
    case NaN =>
    case Inf(up) =>
  }

  lemma BarMeetsThumb(x: real)
    requires 0.0 <= x <= 1.0
    ensures Clamp((1.0 - x) * 100.0, 0.0, 100.0) + Clamp(x * 100.0, 0.0, 100.0) == 100.0
  {
  }
}
