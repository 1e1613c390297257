/** `VolumeControl`, beyond the drag it shares with the seek track: the
    muted look of the control. */
module VolumeControl {
  import opened Js
  import opened MathUtil
  import opened Slider

  /** `v === 0`: drives both the `muted` class and the muted icon. */
  predicate Muted(volume: Number) {
    volume == Fin(0.0)
  }

  /** Dragging at least half a step left of the slider's start sets the
      volume to 0, which shows as muted; at least half a step right of its end
      sets it to 1. */
  lemma DragPastTheEnds(current: real, p: real)
    ensures p <= -0.005 ==> Muted(SliderValue(Fin(current), Fin(p)))
    ensures p >= 1.005 ==> SliderValue(Fin(current), Fin(p)) == Fin(1.0)
  {
    var tp := ToPrecision(p, 6);
    var x := ChangeWithStep(current, tp, 0.01);
    ChangeWithStepSpec(current, tp, 0.01);
    assert Abs(x - tp) <= 0.005;
    assert tp <= p;
    if p >= 1.005 {
      assert Pow10(6) == 1000000.0;
      assert p - tp < 0.000001;
    }
  }

  /** From a volume on the hundredths grid, a drag to the exact start of the
      slider mutes. */
  lemma DragToStartMutes(k: int)
    ensures Muted(SliderValue(Fin(k as real * 0.01), Fin(0.0)))
  {
    var start := k as real * 0.01;
    assert ToPrecision(0.0, 6) == 0.0;
    ChangeWithStepExact(start, -k, 0.01);
    assert start + (-k) as real * 0.01 == 0.0;
  }
}
