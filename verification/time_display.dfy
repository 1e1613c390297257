/** `TimeDisplay`: the current playback time as text, recomputed while the
    display is visible and frozen at the last shown text while it is hidden. */
module TimeDisplay {
  import opened Js
  import opened Text
  import opened FormatTime

  /** The text shown before anything is computed. */
  const InitialText: string := "00:00"

  /** The display's own computation of the text for a time, written out as in
      the component. */
  function DisplayText(currentTime: real): string {
    var hours := (currentTime / 3600.0).Floor;
    var minutes := (Rem(currentTime, 3600.0) / 60.0).Floor;
    var seconds := Rem(currentTime, 60.0).Floor;
    if hours > 0 then Field(hours) + ":" + Field(minutes) + ":" + Field(seconds)
    else Field(minutes) + ":" + Field(seconds)
  }

  /** The display shows exactly what `formatTime` produces. */
  lemma DisplayIsFormatTime(currentTime: real)
    ensures DisplayText(currentTime) == FormatTime.FormatTime(currentTime)
  {
  }

  /** The initial text is the rendering of time 0. */
  lemma InitialIsZero()
    ensures InitialText == FormatTime.FormatTime(0.0)
  {
    FieldZero();
    assert Hours(0.0) == 0 && Minutes(0.0) == 0 && Seconds(0.0) == 0;
  }

  /** One evaluation of the derived text: `lastTime` while hidden; otherwise
      the text of the current time, which also becomes `lastTime`. The result
      is the pair (shown text, new `lastTime`). */
  function Show(lastTime: string, visible: bool, currentTime: real): (r: (string, string))
    ensures !visible ==> r == (lastTime, lastTime)
    ensures visible ==> r.0 == FormatTime.FormatTime(currentTime) && r.1 == r.0
  {
    DisplayIsFormatTime(currentTime);
    if !visible then (lastTime, lastTime)
    else var t := DisplayText(currentTime); (t, t)
  }

  /** A visibility and the video's current time at an evaluation. */
  datatype Sample = Sample(visible: bool, currentTime: real)

  /** The text shown after a run of evaluations. */
  function Run(lastTime: string, samples: seq<Sample>): string
    decreases |samples|
  {
    if samples == [] then lastTime
    else Run(Show(lastTime, samples[0].visible, samples[0].currentTime).1, samples[1..])
  }

  /** The time of the last visible evaluation, if any. */
  function LastVisible(samples: seq<Sample>): Option<real> {
    if samples == [] then None
    else
      var s := samples[|samples| - 1];
      if s.visible then Some(s.currentTime) else LastVisible(samples[..|samples| - 1])
  }

  lemma {:induction false} RunSnoc(lastTime: string, samples: seq<Sample>, s: Sample)
    ensures Run(lastTime, samples + [s]) == Show(Run(lastTime, samples), s.visible, s.currentTime).1
    decreases |samples|
  {
    if samples != [] {
      assert (samples + [s])[1..] == samples[1..] + [s];
      RunSnoc(Show(lastTime, samples[0].visible, samples[0].currentTime).1, samples[1..], s);
    }
  }

  /** After any run from the start the display shows the rendering of the
      last time it saw while visible, or "00:00" if it never was visible. */
  lemma {:induction false} RunShowsLastVisible(samples: seq<Sample>)
    ensures Run(InitialText, samples) ==
      match LastVisible(samples)
      case None => InitialText
      case Some(t) => FormatTime.FormatTime(t)
    decreases |samples|
  {
    if samples != [] {
      var init := samples[..|samples| - 1];
      var s := samples[|samples| - 1];
      assert samples == init + [s];
      RunShowsLastVisible(init);
      RunSnoc(InitialText, init, s);
    }
  }

  /** From the start, with non-negative times, the text shown always reads
      back as the whole seconds of the last time seen while visible. */
  lemma RunDecodes(samples: seq<Sample>)
    requires forall k :: 0 <= k < |samples| ==> samples[k].currentTime >= 0.0
    ensures DecodeTime(Run(InitialText, samples)) == Some(match LastVisible(samples) case None => 0 case Some(t) => t.Floor)
  {
    RunShowsLastVisible(samples);
    match LastVisible(samples)
    case None =>
      InitialIsZero();
      DecodeFormatTime(0.0);
    case Some(t) =>
      LastVisibleIn(samples);
      DecodeFormatTime(t);
  }

  lemma {:induction false} LastVisibleIn(samples: seq<Sample>)
    ensures LastVisible(samples).Some? ==> exists k :: 0 <= k < |samples| && samples[k].currentTime == LastVisible(samples).value
  {
    if samples != [] && !samples[|samples| - 1].visible {
      var init := samples[..|samples| - 1];
      LastVisibleIn(init);
      if LastVisible(init).Some? {
        var k :| 0 <= k < |init| && init[k].currentTime == LastVisible(init).value;
        assert samples[k] == init[k];
      }
    }
  }
}
