/** `usePlaybackControls`: the player's playback state and the handlers that
    move it — play, pause, time and buffer updates, volume changes with their
    persistence, and the timer that hides the controls after a quiet spell.

    A pending `setTimeout` is the field `timer` (its delay, if armed); the
    timer's callback is the explicit event `TimerFires`. */
module Playback {
  import opened Js

  /** The key the volume is stored under. */
  const VolumeKey: string := "ncplayer-volume"

  /** The delay used when `controlsTimeout` is not set. */
  const DefaultHideDelay: real := 1000.0

  /** A buffered time range of the video. */
  datatype Range = Range(start: real, end: real)

  /** What the handlers read of the `<video>` element that raised the event. */
  datatype Video = Video(currentTime: real, duration: Number, buffered: seq<Range>)

  /** Where a mouse event happened: on an HTML element inside `.controls`, on
      one outside it, or on something that is not an HTML element. */
  datatype Target = InsideControls | OutsideControls | NotHtml

  /** The settings the handlers read, and `String(number)`, which is not
      modelled. */
  datatype Config = Config(controlsTimeout: Option<Number>, persistentVolume: Option<bool>, show: Number -> string)

  datatype State = State(
    volume: Number,
    bufferProgress: Number,
    progress: Number,
    isPlaying: bool,
    showControls: bool,
    timer: Option<Number>,
    store: map<string, string>)

  predicate Persistent(c: Config) {
    c.persistentVolume == Some(true)
  }

  /** The volume the hook starts with: the stored one if persistence is on and
      something is stored, otherwise 1. `Number(text)` is `toNumber`. */
  function InitialVolume(persistent: Option<bool>, store: map<string, string>, toNumber: string -> Number): (v: Number)
    ensures persistent != Some(true) || VolumeKey !in store ==> v == Fin(1.0)
    ensures persistent == Some(true) && VolumeKey in store ==> v == toNumber(store[VolumeKey])
  {
    if persistent == Some(true) then
      if VolumeKey in store then toNumber(store[VolumeKey]) else Fin(1.0)
    else Fin(1.0)
  }

  /** The state the hook creates: paused, controls shown, no timer. */
  function Init(persistent: Option<bool>, store: map<string, string>, toNumber: string -> Number): (s: State)
    ensures !s.isPlaying && s.showControls && s.timer.None?
    ensures s.progress == Fin(0.0) && s.bufferProgress == Fin(0.0) && s.store == store
  {
    State(InitialVolume(persistent, store, toNumber), Fin(0.0), Fin(0.0), false, true, None, store)
  }

  /** `startHideTimeout(e)`: any pending timer is cancelled; a new one is
      armed when there is no event, or when the event is on an HTML element
      outside the controls. */
  function StartHideTimeout(s: State, event: Option<Target>, c: Config): (r: State)
    ensures r.timer.Some? <==> (event.None? || event == Some(OutsideControls))
    ensures r.timer.Some? ==> r.timer.value == HideDelay(c)
    ensures r == s.(timer := r.timer)
  {
    if event.None? || event.value == OutsideControls then s.(timer := Some(HideDelay(c)))
    else s.(timer := None)
  }

  /** The timer's callback: controls hide if the video is playing; the timer
      is no longer pending either way. */
  function TimerFires(s: State): (r: State)
    ensures r.timer.None?
    ensures s.timer.Some? ==> r.showControls == (s.showControls && !s.isPlaying)
    ensures s.timer.None? ==> r == s
    ensures r == s.(showControls := r.showControls, timer := r.timer)
  {
    if s.timer.None? then s
    else s.(showControls := s.showControls && !s.isPlaying, timer := None)
  }

  /** The delay a newly armed timer waits: `controlsTimeout ?? 1000`. */
  function HideDelay(c: Config): Number {
    c.controlsTimeout.GetOr(Fin(DefaultHideDelay))
  }

  /** `handleMouseMove`: the controls show, and the hide timer is re-armed
      unless the pointer is over the controls (or not over an HTML
      element), in which case no timer is left pending. */
  function MouseMove(s: State, target: Target, c: Config): (r: State)
    ensures r.showControls
    ensures r.timer == if target == OutsideControls then Some(HideDelay(c)) else None
    ensures r == s.(showControls := true, timer := r.timer)
  {
    StartHideTimeout(s.(showControls := true), Some(target), c)
  }

  /** `handlePlay`: the video plays, the progress is set without checking
      the duration, and the hide timer is armed whatever the pointer does. */
  function Play(s: State, v: Video, c: Config): (r: State)
    ensures r.isPlaying && r.timer == Some(HideDelay(c))
    ensures r.progress == Div(v.currentTime, v.duration)
    ensures r == s.(isPlaying := true, progress := r.progress, timer := r.timer)
  {
    StartHideTimeout(s.(isPlaying := true, progress := Div(v.currentTime, v.duration)), None, c)
  }

  /** `handlePause`: the video stops and the controls show. The progress is
      set without checking the duration, and the pending timer, if any, is
      left running. */
  function Pause(s: State, v: Video): (r: State)
    ensures !r.isPlaying && r.showControls
    ensures r.timer == s.timer && r.volume == s.volume && r.store == s.store && r.bufferProgress == s.bufferProgress
    ensures r.progress == Div(v.currentTime, v.duration)
  {
    s.(isPlaying := false, progress := Div(v.currentTime, v.duration), showControls := true)
  }

  /** `handleTimeUpdate`: only a truthy duration (not 0, not NaN) moves the
      progress. */
  function TimeUpdate(s: State, v: Video): (r: State)
    ensures !Truthy(v.duration) ==> r == s
    ensures Truthy(v.duration) ==> r == s.(progress := Div(v.currentTime, v.duration))
  {
    if Truthy(v.duration) then s.(progress := Div(v.currentTime, v.duration)) else s
  }

  // ---------------------------------------------------------------------------
  // The buffered range search

  /** A range counts as the one around the play head if it ends after it and
      starts no more than 16 seconds after it. */
  predicate Covers(r: Range, t: real) {
    r.start - 16.0 <= t <= r.end
  }

  /** The index of the first covering range, if any. */
  function FirstCover(ranges: seq<Range>, t: real): (k: Option<nat>)
    ensures k.Some? ==> k.value < |ranges| && Covers(ranges[k.value], t)
    ensures k.Some? ==> forall j :: 0 <= j < k.value ==> !Covers(ranges[j], t)
    ensures k.None? ==> forall j :: 0 <= j < |ranges| ==> !Covers(ranges[j], t)
  {
    if ranges == [] then None
    else if Covers(ranges[0], t) then Some(0)
    else match FirstCover(ranges[1..], t)
      case None => None
      case Some(k) => Some(k + 1)
  }

  /** The end of the first range around the play head, or 0 when none is. */
  function BufferedEnd(ranges: seq<Range>, t: real): real {
    match FirstCover(ranges, t)
    case None => 0.0
    case Some(k) => ranges[k].end
  }

  /** The loop of `handleProgress`: scan the ranges in order and stop at the
      first one around the play head. */
  method ScanBuffered(ranges: seq<Range>, t: real) returns (buffered: real)
    ensures buffered == BufferedEnd(ranges, t)
    ensures (exists j :: 0 <= j < |ranges| && Covers(ranges[j], t)) || buffered == 0.0
  {
    buffered := 0.0;
    var i := 0;
    while i < |ranges|
      invariant 0 <= i <= |ranges|
      invariant forall j :: 0 <= j < i ==> !Covers(ranges[j], t)
      invariant buffered == 0.0
    {
      if Covers(ranges[i], t) {
        buffered := ranges[i].end;
        FirstCoverIs(ranges, t, i);
        return;
      }
      i := i + 1;
    }
  }

  /** The first covering range is the one `FirstCover` names. */
  lemma FirstCoverIs(ranges: seq<Range>, t: real, i: nat)
    requires i < |ranges| && Covers(ranges[i], t)
    requires forall j :: 0 <= j < i ==> !Covers(ranges[j], t)
    ensures FirstCover(ranges, t) == Some(i)
  {
  }

  /** `handleProgress`: with at least one range and a duration that is not
      NaN, the buffer progress becomes the end of the range around the play
      head over the duration; otherwise nothing changes. */
  function BufferProgress(s: State, v: Video): (r: State)
    ensures |v.buffered| == 0 || v.duration.NaN? ==> r == s
    ensures r == s.(bufferProgress := r.bufferProgress)
    ensures |v.buffered| > 0 && !v.duration.NaN? ==> forall k :: 0 <= k < |v.buffered| ==>
      Covers(v.buffered[k], v.currentTime) && (forall j :: 0 <= j < k ==> !Covers(v.buffered[j], v.currentTime)) ==>
      r.bufferProgress == Div(v.buffered[k].end, v.duration)
    ensures |v.buffered| > 0 && !v.duration.NaN? && (forall j :: 0 <= j < |v.buffered| ==> !Covers(v.buffered[j], v.currentTime)) ==>
      r.bufferProgress == Div(0.0, v.duration)
  {
    if |v.buffered| > 0 && !v.duration.NaN? then
      s.(bufferProgress := Div(BufferedEnd(v.buffered, v.currentTime), v.duration))
    else s
  }

  /** The sixteen seconds of slack before a range: with the range [0, 10]
      and a duration of 20, a play head at 9.5 reports half the video
      buffered and one at 11 reports none; with the range [20, 30] and a
      duration of 40, a play head at 5 already reports three quarters. */
  lemma BufferProgressExamples(s: State)
    ensures BufferProgress(s, Video(9.5, Fin(20.0), [Range(0.0, 10.0)])).bufferProgress == Fin(0.5)
    ensures BufferProgress(s, Video(11.0, Fin(20.0), [Range(0.0, 10.0)])).bufferProgress == Fin(0.0)
    ensures BufferProgress(s, Video(5.0, Fin(40.0), [Range(20.0, 30.0)])).bufferProgress == Fin(0.75)
  {
    assert Covers(Range(0.0, 10.0), 9.5);
    assert !Covers(Range(0.0, 10.0), 11.0);
    assert Covers(Range(20.0, 30.0), 5.0);
  }

  /** `handleVolumeChange`: the volume always changes; it is written to the
      store only when persistence is on. */
  function VolumeChange(s: State, volume: Number, c: Config): (r: State)
    ensures r.volume == volume
    ensures !Persistent(c) ==> r.store == s.store
    ensures Persistent(c) ==> r.store == s.store[VolumeKey := c.show(volume)]
    ensures r == s.(volume := volume, store := r.store)
  {
    var s' := s.(volume := volume);
    if Persistent(c) then s'.(store := s.store[VolumeKey := c.show(volume)]) else s'
  }

  /** `handleMouseLeave`: controls hide while playing. */
  function MouseLeave(s: State): (r: State)
    ensures r.showControls == (s.showControls && !s.isPlaying)
    ensures r == s.(showControls := r.showControls)
  {
    if s.isPlaying then s.(showControls := false) else s
  }

  // ---------------------------------------------------------------------------
  // Event sequences

  datatype Event =
    | MouseMoveOn(target: Target)
    | MouseLeaves
    | Plays(video: Video)
    | Pauses(video: Video)
    | TimeUpdates(video: Video)
    | Buffers(video: Video)
    | VolumeChanges(volume: Number)
    | TimerFired

  function Step(s: State, e: Event, c: Config): State {
    match e
    case MouseMoveOn(t) => MouseMove(s, t, c)
    case MouseLeaves => MouseLeave(s)
    case Plays(v) => Play(s, v, c)
    case Pauses(v) => Pause(s, v)
    case TimeUpdates(v) => TimeUpdate(s, v)
    case Buffers(v) => BufferProgress(s, v)
    case VolumeChanges(x) => VolumeChange(s, x, c)
    case TimerFired => TimerFires(s)
  }

  function Run(s: State, es: seq<Event>, c: Config): State
    decreases |es|
  {
    if es == [] then s else Run(Step(s, es[0], c), es[1..], c)
  }

  /** Controls are only ever hidden while the video plays. */
  predicate PausedShowsControls(s: State) {
    !s.isPlaying ==> s.showControls
  }

  lemma StepKeepsControls(s: State, e: Event, c: Config)
    requires PausedShowsControls(s)
    ensures PausedShowsControls(Step(s, e, c))
  {
  }

  /** From the initial state on, whatever the events, a paused player shows
      its controls. */
  lemma {:induction false} RunKeepsControls(s: State, es: seq<Event>, c: Config)
    requires PausedShowsControls(s)
    ensures PausedShowsControls(Run(s, es, c))
    decreases |es|
  {
    if es != [] {
      StepKeepsControls(s, es[0], c);
      RunKeepsControls(Step(s, es[0], c), es[1..], c);
    }
  }

  /** A pause always shows the controls, and a play followed by the timer
      with no other event hides them. */
  lemma PlayThenQuiet(s: State, v: Video, w: Video, c: Config)
    ensures Run(s, [Plays(v), TimerFired], c).showControls == false
    ensures Run(s, [Plays(v), TimerFired], c).isPlaying
    ensures Run(s, [Pauses(w), TimerFired], c).showControls
  {
    assert [Plays(v), TimerFired][1..] == [TimerFired];
    assert [Pauses(w), TimerFired][1..] == [TimerFired];
    var played := Play(s, v, c);
    assert Run(s, [Plays(v), TimerFired], c) == Run(played, [TimerFired], c);
    assert Run(played, [TimerFired], c) == TimerFires(played);
    var paused := Pause(s, w);
    assert Run(s, [Pauses(w), TimerFired], c) == Run(paused, [TimerFired], c);
    assert Run(paused, [TimerFired], c) == TimerFires(paused);
  }

  /** A mouse move over the controls leaves no timer, so the controls stay up
      until the mouse leaves or moves elsewhere. */
  lemma MoveOverControls(s: State, c: Config)
    ensures MouseMove(s, InsideControls, c).showControls
    ensures TimerFires(MouseMove(s, InsideControls, c)).showControls
  {
  }

  /** A volume stored with persistence on is the volume a new player starts
      with, when reading the stored text back gives the number. */
  lemma VolumePersists(s: State, volume: Number, c: Config, toNumber: string -> Number)
    requires Persistent(c)
    requires toNumber(c.show(volume)) == volume
    ensures InitialVolume(c.persistentVolume, VolumeChange(s, volume, c).store, toNumber) == volume
  {
  }

  /** Before the duration is known (NaN), play and pause set the progress to
      NaN; a time update leaves it alone. */
  lemma ProgressBeforeMetadata(s: State, v: Video, c: Config)
    requires v.duration.NaN?
    ensures Play(s, v, c).progress.NaN?
    ensures Pause(s, v).progress.NaN?
    ensures TimeUpdate(s, v).progress == s.progress
  {
  }
}
