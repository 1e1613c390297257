/** `useSubtrackController`: which subtitle track of the video is shown, and
    the position of its cues, which are lifted above the controls while the
    controls are visible and put back when they hide.

    A text track is a record; a cue's `line` is `auto` or a line number
    (negative numbers count from the bottom of the video). The 25 ms timer of
    a selection is a queue of pending lifts fired by an explicit step. */
module Subtrack {
  import opened Js
  import opened Text

  datatype Line = Auto | Num(n: int)

  datatype Cue = Cue(text: string, line: Line)

  datatype Mode = Showing | Hidden | Disabled

  /** A text track of the video: its id, mode, cues, and the indices of the
      cues active at the current time. */
  datatype Track = Track(id: string, mode: Mode, cues: seq<Cue>, active: set<nat>)

  /** The number of lines of a cue's text. */
  function LineCount(text: string): nat {
    CountChar(text, '\n') + 1
  }

  /** `liftCue`: a cue at the automatic position is moved to the line that
      leaves two free lines below its text; a positioned cue is left alone. */
  function LiftCue(c: Cue): (r: Cue)
    ensures r.text == c.text && r.line.Num?
    ensures c.line.Auto? ==> r.line.n == -(LineCount(c.text) + 2)
    ensures c.line.Num? ==> r == c
  {
    if c.line.Auto? then c.(line := Num(-3 - CountChar(c.text, '\n'))) else c
  }

  /** Lifting twice is lifting once, and a lifted cue is back where it was
      after being reset. */
  lemma LiftCueIdempotent(c: Cue)
    ensures LiftCue(LiftCue(c)) == LiftCue(c)
    ensures ResetCue(LiftCue(c)) == ResetCue(c)
  {
  }

  function ResetCue(c: Cue): (r: Cue)
    ensures r.text == c.text && r.line.Auto?
  {
    c.(line := Auto)
  }

  /** `resetCues`: every cue goes back to the automatic position. */
  function ResetCues(cues: seq<Cue>): (r: seq<Cue>)
    ensures |r| == |cues|
    ensures forall j :: 0 <= j < |r| ==> r[j].line.Auto? && r[j].text == cues[j].text
  {
    seq(|cues|, j requires 0 <= j < |cues| => ResetCue(cues[j]))
  }

  /** Resetting is idempotent, and undoes any lifting. */
  lemma ResetCuesIdempotent(cues: seq<Cue>, active: set<nat>)
    ensures ResetCues(ResetCues(cues)) == ResetCues(cues)
    ensures ResetCues(LiftCues(cues, active)) == ResetCues(cues)
  {
  }

  /** The cues with the active ones lifted. */
  function LiftCues(cues: seq<Cue>, active: set<nat>): (r: seq<Cue>)
    ensures |r| == |cues|
    ensures forall j :: 0 <= j < |r| ==> r[j] == if j in active then LiftCue(cues[j]) else cues[j]
  {
    seq(|cues|, j requires 0 <= j < |cues| => if j in active then LiftCue(cues[j]) else cues[j])
  }

  function LiftActive(t: Track): (r: Track)
    ensures r == t.(cues := r.cues)
  {
    t.(cues := LiftCues(t.cues, t.active))
  }

  function ResetTrack(t: Track): (r: Track)
    ensures r == t.(cues := r.cues)
  {
    t.(cues := ResetCues(t.cues))
  }

  /** Lifting the active cues of a track twice is lifting them once. */
  lemma LiftActiveIdempotent(t: Track)
    ensures LiftActive(LiftActive(t)) == LiftActive(t)
  {
    var once := LiftActive(t);
    var twice := LiftActive(once);
    assert forall j :: 0 <= j < |t.cues| ==> twice.cues[j] == once.cues[j] by {
      forall j | 0 <= j < |t.cues|
        ensures twice.cues[j] == once.cues[j]
      {
        if j in t.active {
          LiftCueIdempotent(t.cues[j]);
        }
      }
    }
  }

  // ---------------------------------------------------------------------------
  // Index lists

  /** The indices of the tracks with the given id, in order. */
  function Matching(tracks: seq<Track>, id: string): (r: seq<nat>)
    ensures forall k :: 0 <= k < |r| ==> r[k] < |tracks| && tracks[r[k]].id == id
    ensures forall i :: 0 <= i < |tracks| && tracks[i].id == id ==> i in r
  {
    if tracks == [] then []
    else
      var n := |tracks| - 1;
      Matching(tracks[..n], id) + (if tracks[n].id == id then [n] else [])
  }

  /** The indices of the showing tracks, in order. */
  function ShowingIndices(tracks: seq<Track>): (r: seq<nat>)
    ensures forall k :: 0 <= k < |r| ==> r[k] < |tracks| && tracks[r[k]].mode == Showing
    ensures forall i :: 0 <= i < |tracks| && tracks[i].mode == Showing ==> i in r
    ensures |r| <= |tracks|
  {
    if tracks == [] then []
    else
      var n := |tracks| - 1;
      ShowingIndices(tracks[..n]) + (if tracks[n].mode == Showing then [n] else [])
  }

  // ---------------------------------------------------------------------------
  // The controller

  /** The controller's state: the tracks, the selected id, the queued delayed
      lifts (track indices), the tracks with a `cuechange` listener (one entry
      per listener), the track whose listener the current `cleanup` removes,
      and whether the `showControls` listener is still attached. */
  datatype Controller = Controller(
    tracks: seq<Track>,
    activeTrack: Option<string>,
    pending: seq<nat>,
    listeners: multiset<nat>,
    cleanup: Option<nat>,
    attached: bool)

  /** `handleSubTrackSelect(track)`: the tracks with the chosen id show, every
      other one hides; each shown track queues a delayed lift; `activeTrack`
      becomes the id if some track has it. */
  function Select(c: Controller, id: string): (r: Controller)
    ensures |r.tracks| == |c.tracks|
    ensures forall i :: 0 <= i < |r.tracks| ==>
      r.tracks[i] == c.tracks[i].(mode := if c.tracks[i].id == id then Showing else Hidden)
    ensures r.activeTrack == if exists i :: 0 <= i < |c.tracks| && c.tracks[i].id == id then Some(id) else c.activeTrack
    ensures r.pending == c.pending + Matching(c.tracks, id)
    ensures r.listeners == c.listeners && r.cleanup == c.cleanup && r.attached == c.attached
  {
    var found := exists i :: 0 <= i < |c.tracks| && c.tracks[i].id == id;
    var tracks := seq(|c.tracks|, i requires 0 <= i < |c.tracks| =>
      c.tracks[i].(mode := if c.tracks[i].id == id then Showing else Hidden));
    c.(tracks := tracks,
       activeTrack := if found then Some(id) else c.activeTrack,
       pending := c.pending + Matching(c.tracks, id))
  }

  /** The 25 ms timer of a selection fires: the active cues of that track, as
      they are now, are lifted. */
  function DelayedLift(c: Controller): (r: Controller)
    ensures |r.tracks| == |c.tracks|
    ensures c.pending != [] ==> r.pending == c.pending[1..]
    ensures c.pending != [] && c.pending[0] < |c.tracks| ==> r.tracks[c.pending[0]] == LiftActive(c.tracks[c.pending[0]])
    ensures forall i :: 0 <= i < |c.tracks| && (c.pending == [] || i != c.pending[0]) ==> r.tracks[i] == c.tracks[i]
    ensures r.activeTrack == c.activeTrack && r.listeners == c.listeners && r.cleanup == c.cleanup
  {
    if c.pending == [] then c
    else
      var k := c.pending[0];
      var tracks := if k < |c.tracks| then c.tracks[k := LiftActive(c.tracks[k])] else c.tracks;
      c.(tracks := tracks, pending := c.pending[1..])
  }

  /** `handleSubTrackDisable`: every showing track hides and has its cues
      reset, and `activeTrack` is cleared; other tracks are untouched, and
      with no showing track `activeTrack` stays as it was. */
  function Disable(c: Controller): (r: Controller)
    ensures |r.tracks| == |c.tracks|
    ensures forall i :: 0 <= i < |c.tracks| && c.tracks[i].mode == Showing ==>
      r.tracks[i] == ResetTrack(c.tracks[i]).(mode := Hidden)
    ensures forall i :: 0 <= i < |c.tracks| && c.tracks[i].mode != Showing ==> r.tracks[i] == c.tracks[i]
    ensures r.activeTrack == if exists i :: 0 <= i < |c.tracks| && c.tracks[i].mode == Showing then None else c.activeTrack
    ensures r.listeners == c.listeners && r.cleanup == c.cleanup && r.pending == c.pending
  {
    var anyShowing := exists i :: 0 <= i < |c.tracks| && c.tracks[i].mode == Showing;
    var tracks := seq(|c.tracks|, i requires 0 <= i < |c.tracks| =>
      if c.tracks[i].mode == Showing then ResetTrack(c.tracks[i]).(mode := Hidden) else c.tracks[i]);
    c.(tracks := tracks, activeTrack := if anyShowing then None else c.activeTrack)
  }

  /** The current `cleanup()`: removes the listener it was made for, then
      becomes a no-op. */
  function RunCleanup(c: Controller): (r: Controller)
    ensures r.cleanup.None?
    ensures r == c.(listeners := r.listeners, cleanup := None)
    ensures c.cleanup.Some? ==> r.listeners == c.listeners - multiset{c.cleanup.value}
    ensures c.cleanup.None? ==> r.listeners == c.listeners
  {
    match c.cleanup
    case None => c
    case Some(k) => c.(listeners := c.listeners - multiset{k}, cleanup := None)
  }

  function Last(s: seq<nat>): Option<nat> {
    if s == [] then None else Some(s[|s| - 1])
  }

  /** The `showControls` listener. After running the current clean-up: when
      the controls show, each showing track has its active cues lifted and
      gets a `cuechange` listener, and `cleanup` is left removing the last
      one; when they hide, each showing track has its cues reset. */
  function ControlsShown(c: Controller, show: bool): (r: Controller)
    ensures |r.tracks| == |c.tracks|
    ensures r.activeTrack == c.activeTrack && r.pending == c.pending && r.attached == c.attached
    ensures !c.attached ==> r == c
    ensures c.attached && show ==> forall i :: 0 <= i < |c.tracks| ==>
      r.tracks[i] == if c.tracks[i].mode == Showing then LiftActive(c.tracks[i]) else c.tracks[i]
    ensures c.attached && !show ==> forall i :: 0 <= i < |c.tracks| ==>
      r.tracks[i] == if c.tracks[i].mode == Showing then ResetTrack(c.tracks[i]) else c.tracks[i]
    ensures c.attached && show ==>
      r.listeners == RunCleanup(c).listeners + multiset(ShowingIndices(c.tracks))
      && r.cleanup == Last(ShowingIndices(c.tracks))
    ensures c.attached && !show ==> r.listeners == RunCleanup(c).listeners && r.cleanup.None?
  {
    if !c.attached then c
    else
      var c1 := RunCleanup(c);
      if show then
        var showing := ShowingIndices(c.tracks);
        var tracks := seq(|c.tracks|, i requires 0 <= i < |c.tracks| =>
          if c.tracks[i].mode == Showing then LiftActive(c.tracks[i]) else c.tracks[i]);
        c1.(tracks := tracks, listeners := c1.listeners + multiset(showing), cleanup := Last(showing))
      else
        var tracks := seq(|c.tracks|, i requires 0 <= i < |c.tracks| =>
          if c.tracks[i].mode == Showing then ResetTrack(c.tracks[i]) else c.tracks[i]);
        c1.(tracks := tracks)
  }

  /** A `cuechange` event on track `k` with new active cues: the listeners
      registered on the track lift them. */
  function CueChange(c: Controller, k: nat, active: set<nat>): (r: Controller)
    ensures |r.tracks| == |c.tracks|
    ensures k < |c.tracks| ==> r.tracks[k].active == active
    ensures k < |c.tracks| && k in c.listeners ==> r.tracks[k] == LiftActive(c.tracks[k].(active := active))
    ensures k < |c.tracks| && k !in c.listeners ==> r.tracks[k] == c.tracks[k].(active := active)
    ensures forall i :: 0 <= i < |c.tracks| && i != k ==> r.tracks[i] == c.tracks[i]
  {
    if k >= |c.tracks| then c
    else
      var t := c.tracks[k].(active := active);
      c.(tracks := c.tracks[k := if k in c.listeners then LiftActive(t) else t])
  }

  /** The clean-up the controller registers with the player: the current
      `cleanup()`, then the `showControls` listener is detached. */
  function Dispose(c: Controller): (r: Controller)
    ensures !r.attached && r.cleanup.None?
    ensures r.tracks == c.tracks && r.activeTrack == c.activeTrack && r.pending == c.pending
    ensures c.cleanup.Some? ==> r.listeners == c.listeners - multiset{c.cleanup.value}
    ensures c.cleanup.None? ==> r.listeners == c.listeners
  {
    RunCleanup(c).(attached := false)
  }

  /** The controller as created: the `showControls` listener is attached
      and, as the signal calls a new listener at once, runs with the current
      value. */
  function Create(tracks: seq<Track>, show: bool): (r: Controller)
    ensures r.attached && r.activeTrack.None? && r.pending == []
    ensures |r.tracks| == |tracks|
    ensures show ==> forall i :: 0 <= i < |tracks| ==>
      r.tracks[i] == if tracks[i].mode == Showing then LiftActive(tracks[i]) else tracks[i]
    ensures !show ==> forall i :: 0 <= i < |tracks| ==>
      r.tracks[i] == if tracks[i].mode == Showing then ResetTrack(tracks[i]) else tracks[i]
    ensures show ==> r.listeners == multiset(ShowingIndices(tracks)) && r.cleanup == Last(ShowingIndices(tracks))
    ensures !show ==> r.listeners == multiset{} && r.cleanup.None?
  {
    ControlsShown(Controller(tracks, None, [], multiset{}, None, true), show)
  }

  /** With at most one track showing, a controller created and then disposed
      leaves no `cuechange` listener behind, whether the controls were shown
      or hidden at creation. */
  lemma CreateThenDispose(tracks: seq<Track>, show: bool)
    requires |ShowingIndices(tracks)| <= 1
    ensures Dispose(Create(tracks, show)).listeners == multiset{}
    ensures !Dispose(Create(tracks, show)).attached
  {
    var showing := ShowingIndices(tracks);
    if show && |showing| == 1 {
      assert multiset(showing) == multiset{showing[0]};
    }
  }

  // ---------------------------------------------------------------------------
  // Properties

  /** The modes after a selection depend only on the last chosen id. */
  lemma SelectLastWins(c: Controller, a: string, b: string)
    ensures forall i :: 0 <= i < |c.tracks| ==>
      Select(Select(c, a), b).tracks[i].mode == Select(c, b).tracks[i].mode
  {
  }

  predicate UniqueIds(tracks: seq<Track>) {
    forall i, j :: 0 <= i < j < |tracks| ==> tracks[i].id != tracks[j].id
  }

  /** With distinct ids, selecting a track that exists leaves exactly it
      showing, whatever was selected before. */
  lemma SelectShowsOne(c: Controller, a: string, k: nat)
    requires UniqueIds(c.tracks) && k < |c.tracks|
    ensures var r := Select(c, a);
      var tracks := Select(r, c.tracks[k].id).tracks;
      ShowingIndices(tracks) == [k] && Select(r, c.tracks[k].id).activeTrack == Some(c.tracks[k].id)
  {
    var r := Select(c, a);
    var tracks := Select(r, c.tracks[k].id).tracks;
    ShowingOnly(tracks, k);
  }

  lemma {:induction false} ShowingOnly(tracks: seq<Track>, k: nat)
    requires k < |tracks| && tracks[k].mode == Showing
    requires forall i :: 0 <= i < |tracks| && i != k ==> tracks[i].mode != Showing
    ensures ShowingIndices(tracks) == [k]
  {
    var n := |tracks| - 1;
    if k < n {
      ShowingOnly(tracks[..n], k);
    } else {
      NoneShowing(tracks[..n]);
    }
  }

  lemma {:induction false} NoneShowing(tracks: seq<Track>)
    requires forall i :: 0 <= i < |tracks| ==> tracks[i].mode != Showing
    ensures ShowingIndices(tracks) == []
  {
    if tracks != [] {
      NoneShowing(tracks[..|tracks| - 1]);
    }
  }

  /** With distinct ids and no lift pending, selecting a track queues
      exactly its lift: when the 25 ms timer fires, that track, now showing,
      has its active cues lifted, no lift is left pending, and every other
      track is as the selection left it. */
  lemma SelectThenLift(c: Controller, k: nat)
    requires UniqueIds(c.tracks) && k < |c.tracks| && c.pending == []
    ensures var s := Select(c, c.tracks[k].id);
      var r := DelayedLift(s);
      && s.pending == [k]
      && r.pending == []
      && r.tracks[k] == LiftActive(s.tracks[k]) && r.tracks[k].mode == Showing
      && forall i :: 0 <= i < |c.tracks| && i != k ==> r.tracks[i] == s.tracks[i]
  {
    MatchingOnly(c.tracks, k);
    assert [] + [k] == [k];
  }

  lemma {:induction false} MatchingOnly(tracks: seq<Track>, k: nat)
    requires k < |tracks| && forall i :: 0 <= i < |tracks| && i != k ==> tracks[i].id != tracks[k].id
    ensures Matching(tracks, tracks[k].id) == [k]
  {
    var n := |tracks| - 1;
    if k < n {
      MatchingOnly(tracks[..n], k);
    } else {
      NoneMatching(tracks[..n], tracks[k].id);
    }
  }

  lemma {:induction false} NoneMatching(tracks: seq<Track>, id: string)
    requires forall i :: 0 <= i < |tracks| ==> tracks[i].id != id
    ensures Matching(tracks, id) == []
  {
    if tracks != [] {
      NoneMatching(tracks[..|tracks| - 1], id);
    }
  }

  /** A delayed lift moves only active cues, and only in the track it was
      queued for. */
  lemma DelayedLiftTouchesActiveOnly(c: Controller, j: nat)
    requires c.pending != [] && c.pending[0] < |c.tracks|
    requires j < |c.tracks[c.pending[0]].cues| && j !in c.tracks[c.pending[0]].active
    ensures DelayedLift(c).tracks[c.pending[0]].cues[j] == c.tracks[c.pending[0]].cues[j]
  {
  }

  /** Every `cuechange` listener is the one the current `cleanup` removes. */
  predicate ListenersAccounted(c: Controller) {
    c.listeners == (if c.cleanup.Some? then multiset{c.cleanup.value} else multiset{})
  }

  /** Showing the controls keeps the listeners accounted for as long as at
      most one track is showing; hiding them always does. */
  lemma ControlsShownAccounted(c: Controller, show: bool)
    requires ListenersAccounted(c)
    requires |ShowingIndices(c.tracks)| <= 1
    ensures ListenersAccounted(ControlsShown(c, show))
  {
    if c.attached && show {
      var r := ControlsShown(c, show);
      assert RunCleanup(c).listeners == multiset{};
      OneListenerAccounted(ShowingIndices(c.tracks), r.listeners, r.cleanup);
    }
  }

  /** At most one listener registered, and `cleanup` removing the last one:
      the listeners are accounted for. */
  lemma OneListenerAccounted(showing: seq<nat>, listeners: multiset<nat>, cleanup: Option<nat>)
    requires |showing| <= 1 && listeners == multiset{} + multiset(showing) && cleanup == Last(showing)
    ensures listeners == if cleanup.Some? then multiset{cleanup.value} else multiset{}
  {
    if showing != [] {
      assert showing == [showing[0]];
    }
  }

  /** With the listeners accounted for, disposing the controller leaves no
      `cuechange` listener behind. */
  lemma DisposeRemovesListeners(c: Controller)
    requires ListenersAccounted(c)
    ensures Dispose(c).listeners == multiset{}
  {
  }

  /** With two tracks showing, showing the controls registers two listeners
      while `cleanup` can remove only one of them. */
  lemma TwoShowingLeaves(c: Controller)
    requires c.attached && c.cleanup.None? && c.listeners == multiset{}
    requires |c.tracks| == 2 && c.tracks[0].mode == Showing && c.tracks[1].mode == Showing
    ensures Dispose(ControlsShown(c, true)).listeners == multiset{0}
  {
    assert c.tracks[..1][..0] == [];
    assert ShowingIndices(c.tracks[..1]) == [0];
    assert ShowingIndices(c.tracks) == [0, 1];
  }
}
