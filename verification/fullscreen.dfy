/** `useFullscreenController`: the `isFullscreen` flag, kept in step with the
    document's fullscreen element through the four vendor-prefixed change
    events, and the fullscreen button's action. */
module Fullscreen {
  import opened Js
  import opened GlobalEvents

  /** The change events listened for on the document. */
  const ChangeEvents: seq<string> := ["webkitfullscreenchange", "mozfullscreenchange", "MSFullscreenChange", "fullscreenchange"]

  /** The flag the controller starts with: out of fullscreen, whatever the
      document's fullscreen element is at that moment. */
  const InitialFullscreen: bool := false

  /** What the fullscreen button asks of the browser. */
  datatype Action = ExitFullscreen | RequestFullscreen

  /** `handleFullscreenBtnClick`: leave fullscreen when in it, otherwise ask
      for the player element to go fullscreen. */
  function Click(isFullscreen: bool): (a: Action)
    ensures a == ExitFullscreen <==> isFullscreen
  {
    if isFullscreen then ExitFullscreen else RequestFullscreen
  }

  /** `getFullScreenElement() == null`: none of the four vendor properties
      holds a value. */
  predicate NoFullscreenElement(standard: bool, webkit: bool, moz: bool, ms: bool) {
    !(standard || webkit || moz || ms)
  }

  /** `handleFullscreenToggle`: the flag follows the document. */
  function Toggle(standard: bool, webkit: bool, moz: bool, ms: bool): (isFullscreen: bool)
    ensures !isFullscreen <==> NoFullscreenElement(standard, webkit, moz, ms)
  {
    if NoFullscreenElement(standard, webkit, moz, ms) then false else true
  }

  /** The flag after a request was answered: a granted request raises a change
      event; a denied one only logs a warning and leaves the flag alone. */
  function AfterRequest(isFullscreen: bool, granted: bool): (r: bool)
    ensures !granted ==> r == isFullscreen
    ensures granted ==> r
  {
    if granted then Toggle(true, false, false, false) else isFullscreen
  }

  /** The flag after a click and the browser's answer: an exit always
      succeeds and its change event finds no fullscreen element; a request
      is answered by `granted`. */
  function AfterClick(isFullscreen: bool, granted: bool): (r: bool)
    ensures r <==> !isFullscreen && granted
  {
    match Click(isFullscreen)
    case ExitFullscreen => Toggle(false, false, false, false)
    case RequestFullscreen => AfterRequest(isFullscreen, granted)
  }

  /** A click in fullscreen exits it, whatever the browser would answer to a
      request; a click outside asks for it and ends in fullscreen exactly
      when the request is granted; so a granted click followed by a second
      click comes back out. */
  lemma ClickRoundTrip(isFullscreen: bool, granted: bool)
    ensures isFullscreen ==> Click(isFullscreen) == ExitFullscreen && !AfterClick(isFullscreen, granted)
    ensures !isFullscreen ==> Click(isFullscreen) == RequestFullscreen && AfterClick(isFullscreen, granted) == granted
    ensures !AfterClick(AfterClick(false, true), granted)
  {
  }

  /** The controller starts out of fullscreen, so its first click requests
      fullscreen and the flag then follows the browser's answer, even when
      the document was already in fullscreen before it was created. */
  lemma FirstClickRequests(granted: bool, standard: bool, webkit: bool, moz: bool, ms: bool)
    ensures Click(InitialFullscreen) == RequestFullscreen
    ensures AfterClick(InitialFullscreen, granted) == granted
    ensures !NoFullscreenElement(standard, webkit, moz, ms) ==> InitialFullscreen != Toggle(standard, webkit, moz, ms)
  {
  }

  /** The registrations made on creation: the one handler on the document for
      each change event. */
  function Registrations(handler: nat): (gs: seq<Registration>)
    ensures |gs| == |ChangeEvents|
    ensures forall k :: 0 <= k < |gs| ==> gs[k] == Registration(ChangeEvents[k], handler, Some(Document))
  {
    seq(|ChangeEvents|, k requires 0 <= k < |ChangeEvents| => Registration(ChangeEvents[k], handler, Some(Document)))
  }

  /** What the dismount clean-up removes: the same four listeners. */
  function Removals(handler: nat): seq<Listener> {
    seq(|ChangeEvents|, k requires 0 <= k < |ChangeEvents| => Listener(Document, ChangeEvents[k], handler))
  }

  /** The dismount clean-up removes exactly the listeners added on creation,
      so the document's listeners are back as they were. */
  lemma AddThenRemove(listeners: set<Listener>, handler: nat)
    requires forall k :: 0 <= k < |ChangeEvents| ==> Listener(Document, ChangeEvents[k], handler) !in listeners
    ensures RunCleanups(OnAll(Registry(listeners, []), Registrations(handler)).listeners, Removals(handler)) == listeners
  {
    var gs := Registrations(handler);
    var r := OnAll(Registry(listeners, []), gs);
    OnAllEffect(Registry(listeners, []), gs);
    assert r.cleanups == Removals(handler);
    RegisterThenCleanUp(listeners, gs);
  }
}
