/** `useGlobalEventController`: registers listeners on the window or the
    document and queues, for each, the clean-up that removes it.

    A DOM target keeps at most one listener per (event type, callback), so
    the listeners of both targets form a set. Callbacks are named by
    identifiers. */
module GlobalEvents {
  import opened Js

  datatype EventTarget = Window | Document

  datatype Listener = Listener(target: EventTarget, event: string, callback: nat)

  /** The listeners on the two targets, and the shared clean-up list: each
      entry removes one listener. */
  datatype Registry = Registry(listeners: set<Listener>, cleanups: seq<Listener>)

  /** `on(event, cb, target = "window")`: the listener is added and one
      clean-up that removes exactly it is appended. */
  function On(r: Registry, event: string, callback: nat, target: Option<EventTarget>): (r': Registry)
    ensures var l := Listener(target.GetOr(Window), event, callback);
      r'.listeners == r.listeners + {l} && r'.cleanups == r.cleanups + [l]
  {
    var l := Listener(target.GetOr(Window), event, callback);
    Registry(r.listeners + {l}, r.cleanups + [l])
  }

  /** Without a target the listener goes on the window. */
  lemma DefaultTargetIsWindow(r: Registry, event: string, callback: nat)
    ensures On(r, event, callback, None) == On(r, event, callback, Some(Window))
  {
  }

  /** One clean-up: `removeEventListener` with the same target, event and
      callback. */
  function RunCleanup(listeners: set<Listener>, l: Listener): (s: set<Listener>)
    ensures s == listeners - {l}
  {
    listeners - {l}
  }

  /** Running the clean-ups in order, as the player does on dismount. */
  function RunCleanups(listeners: set<Listener>, cleanups: seq<Listener>): set<Listener>
    decreases |cleanups|
  {
    if cleanups == [] then listeners else RunCleanups(RunCleanup(listeners, cleanups[0]), cleanups[1..])
  }

  /** Running clean-ups removes exactly the listeners they were made for. */
  lemma {:induction false} RunCleanupsRemoves(listeners: set<Listener>, cleanups: seq<Listener>)
    ensures RunCleanups(listeners, cleanups) == listeners - set k | 0 <= k < |cleanups| :: cleanups[k]
    decreases |cleanups|
  {
    if cleanups != [] {
      RunCleanupsRemoves(RunCleanup(listeners, cleanups[0]), cleanups[1..]);
      var all := set k | 0 <= k < |cleanups| :: cleanups[k];
      var rest := set k | 0 <= k < |cleanups[1..]| :: cleanups[1..][k];
      assert all == {cleanups[0]} + rest by {
        forall l | l in all ensures l in {cleanups[0]} + rest {
          var k :| 0 <= k < |cleanups| && cleanups[k] == l;
          if k > 0 {
            assert cleanups[1..][k - 1] == l;
          }
        }
      }
    }
  }

  /** A registration: event, callback and optional target. */
  datatype Registration = Registration(event: string, callback: nat, target: Option<EventTarget>)

  function ListenerOf(g: Registration): Listener {
    Listener(g.target.GetOr(Window), g.event, g.callback)
  }

  function OnAll(r: Registry, gs: seq<Registration>): Registry
    decreases |gs|
  {
    if gs == [] then r else OnAll(On(r, gs[0].event, gs[0].callback, gs[0].target), gs[1..])
  }

  /** Registering a run of listeners adds them and appends one clean-up for
      each, in order. */
  lemma {:induction false} OnAllEffect(r: Registry, gs: seq<Registration>)
    ensures OnAll(r, gs).cleanups == r.cleanups + seq(|gs|, k requires 0 <= k < |gs| => ListenerOf(gs[k]))
    ensures OnAll(r, gs).listeners == r.listeners + set k | 0 <= k < |gs| :: ListenerOf(gs[k])
    decreases |gs|
  {
    if gs != [] {
      var r1 := On(r, gs[0].event, gs[0].callback, gs[0].target);
      OnAllEffect(r1, gs[1..]);
      var tail := seq(|gs| - 1, k requires 0 <= k < |gs| - 1 => ListenerOf(gs[1..][k]));
      var all := seq(|gs|, k requires 0 <= k < |gs| => ListenerOf(gs[k]));
      assert all == [ListenerOf(gs[0])] + tail;
      var setAll := set k | 0 <= k < |gs| :: ListenerOf(gs[k]);
      var setTail := set k | 0 <= k < |gs| - 1 :: ListenerOf(gs[1..][k]);
      assert setAll == {ListenerOf(gs[0])} + setTail by {
        forall l | l in setAll ensures l in {ListenerOf(gs[0])} + setTail {
          var k :| 0 <= k < |gs| && ListenerOf(gs[k]) == l;
          if k > 0 {
            assert ListenerOf(gs[1..][k - 1]) == l;
          }
        }
      }
    }
  }

  /** Registering listeners that were not already on their targets and then
      running the clean-ups they queued puts the listeners back as they
      were. */
  lemma RegisterThenCleanUp(listeners: set<Listener>, gs: seq<Registration>)
    requires forall k :: 0 <= k < |gs| ==> ListenerOf(gs[k]) !in listeners
    ensures RunCleanups(OnAll(Registry(listeners, []), gs).listeners, OnAll(Registry(listeners, []), gs).cleanups) == listeners
  {
    var r := OnAll(Registry(listeners, []), gs);
    OnAllEffect(Registry(listeners, []), gs);
    RunCleanupsRemoves(r.listeners, r.cleanups);
    var added := set k | 0 <= k < |gs| :: ListenerOf(gs[k]);
    var removed := set k | 0 <= k < |r.cleanups| :: r.cleanups[k];
    assert [] + seq(|gs|, k requires 0 <= k < |gs| => ListenerOf(gs[k])) == r.cleanups;
    assert removed == added by {
      forall l | l in added ensures l in removed {
        var k :| 0 <= k < |gs| && ListenerOf(gs[k]) == l;
        assert r.cleanups[k] == l;
      }
    }
    assert (listeners + added) - added == listeners;
  }
}
