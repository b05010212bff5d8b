/**
 * The keyboard handler: it passes a key to the game when it goes down, and
 * ignores further key-downs until the held key comes back up.
 */
module Input {
  import opened Wrappers

  /** The held key (if any) and whether a key is down. */
  datatype HandlerState = HandlerState(key: Option<string>, pressing: bool)

  /** The state the handler starts in and keeps: a key is held exactly when one is pressed. */
  predicate Consistent(s: HandlerState) {
    s.pressing <==> s.key.Some?
  }

  /** A key-down: ignored while pressing, else the key goes to the game and is held. */
  function OnKeyDown(s: HandlerState, k: string): (HandlerState, Option<string>) {
    if s.pressing then (s, None) else (HandlerState(Some(k), true), Some(k))
  }

  /** A key-up: releases only when it is the held key. */
  function OnKeyUp(s: HandlerState, k: string): HandlerState {
    if Some(k) != s.key then s else HandlerState(None, false)
  }

  datatype KeyEvent = KeyDown(key: string) | KeyUp(key: string)

  /** The handler state after a run of events. */
  function Final(s: HandlerState, events: seq<KeyEvent>): HandlerState
    decreases |events|
  {
    if events == [] then s
    else
      var next := match events[0]
        case KeyDown(k) => OnKeyDown(s, k).0
        case KeyUp(k) => OnKeyUp(s, k);
      Final(next, events[1..])
  }

  /** The keys passed to the game during a run of events, in order. */
  function Dispatched(s: HandlerState, events: seq<KeyEvent>): seq<string>
    decreases |events|
  {
    if events == [] then []
    else
      match events[0]
      case KeyDown(k) =>
        var (next, out) := OnKeyDown(s, k);
        (if out.Some? then [out.value] else []) + Dispatched(next, events[1..])
      case KeyUp(k) => Dispatched(OnKeyUp(s, k), events[1..])
  }

  /** How many key-ups in a run of events released the held key. */
  function Releases(s: HandlerState, events: seq<KeyEvent>): nat
    decreases |events|
  {
    if events == [] then 0
    else
      match events[0]
      case KeyDown(k) => Releases(OnKeyDown(s, k).0, events[1..])
      case KeyUp(k) =>
        (if OnKeyUp(s, k) != s then 1 else 0) + Releases(OnKeyUp(s, k), events[1..])
  }

  function Held(s: HandlerState): nat { if s.pressing then 1 else 0 }

  /**
   * Key-downs that reach the game and releases alternate: over any run of
   * events their counts differ only by the change in whether a key is held.
   * So the game sees at most one key per press-release cycle.
   */
  lemma {:induction false} DispatchBalance(s: HandlerState, events: seq<KeyEvent>)
    requires Consistent(s)
    ensures Consistent(Final(s, events))
    ensures |Dispatched(s, events)| + Held(s) == Releases(s, events) + Held(Final(s, events))
    ensures |Dispatched(s, events)| <= Releases(s, events) + 1
    decreases |events|
  {
    if events != [] {
      match events[0]
      case KeyDown(k) =>
        DispatchBalance(OnKeyDown(s, k).0, events[1..]);
      case KeyUp(k) =>
        DispatchBalance(OnKeyUp(s, k), events[1..]);
    }
  }

  /** The handler object: the key it holds and whether a key is pressed. */
  class InputHandler {
    var key: Option<string>
    var pressing: bool

    function State(): HandlerState
      reads this
    {
      HandlerState(key, pressing)
    }

    constructor ()
      ensures key == None && !pressing && Consistent(State())
    {
      key, pressing := None, false;
    }

    /** Returns the key passed to the game, if any. */
    method HandleKeyDown(k: string) returns (dispatched: Option<string>)
      modifies this
      ensures (State(), dispatched) == OnKeyDown(old(State()), k)
      ensures old(pressing) ==> dispatched == None && key == old(key) && pressing
      ensures !old(pressing) ==> dispatched == Some(k) && key == Some(k) && pressing
    {
      if pressing {
        return None;
      }
      dispatched := Some(k);
      key := Some(k);
      pressing := true;
    }

    method HandleKeyUp(k: string)
      modifies this
      ensures State() == OnKeyUp(old(State()), k)
      ensures old(key) == Some(k) ==> key == None && !pressing
      ensures old(key) != Some(k) ==> key == old(key) && pressing == old(pressing)
    {
      if Some(k) != key {
        return;
      }
      key := None;
      pressing := false;
    }
  }
}
