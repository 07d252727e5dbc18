/** A push-button: an edge-triggered state machine whose two counters are
    cleared by the query that reads them. */
module Buttons {

  /** The three fields of a button. */
  datatype State = State(isPressed: bool, wasPressed: bool, presses: nat)

  const Initial := State(false, false, 0)

  /** A down-edge: pressed, flagged, counted once more. */
  function Down(s: State): State {
    State(true, true, s.presses + 1)
  }

  /** An up-edge: released; the flag and the count are kept. */
  function Up(s: State): State {
    s.(isPressed := false)
  }

  /** What `was_pressed()` leaves behind. */
  function AfterWasPressed(s: State): State {
    s.(wasPressed := false)
  }

  /** What `get_presses()` leaves behind. */
  function AfterGetPresses(s: State): State {
    s.(presses := 0)
  }

  /** Everything that can happen to a button: the two edges injected by a
      viewer, the two read-and-clear queries of application code, and reset. */
  datatype Event = Press | Release | QueryWasPressed | QueryPresses | ResetButton

  function Step(s: State, e: Event): State {
    match e
    case Press => Down(s)
    case Release => Up(s)
    case QueryWasPressed => AfterWasPressed(s)
    case QueryPresses => AfterGetPresses(s)
    case ResetButton => Initial
  }

  /** The state of a fresh button after the events `evs`, in order. */
  function Run(evs: seq<Event>): State {
    if evs == [] then Initial else Step(Run(evs[..|evs| - 1]), evs[|evs| - 1])
  }

  /** The position just after the last event of `evs` that clears `clears`
      (0 when there is none). */
  function LastClear(evs: seq<Event>, clears: set<Event>): (k: nat)
    ensures k <= |evs|
  {
    if evs == [] then 0
    else if evs[|evs| - 1] in clears then |evs|
    else LastClear(evs[..|evs| - 1], clears)
  }

  /** The number of `Press` events in `evs`. */
  function CountPresses(evs: seq<Event>): nat {
    if evs == [] then 0
    else CountPresses(evs[..|evs| - 1]) + (if evs[|evs| - 1] == Press then 1 else 0)
  }

  lemma {:induction false} CountPressesSuffix(evs: seq<Event>, e: Event, k: nat)
    requires k <= |evs|
    ensures CountPresses((evs + [e])[k..]) == CountPresses(evs[k..]) + (if e == Press then 1 else 0)
  {
    assert (evs + [e])[k..] == evs[k..] + [e];
    assert (evs[k..] + [e])[..|evs[k..] + [e]| - 1] == evs[k..];
  }

  /** The counter's invariant: `presses` is the number of
      down-edges since the last `get_presses()` (or reset). */
  lemma {:induction false} PressesCountDownEdges(evs: seq<Event>)
    ensures Run(evs).presses == CountPresses(evs[LastClear(evs, {QueryPresses, ResetButton})..])
  {
    if evs != [] {
      var p, e := evs[..|evs| - 1], evs[|evs| - 1];
      assert evs == p + [e];
      PressesCountDownEdges(p);
      if e !in {QueryPresses, ResetButton} {
        CountPressesSuffix(p, e, LastClear(p, {QueryPresses, ResetButton}));
      }
    }
  }

  /** The flag's invariant: `was_pressed` holds exactly when a
      down-edge happened since the last `was_pressed()` (or reset). */
  lemma {:induction false} FlagRecordsDownEdge(evs: seq<Event>)
    ensures Run(evs).wasPressed <==>
      exists i :: LastClear(evs, {QueryWasPressed, ResetButton}) <= i < |evs| && evs[i] == Press
  {
    if evs != [] {
      var p, e := evs[..|evs| - 1], evs[|evs| - 1];
      FlagRecordsDownEdge(p);
      var k := LastClear(p, {QueryWasPressed, ResetButton});
      if e !in {QueryWasPressed, ResetButton} && e != Press {
        assert (exists i :: k <= i < |evs| && evs[i] == Press) ==>
               (exists i :: k <= i < |p| && p[i] == Press);
      }
    }
  }

  /** `is_pressed` is true exactly when the latest edge (or reset) was a
      down-edge. */
  lemma {:induction false} PressedFollowsLastEdge(evs: seq<Event>)
    ensures Run(evs).isPressed <==>
      var k := LastClear(evs, {Press, Release, ResetButton});
      k > 0 && evs[k - 1] == Press
  {
    if evs != [] {
      PressedFollowsLastEdge(evs[..|evs| - 1]);
    }
  }

  class Button {
    var isPressed: bool
    var wasPressed: bool
    var presses: nat

    /** The button's fields as one value. */
    function Snapshot(): State
      reads this
    {
      State(isPressed, wasPressed, presses)
    }

    constructor ()
      ensures Snapshot() == Initial
    {
      isPressed, wasPressed, presses := false, false, 0;
    }

    method IsPressed() returns (r: bool)
      ensures r == isPressed
    {
      r := isPressed;
    }

    /** Returns the flag and clears it. */
    method WasPressed() returns (r: bool)
      modifies this
      ensures r == old(wasPressed)
      ensures Snapshot() == AfterWasPressed(old(Snapshot()))
    {
      r := wasPressed;
      wasPressed := false;
    }

    /** Returns the count and clears it. */
    method GetPresses() returns (r: nat)
      modifies this
      ensures r == old(presses)
      ensures Snapshot() == AfterGetPresses(old(Snapshot()))
    {
      r := presses;
      presses := 0;
    }

    method RegisterDown()
      modifies this
      ensures Snapshot() == Down(old(Snapshot()))
    {
      isPressed := true;
      wasPressed := true;
      presses := presses + 1;
    }

    method RegisterUp()
      modifies this
      ensures Snapshot() == Up(old(Snapshot()))
    {
      isPressed := false;
    }

    method Reset()
      modifies this
      ensures Snapshot() == Initial
    {
      isPressed, wasPressed, presses := false, false, 0;
    }

    /** The button's part of a viewer's initial snapshot. */
    method GetInitialData() returns (r: bool)
      ensures r == isPressed
    {
      r := isPressed;
    }
  }

  /** Two down-edges without an up-edge are two presses; each read-and-clear
      query reports its value once, and an up-edge releases the button. */
  method TwoPressesScenario() returns (first: nat, second: nat, flag: bool, again: bool, held: bool)
    ensures first == 2 && second == 0
    ensures flag && !again
    ensures !held
  {
    var b := new Button();
    b.RegisterDown();
    b.RegisterDown();
    first := b.GetPresses();
    second := b.GetPresses();
    flag := b.WasPressed();
    again := b.WasPressed();
    b.RegisterUp();
    held := b.IsPressed();
  }
}
