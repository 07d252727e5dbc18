/** The device: the two buttons and the display, the registry of connected
    viewers, and the handlers of a viewer's connection. Every message the
    device sends goes to a viewer as an envelope: a JSON object whose
    `message_name` names the message and whose other keys are its data. */
module Microbit {
  import opened Values
  import opened Buttons
  import opened Displays
  import Pixels

  /** `send`: `{'message_name': name}` updated with every key of `data`, so a
      key of `data` wins over the name. */
  function Envelope(name: string, data: map<string, Value>): (r: map<string, Value>)
    ensures r.Keys == data.Keys + {"message_name"}
    ensures forall k :: k in data ==> r[k] == data[k]
    ensures "message_name" !in data ==> r["message_name"] == Str(name)
  {
    map["message_name" := Str(name)] + data
  }

  /** A viewer that receives an envelope whose data has no `message_name`
      key reads back both the name and the data. */
  lemma EnvelopeRoundTrip(name: string, data: map<string, Value>)
    requires "message_name" !in data
    ensures Envelope(name, data)["message_name"] == Str(name)
    ensures Envelope(name, data) - {"message_name"} == data
  {
    var r := Envelope(name, data);
    assert (r - {"message_name"}).Keys == data.Keys;
  }

  /** A display message, broadcast through the rebound `_send_message`,
      reaches a viewer under its own name and with its own data. */
  lemma DisplayEnvelope(m: Message)
    ensures Envelope(MessageName(m), MessageData(m))["message_name"] == Str(MessageName(m))
    ensures Envelope(MessageName(m), MessageData(m)) - {"message_name"} == MessageData(m)
  {
    EnvelopeRoundTrip(MessageName(m), MessageData(m));
  }

  /** One connected viewer. `wire` is every JSON object sent to it, oldest
      first. */
  class Session {
    var wire: seq<map<string, Value>>

    constructor ()
      ensures wire == []
    {
      wire := [];
    }

    /** `send(message_name, data)`: one envelope on the wire. */
    method Send(name: string, data: map<string, Value>)
      modifies this
      ensures wire == old(wire) + [Envelope(name, data)]
    {
      wire := wire + [Envelope(name, data)];
    }
  }

  /** A text frame after JSON decoding: malformed, or a JSON value. */
  datatype Parsed = Malformed | Json(value: Value)

  /** What a viewer sends: a binary frame, or a text frame. */
  datatype Inbound = Binary | Text(parsed: Parsed)

  datatype Which = ButtonA | ButtonB

  /** What `_on_button_change` does: nothing, or one edge on one button. */
  datatype Change = NoButton | Edge(which: Which, down: bool)

  /** The selection of `_on_button_change`: the id must be the string "A" or
      "B" (a missing id is None and selects nothing); `is_pressed` defaults
      to False and is tested for truth. */
  function ButtonChange(data: map<string, Value>): (c: Change)
    ensures c.Edge? <==> "id" in data && data["id"] in {Str("A"), Str("B")}
    ensures c.Edge? ==> (c.which == ButtonA <==> data["id"] == Str("A"))
    ensures c.Edge? ==> (c.down <==> "is_pressed" in data && Truthy(data["is_pressed"]))
  {
    var id := Get(data, "id", None);
    var isPressed := Get(data, "is_pressed", Bool(false));
    if id == Str("A") then Edge(ButtonA, Truthy(isPressed))
    else if id == Str("B") then Edge(ButtonB, Truthy(isPressed))
    else NoButton
  }

  /** The state of button `which` after change `c`. */
  function Affect(s: State, which: Which, c: Change): State {
    if c.Edge? && c.which == which then (if c.down then Down(s) else Up(s)) else s
  }

  /** What `onMessage` makes of a frame. */
  datatype Dispatch =
    | Dropped
    | Crashed(error: Error)
    | Delivered(change: Change)

  /** The filter chain of `onMessage`: binary frames, malformed JSON, values
      other than an object and names other than BUTTON_CHANGE are dropped;
      otherwise the `data` field (default `{}`) goes to `_on_button_change`,
      whose first `.get` raises AttributeError when it is not an object. */
  function Route(m: Inbound): (d: Dispatch)
    ensures d != Dropped <==>
      m.Text? && m.parsed.Json? && m.parsed.value.Dict? &&
      "message_name" in m.parsed.value.entries &&
      m.parsed.value.entries["message_name"] == Str("BUTTON_CHANGE")
    ensures d != Dropped ==>
      var e := m.parsed.value.entries;
      (d.Crashed? <==> "data" in e && !e["data"].Dict?) &&
      (d.Crashed? ==> d.error == AttributeError) &&
      (d.Delivered? ==> d.change == ButtonChange(if "data" in e then e["data"].entries else map[]))
  {
    if m.Binary? || m.parsed.Malformed? || !m.parsed.value.Dict? then Dropped
    else
      var payload := m.parsed.value.entries;
      if Get(payload, "message_name", None) != Str("BUTTON_CHANGE") then Dropped
      else
        var data := Get(payload, "data", Dict(map[]));
        if !data.Dict? then Crashed(AttributeError) else Delivered(ButtonChange(data.entries))
  }

  /** The change a frame makes to the buttons. */
  function Effect(m: Inbound): Change {
    if Route(m).Delivered? then Route(m).change else NoButton
  }

  /** A BUTTON_CHANGE without `data` is handled as `{}`: no id, no change. */
  lemma MissingDataChangesNothing(payload: map<string, Value>)
    requires "message_name" in payload && payload["message_name"] == Str("BUTTON_CHANGE")
    requires "data" !in payload
    ensures Route(Text(Json(Dict(payload)))) == Delivered(NoButton)
    ensures Effect(Text(Json(Dict(payload)))) == NoButton
  {
  }

  /** Only a BUTTON_CHANGE object can change a button, and it changes exactly
      the button its id names. */
  lemma OnlyButtonChangeActs(m: Inbound, which: Which, s: State)
    requires Affect(s, which, Effect(m)) != s
    ensures m.Text? && m.parsed.Json? && m.parsed.value.Dict?
    ensures m.parsed.value.entries["message_name"] == Str("BUTTON_CHANGE")
    ensures var e := m.parsed.value.entries;
      "data" in e && e["data"].Dict? && "id" in e["data"].entries &&
      e["data"].entries["id"] == (if which == ButtonA then Str("A") else Str("B"))
  {
    assert Effect(m).Edge? && Effect(m).which == which;
  }

  /** The `data` of a viewer's INITIAL_DATA as the source builds it: the
      `button_b` field is read from button A. */
  function InitialPayloadAsWritten(a: State, b: State, entries: seq<PixelEntry>, on: bool): (r: map<string, Value>)
    ensures r.Keys == {"button_a", "button_b", "display"}
    ensures r["button_a"] == Bool(a.isPressed) && r["button_b"] == r["button_a"]
    ensures r["display"] == Dict(map["pixels" := EntriesValue(entries), "is_on" := Bool(on)])
  {
    map[
      "button_a" := Bool(a.isPressed),
      "button_b" := Bool(a.isPressed),
      "display" := Dict(map["pixels" := EntriesValue(entries), "is_on" := Bool(on)])
    ]
  }

  /** The `data` of INITIAL_DATA with each button reporting its own state. */
  function InitialPayload(a: State, b: State, entries: seq<PixelEntry>, on: bool): (r: map<string, Value>)
    ensures r.Keys == {"button_a", "button_b", "display"}
    ensures r["button_a"] == Bool(a.isPressed) && r["button_b"] == Bool(b.isPressed)
    ensures r["display"] == Dict(map["pixels" := EntriesValue(entries), "is_on" := Bool(on)])
  {
    map[
      "button_a" := Bool(a.isPressed),
      "button_b" := Bool(b.isPressed),
      "display" := Dict(map["pixels" := EntriesValue(entries), "is_on" := Bool(on)])
    ]
  }

  /** What a viewer reads as the two buttons' states from an INITIAL_DATA
      envelope. */
  datatype Reading = Unreadable | Pressed(a: bool, b: bool)

  function ReadButtons(envelope: map<string, Value>): Reading {
    if "button_a" in envelope && envelope["button_a"].Bool? &&
       "button_b" in envelope && envelope["button_b"].Bool?
    then Pressed(envelope["button_a"].b, envelope["button_b"].b)
    else Unreadable
  }

  /** The source's payload shows button A's state for button B: with A held
      and B released, the viewer reads B as held. */
  lemma InitialPayloadMisreportsButtonB(entries: seq<PixelEntry>, on: bool)
    ensures var a, b := Down(Initial), Initial;
      var envelope := Envelope("INITIAL_DATA", InitialPayloadAsWritten(a, b, entries, on));
      ReadButtons(envelope) == Pressed(true, true) && ReadButtons(envelope).b != b.isPressed
  {
    var a, b := Down(Initial), Initial;
    var data := InitialPayloadAsWritten(a, b, entries, on);
    assert Envelope("INITIAL_DATA", data)["button_b"] == data["button_b"];
  }

  /** With the payload corrected, a viewer reads back both buttons' states,
      whatever they are, and the display snapshot. */
  lemma InitialPayloadReportsEachButton(a: State, b: State, entries: seq<PixelEntry>, on: bool)
    ensures var envelope := Envelope("INITIAL_DATA", InitialPayload(a, b, entries, on));
      ReadButtons(envelope) == Pressed(a.isPressed, b.isPressed) &&
      envelope["display"] == Dict(map["pixels" := EntriesValue(entries), "is_on" := Bool(on)])
  {
    var data := InitialPayload(a, b, entries, on);
    assert "message_name" !in data;
    assert Envelope("INITIAL_DATA", data)["button_a"] == data["button_a"];
    assert Envelope("INITIAL_DATA", data)["button_b"] == data["button_b"];
  }

  /** The source's payload agrees with the corrected one exactly when the two
      buttons agree on being pressed. */
  lemma AsWrittenAgreesOnlyWhenButtonsAgree(a: State, b: State, entries: seq<PixelEntry>, on: bool)
    ensures InitialPayloadAsWritten(a, b, entries, on) == InitialPayload(a, b, entries, on) <==>
      a.isPressed == b.isPressed
  {
    if InitialPayloadAsWritten(a, b, entries, on) == InitialPayload(a, b, entries, on) {
      assert InitialPayloadAsWritten(a, b, entries, on)["button_b"] == InitialPayload(a, b, entries, on)["button_b"];
    }
  }

  /** The payload as written is the corrected payload given button A's state
      for both buttons. */
  lemma AsWrittenReadsButtonATwice(a: State, b: State, entries: seq<PixelEntry>, on: bool)
    ensures InitialPayloadAsWritten(a, b, entries, on) == InitialPayload(a, a, entries, on)
  {
  }

  /** What a log gained is the part after its old length. */
  lemma AddedSuffix<T>(before: seq<T>, added: seq<T>, after: seq<T>)
    requires after == before + added
    ensures after[|before|..] == added
  {
  }

  /** The envelopes a viewer receives for the display messages `ms`, in
      order. */
  function Envelopes(ms: seq<Message>): (es: seq<map<string, Value>>)
    ensures |es| == |ms|
  {
    if ms == [] then []
    else Envelopes(ms[..|ms| - 1]) + [Envelope(MessageName(ms[|ms| - 1]), MessageData(ms[|ms| - 1]))]
  }

  /** The display messages of a redraw, in order, reach a viewer as their
      envelopes: the i-th envelope wraps the i-th message's name and data. */
  lemma {:induction false} EnvelopesCarryMessages(ms: seq<Message>, i: nat)
    requires i < |ms|
    ensures Envelopes(ms)[i] == Envelope(MessageName(ms[i]), MessageData(ms[i]))
  {
    if i < |ms| - 1 {
      EnvelopesCarryMessages(ms[..|ms| - 1], i);
      assert ms[..|ms| - 1][i] == ms[i];
    }
  }

  /** The module-level state of the device: `button_a`, `button_b`,
      `display` and `_websockets`. */
  class Device {
    const buttonA: Button
    const buttonB: Button
    const display: Display
    var websockets: set<Session>

    ghost predicate Valid()
      reads this, display, display.Repr
    {
      buttonA != buttonB &&
      this !in display.Repr && buttonA !in display.Repr && buttonB !in display.Repr &&
      (forall s :: s in websockets ==> s !in display.Repr) &&
      display.Valid()
    }

    constructor ()
      ensures Valid() && fresh(buttonA) && fresh(buttonB) && fresh(display) && fresh(display.Repr)
      ensures buttonA.Snapshot() == Initial && buttonB.Snapshot() == Initial
      ensures display.Cells == ZeroGrid() && display.isOn && display.Sent == []
      ensures websockets == {}
    {
      buttonA := new Button();
      buttonB := new Button();
      display := new Display();
      websockets := {};
    }

    /** `reset`: both buttons and the display back to their initial state;
        nothing is sent. */
    method Reset()
      requires Valid()
      modifies buttonA, buttonB, display
      ensures Valid() && fresh(display.Repr - {display})
      ensures buttonA.Snapshot() == Initial && buttonB.Snapshot() == Initial
      ensures display.Cells == ZeroGrid() && display.isOn && display.Sent == old(display.Sent)
    {
      buttonA.Reset();
      buttonB.Reset();
      display.Reset();
    }

    /** `_on_button_change(data)`: one edge on the selected button, the other
        button untouched; an unknown id changes nothing. */
    method OnButtonChange(data: map<string, Value>)
      requires Valid()
      modifies buttonA, buttonB
      ensures buttonA.Snapshot() == Affect(old(buttonA.Snapshot()), ButtonA, ButtonChange(data))
      ensures buttonB.Snapshot() == Affect(old(buttonB.Snapshot()), ButtonB, ButtonChange(data))
    {
      var id := Get(data, "id", None);
      var isPressed := Get(data, "is_pressed", Bool(false));
      var button: Button;
      if id == Str("A") {
        button := buttonA;
      } else if id == Str("B") {
        button := buttonB;
      } else {
        return;
      }
      if Truthy(isPressed) {
        button.RegisterDown();
      } else {
        button.RegisterUp();
      }
    }

    /** `onMessage`: routes one frame; the buttons change only as `Effect`
        says, and a non-object `data` raises. */
    method OnMessage(m: Inbound) returns (r: Outcome)
      requires Valid()
      modifies buttonA, buttonB
      ensures r == if Route(m).Crashed? then Raised(Route(m).error) else Done
      ensures buttonA.Snapshot() == Affect(old(buttonA.Snapshot()), ButtonA, Effect(m))
      ensures buttonB.Snapshot() == Affect(old(buttonB.Snapshot()), ButtonB, Effect(m))
    {
      if m.Binary? {
        return Done;
      }
      if m.parsed.Malformed? {
        return Done;
      }
      var payload := m.parsed.value;
      if !payload.Dict? {
        return Done;
      }
      var messageName := Get(payload.entries, "message_name", None);
      if messageName == Str("BUTTON_CHANGE") {
        var data := Get(payload.entries, "data", Dict(map[]));
        if !data.Dict? {
          return Raised(AttributeError);
        }
        OnButtonChange(data.entries);
      }
      r := Done;
    }

    /** `_send_message`: the same envelope to every registered viewer, in
        whatever order the set yields them; no other viewer receives it. */
    method SendMessage(name: string, data: map<string, Value>)
      modifies websockets
      ensures forall s :: s in websockets ==> s.wire == old(s.wire) + [Envelope(name, data)]
    {
      var remaining := websockets;
      while remaining != {}
        invariant remaining <= websockets
        invariant forall s :: s in websockets && s !in remaining ==>
          s.wire == old(s.wire) + [Envelope(name, data)]
        invariant forall s :: s in remaining ==> s.wire == old(s.wire)
        decreases remaining
      {
        var s :| s in remaining;
        s.Send(name, data);
        remaining := remaining - {s};
      }
    }

    /** The display's `_send_message`, rebound to the broadcast: every viewer
        receives the display message's envelope. */
    method Publish(m: Message)
      modifies websockets
      ensures forall s :: s in websockets ==>
        s.wire == old(s.wire) + [Envelope(MessageName(m), MessageData(m))]
    {
      SendMessage(MessageName(m), MessageData(m));
    }

    /** The rebound `_send_message` for each of the messages `ms`, in order. */
    method PublishAll(ms: seq<Message>)
      modifies websockets
      ensures forall s :: s in websockets ==> s.wire == old(s.wire) + Envelopes(ms)
    {
      for i := 0 to |ms|
        invariant forall s :: s in websockets ==> s.wire == old(s.wire) + Envelopes(ms[..i])
      {
        assert ms[..i + 1][..i] == ms[..i];
        Publish(ms[i]);
      }
      assert ms[..|ms|] == ms;
    }

    /** Broadcasts, in order, the messages `sent` the display has added to
        its outbox since `before`; the display itself is left as it is. */
    method PublishAdded(ghost before: seq<Message>, sent: seq<Message>)
      requires Valid() && display.Sent == before + sent
      modifies websockets
      ensures Valid() && websockets == old(websockets) && display.Repr == old(display.Repr)
      ensures display.Sent == old(display.Sent) && display.Cells == old(display.Cells) &&
        display.isOn == old(display.isOn)
      ensures forall s :: s in websockets ==> s.wire == old(s.wire) + Envelopes(display.Sent[|before|..])
    {
      AddedSuffix(before, sent, display.Sent);
      PublishAll(sent);
    }

    /** `display.set_pixel` with `_send_message` rebound: on success every
        viewer receives the one DISPLAY_PIXELS envelope the display sent; on
        an error nobody receives anything. */
    method SetPixel(x: int, y: int, value: Value) returns (r: Outcome)
      requires Valid()
      modifies display.Repr, websockets
      ensures Valid() && websockets == old(websockets) && display.Repr == old(display.Repr)
      ensures r == Done <==>
        -MaxX <= x < MaxX && -MaxY <= y < MaxY && Pixels.CheckBrightness(value).Ok?
      ensures r == Done ==>
        display.Sent == old(display.Sent) + [PixelsMessage([PixelEntry(x, y, value.i)])]
      ensures r.Raised? ==>
        r.error == if -MaxX <= x < MaxX && -MaxY <= y < MaxY
                   then Pixels.CheckBrightness(value).error else IndexError
      ensures r.Raised? ==> display.Sent == old(display.Sent) && display.Cells == old(display.Cells)
      ensures r == Done ==>
        (value.Int? &&
         display.Cells == old(display.Cells)[x % MaxX := old(display.Cells)[x % MaxX][y % MaxY := value.i]])
      ensures display.isOn == old(display.isOn)
      ensures forall s :: s in websockets ==>
        s.wire == old(s.wire) + Envelopes(display.Sent[|old(display.Sent)|..])
    {
      ghost var before := display.Sent;
      r := display.SetPixel(x, y, value);
      if r == Done {
        PublishAdded(before, [PixelsMessage([PixelEntry(x, y, value.i)])]);
      } else {
        assert display.Sent[|before|..] == [];
      }
    }

    /** `display.clear` with `_send_message` rebound: every viewer receives
        the one all-dark DISPLAY_PIXELS envelope. */
    method Clear()
      requires Valid()
      modifies display.Repr, websockets
      ensures Valid() && websockets == old(websockets) && display.Repr == old(display.Repr)
      ensures display.Cells == ZeroGrid() && display.isOn == old(display.isOn)
      ensures display.Sent == old(display.Sent) + [PixelsMessage(Entries(ZeroGrid()))]
      ensures forall s :: s in websockets ==>
        s.wire == old(s.wire) + Envelopes(display.Sent[|old(display.Sent)|..])
    {
      ghost var before := display.Sent;
      display.Clear();
      PublishAdded(before, [PixelsMessage(Entries(ZeroGrid()))]);
    }

    /** `display.show(text)` with `_send_message` rebound: every viewer
        receives one DISPLAY_PIXELS envelope per letter, then the all-dark
        one when `clear` is set. */
    method Show(text: string, clear: bool)
      requires Valid()
      modifies display.Repr, websockets
      ensures Valid() && websockets == old(websockets) && display.Repr == old(display.Repr)
      ensures display.Sent == old(display.Sent) + ShowMessages(text) +
        (if clear then [PixelsMessage(Entries(ZeroGrid()))] else [])
      ensures display.Cells == if clear then ZeroGrid() else ShowGrid(text, old(display.Cells))
      ensures display.isOn == old(display.isOn)
      ensures forall s :: s in websockets ==>
        s.wire == old(s.wire) + Envelopes(display.Sent[|old(display.Sent)|..])
    {
      ghost var before := display.Sent;
      display.Show(text, clear);
      var tail := if clear then [PixelsMessage(Entries(ZeroGrid()))] else [];
      Associative(before, ShowMessages(text), tail);
      PublishAdded(before, ShowMessages(text) + tail);
    }

    /** `display.scroll(text)` with `_send_message` rebound: every viewer
        receives one DISPLAY_PIXELS envelope per window of the strip. */
    method Scroll(text: string, monospace: bool)
      requires Valid()
      modifies display.Repr, websockets
      ensures Valid() && websockets == old(websockets) && display.Repr == old(display.Repr)
      ensures display.Sent == old(display.Sent) + ScrollMessages(text, monospace)
      ensures display.Cells == ZeroGrid() && display.isOn == old(display.isOn)
      ensures forall s :: s in websockets ==>
        s.wire == old(s.wire) + Envelopes(display.Sent[|old(display.Sent)|..])
    {
      ghost var before := display.Sent;
      display.Scroll(text, monospace);
      PublishAdded(before, ScrollMessages(text, monospace));
    }

    /** `display.on()` / `display.off()` with `_send_message` rebound: every
        viewer receives one DISPLAY_ON_OFF envelope carrying the new flag. */
    method SetOnOff(on: bool)
      requires Valid()
      modifies display, websockets
      ensures Valid() && websockets == old(websockets) && display.Repr == old(display.Repr) && display.isOn == on
      ensures display.Cells == old(display.Cells)
      ensures display.Sent == old(display.Sent) + [OnOffMessage(on)]
      ensures forall s :: s in websockets ==>
        s.wire == old(s.wire) + Envelopes(display.Sent[|old(display.Sent)|..])
    {
      ghost var before := display.Sent;
      display.SetOnOff(on);
      PublishAdded(before, [OnOffMessage(on)]);
    }

    /** `onOpen`: registers the viewer and sends it INITIAL_DATA, built as
        the source builds it (button B's field from button A). */
    method OnOpen(s: Session)
      requires Valid()
      modifies this, s
      ensures Valid()
      ensures websockets == old(websockets) + {s}
      ensures s.wire == old(s.wire) + [Envelope("INITIAL_DATA",
        InitialPayloadAsWritten(buttonA.Snapshot(), buttonB.Snapshot(), Entries(display.Cells), display.isOn))]
    {
      websockets := websockets + {s};
      var a := buttonA.GetInitialData();
      var b := buttonA.GetInitialData();
      var entries, on := display.GetInitialData();
      var displayData := map["pixels" := EntriesValue(entries), "is_on" := Bool(on)];
      s.Send("INITIAL_DATA", map["button_a" := Bool(a), "button_b" := Bool(b), "display" := Dict(displayData)]);
    }

    /** `onClose`: unregisters the viewer; `set.remove` raises KeyError for a
        viewer that is not registered. */
    method OnClose(s: Session) returns (r: Outcome)
      requires Valid()
      modifies this
      ensures Valid()
      ensures s in old(websockets) ==> r == Done && websockets == old(websockets) - {s}
      ensures s !in old(websockets) ==> r == Raised(KeyError) && websockets == old(websockets)
    {
      if s !in websockets {
        return Raised(KeyError);
      }
      websockets := websockets - {s};
      r := Done;
    }
  }

  /** Two redraws in a row, `show` then `scroll`: every viewer receives the
      envelopes of the pass's messages followed by those of the windows. */
  method ShowThenScroll(d: Device, first: string, second: string)
    requires d.Valid()
    modifies d.display.Repr, d.websockets
    ensures d.Valid() && d.websockets == old(d.websockets)
    ensures d.display.Sent == old(d.display.Sent) + ShowMessages(first) + ScrollMessages(second, false)
    ensures forall s :: s in d.websockets ==>
      s.wire == old(s.wire) + Envelopes(ShowMessages(first)) + Envelopes(ScrollMessages(second, false))
  {
    ghost var log, shown, scrolled := d.display.Sent, ShowMessages(first), ScrollMessages(second, false);
    d.Show(first, false);
    ghost var middle := d.display.Sent;
    assert middle == log + shown;
    AddedSuffix(log, shown, middle);
    d.Scroll(second, false);
    AddedSuffix(middle, scrolled, d.display.Sent);
    Associative(log, shown, scrolled);
  }

  /** A viewer that has closed receives nothing from a later broadcast, while
      every viewer still open receives it. */
  method CloseThenBroadcast(d: Device, s: Session, name: string, data: map<string, Value>)
    requires d.Valid() && s in d.websockets
    modifies d, d.websockets
    ensures s.wire == old(s.wire)
    ensures d.websockets == old(d.websockets) - {s}
    ensures forall t :: t in d.websockets ==> t.wire == old(t.wire) + [Envelope(name, data)]
  {
    var r := d.OnClose(s);
    d.SendMessage(name, data);
  }
}
