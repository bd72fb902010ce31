/** The keyboard's indicator lights over whole runs, and the bytes that set the keyboard up. */
module IndicatorLights {
  import opened Bytes
  import opened ScanCodes
  import opened KeyStates
  import opened KeyboardCommands
  import opened PS2KeyboardDriver

  /** The lights after these events, if the keyboard follows each command for them that is pushed. */
  function LightsAfter(events: seq<Event>, before: Byte): Byte {
    if events == [] then before
    else
      var e := events[|events| - 1];
      if e.Push? && e.command.code == 0xED then e.command.data else LightsAfter(events[..|events| - 1], before)
  }

  lemma {:induction false} LightsSplit(a: seq<Event>, b: seq<Event>, before: Byte)
    ensures LightsAfter(a + b, before) == LightsAfter(b, LightsAfter(a, before))
    decreases |b|
  {
    if b == [] {
      assert a + b == a;
    } else {
      var n := |b| - 1;
      assert (a + b)[..|a| + n] == a + b[..n];
      LightsSplit(a, b[..n], before);
    }
  }

  /** One byte leaves the lights as the locks are. */
  lemma LightsOfByte(root: Table, k: Keyboard, b: Byte, shown: Byte)
    requires PrefixFree(root) && Steady(k) && LightsShow(shown, k.keys)
    ensures LightsShow(LightsAfter(EventsOf(k, b), shown), AfterInterrupt(root, k, b).keys)
  {
    hide PrefixFree, Ready, Decode, Next, Heard, Run, LedBits, LightsShow;
    LedBitsShow(shown, k.keys);
    LedBitsShow(LedBits(k.keys), k.keys);
    if !IsResponse(b) { LedBitsShow(LedBits(Heard(k, b)), Heard(k, b)); }
  }

  /** A key sends the lights if and only if it changes a lock. */
  lemma LightsSentIff(before: Keys, after: Keys)
    ensures LedEvents(before, after) == [] <==>
            before.scrollLock.active == after.scrollLock.active && before.numLock.active == after.numLock.active
            && before.capsLock.active == after.capsLock.active
  {
    LedsTellLocks(before, after);
  }

  /** Whatever arrives, the command for the lights that was pushed last shows the locks as they then are: each
      light is on if and only if its lock is. */
  lemma {:induction false} LightsFollowLocks(root: Table, k: Keyboard, bytes: seq<Byte>, shown: Byte)
    requires PrefixFree(root) && Steady(k) && LightsShow(shown, k.keys)
    ensures LightsShow(LightsAfter(Traffic(root, k, bytes), shown), AfterAll(root, k, bytes).keys)
    decreases |bytes|
  {
    hide PrefixFree, Steady, AfterInterrupt, EventsOf, LightsShow;
    if bytes == [] {
    } else {
      var next := AfterInterrupt(root, k, bytes[0]);
      FirstByte(root, k, bytes);
      LightsOfByte(root, k, bytes[0], shown);
      LightsFollowLocks(root, next, bytes[1..], LightsAfter(EventsOf(k, bytes[0]), shown));
      LightsSplit(EventsOf(k, bytes[0]), Traffic(root, next, bytes[1..]), shown);
    }
  }

  // ----- When the queue has room -----

  /** The commands among the events. */
  function Pushes(events: seq<Event>): seq<Command> {
    if events == [] then [] else (if events[0].Push? then [events[0].command] else []) + Pushes(events[1..])
  }

  /** Every command that is pushed finds room in the queue. */
  predicate HasRoom(q: Queue, events: seq<Event>)
    decreases |events|
  {
    events == [] ||
    ((events[0].Push? ==> |q.pending| != 16) && HasRoom(KeyboardCommands.After(q, events[0]), events[1..]))
  }

  /** Then every command pushed is accepted, in order. */
  lemma {:induction false} PushedIsAccepted(q: Queue, events: seq<Event>)
    requires HasRoom(q, events)
    ensures Run(q, events).accepted == q.accepted + Pushes(events)
    decreases |events|
  {
    if events != [] {
      PushedIsAccepted(KeyboardCommands.After(q, events[0]), events[1..]);
      AcceptedStep(q, events[0]);
    }
  }

  lemma AcceptedStep(q: Queue, e: Event)
    requires e.Push? ==> |q.pending| != 16
    ensures KeyboardCommands.After(q, e).accepted == q.accepted + (if e.Push? then [e.command] else [])
  {
  }

  /** The data byte of the last command for the lights. */
  function LastLights(commands: seq<Command>, before: Byte): Byte {
    if commands == [] then before
    else
      var c := commands[|commands| - 1];
      if c.code == 0xED then c.data else LastLights(commands[..|commands| - 1], before)
  }

  lemma {:induction false} LastLightsSplit(a: seq<Command>, b: seq<Command>, before: Byte)
    ensures LastLights(a + b, before) == LastLights(b, LastLights(a, before))
    decreases |b|
  {
    if b == [] {
      assert a + b == a;
    } else {
      var n := |b| - 1;
      assert (a + b)[..|a| + n] == a + b[..n];
      LastLightsSplit(a, b[..n], before);
    }
  }

  lemma {:induction false} LightsOfPushes(events: seq<Event>, before: Byte)
    ensures LightsAfter(events, before) == LastLights(Pushes(events), before)
    decreases |events|
  {
    if events != [] {
      var first, rest := [events[0]], events[1..];
      assert events == first + rest && first[..0] == [];
      LightsSplit(first, rest, before);
      LightsOfPushes(rest, LightsAfter(first, before));
      var command := if events[0].Push? then [events[0].command] else [];
      assert command != [] ==> command[..0] == [];
      LastLightsSplit(command, Pushes(rest), before);
    }
  }

  /** While the queue has room, the last command for the lights that the keyboard will get shows exactly the locks
      that are on. */
  lemma AcceptedLightsShowLocks(root: Table, k: Keyboard, bytes: seq<Byte>, before: Byte)
    requires PrefixFree(root) && Steady(k) && HasRoom(k.queue, Traffic(root, k, bytes))
    requires LightsShow(LastLights(k.queue.accepted, before), k.keys)
    ensures LightsShow(LastLights(AfterAll(root, k, bytes).queue.accepted, before), AfterAll(root, k, bytes).keys)
  {
    hide PrefixFree, Traffic, AfterAll, LightsShow, HasRoom, LastLights, LightsAfter, Pushes, Run;
    var shown := LastLights(k.queue.accepted, before);
    QueueSeesAnswers(root, k, bytes);
    PushedIsAccepted(k.queue, Traffic(root, k, bytes));
    LightsFollowLocks(root, k, bytes, shown);
    LightsOfPushes(Traffic(root, k, bytes), shown);
    LastLightsSplit(k.queue.accepted, Pushes(Traffic(root, k, bytes)), before);
  }

  // ----- One lock -----

  /** The light of a lock, by the number of its bit. */
  predicate LightOf(leds: Byte, id: nat)
    requires IsLock(id)
  {
    (if id == SCROLL_LOCK then leds else if id == NUM_LOCK then leds / 2 else leds / 4) % 2 == 1
  }

  lemma LightOfLock(leds: Byte, k: Keys, id: nat)
    requires IsLock(id) && LightsShow(leds, k)
    ensures LightOf(leds, id) <==> LockOf(k, id).active
  {
  }

  /** Pressing the key of a lock, holding it and releasing it switches the light of that lock over, whatever
      responses come in between. */
  lemma LightSwitchesOver(root: Table, k: Keyboard, before: seq<nat>, strokes: seq<Stroke>, bytes: seq<Byte>,
                          shown: Byte, id: nat, repeats: nat)
    requires PrefixFree(root) && forall i | 0 <= i < |strokes| :: Encodes(root, strokes[i].code, strokes[i].key)
    requires Steady(k) && k.decoding == AtTable(root) && History(k.queue, before)
    requires ScanBytes(bytes) == Codes(strokes) && KeysOf(strokes) == Held(id, repeats) + [MapKey(id, Released)]
    requires IsLock(id) && k.keys.states[id] == KeyReleased && LocksSettle(k.keys) && LightsShow(shown, k.keys)
    ensures LightOf(LightsAfter(Traffic(root, k, bytes), shown), id) <==> !LightOf(shown, id)
  {
    hide PrefixFree, Encodes, History, AfterKeys, AfterAll, Traffic, Codes, ScanBytes, LightsShow, LightOf;
    var times := KeysComeThrough(root, k, before, strokes, bytes);
    PressAndReleaseSwitches(k.keys, id, repeats);
    LightsFollowLocks(root, k, bytes, shown);
    LightOfLock(shown, k.keys, id);
    LightOfLock(LightsAfter(Traffic(root, k, bytes), shown), AfterAll(root, k, bytes).keys, id);
  }

  // ----- The bytes on the port -----

  lemma WireThen(a: seq<Command>, c: Command)
    ensures Wire(a + [c]) == Wire(a) + BytesOf(c)
  {
    assert (a + [c])[..|a|] == a;
  }

  /** Resetting the keyboard is a single byte. */
  lemma ResetByte()
    ensures Wire([RESET_COMMAND]) == [0xFF]
  {
    WireThen([], RESET_COMMAND);
    assert [] + [RESET_COMMAND] == [RESET_COMMAND];
  }

  /** After its self-test, passed or failed, the keyboard is told to use scan code set 2, to repeat held keys at
      30 characters a second after half a second, to report keys, and which lights to show. No other response
      makes the driver send anything new. */
  lemma SetUpBytes(b: Byte, leds: Byte)
    requires IsResponse(b)
    ensures Wire(Pushes(Events(b, leds))) ==
            if b == 0xAA || b == 0xFC || b == 0xFD then [0xF0, 2, 0xF3, 0x20, 0xF4, 0xED, leds] else []
  {
    hide Wire;
    if b == 0xAA || b == 0xFC || b == 0xFD {
      PushesOfFour(SET_SCAN_CODE_SET, SET_TYPEMATIC, ENABLE_SCANNING, SetLeds(leds));
      SetUpWire(leds);
    } else {
      NoPushes(Events(b, leds));
      WireOfNone();
    }
  }

  lemma WireOfNone()
    ensures Wire([]) == []
  {
  }

  lemma SetUpWire(leds: Byte)
    ensures Wire([SET_SCAN_CODE_SET, SET_TYPEMATIC, ENABLE_SCANNING, SetLeds(leds)]) == [0xF0, 2, 0xF3, 0x20, 0xF4, 0xED, leds]
  {
    hide Wire;
    var a, b, c, d := SET_SCAN_CODE_SET, SET_TYPEMATIC, ENABLE_SCANNING, SetLeds(leds);
    assert [] + [a] == [a] && [a] + [b] == [a, b] && [a, b] + [c] == [a, b, c] && [a, b, c] + [d] == [a, b, c, d];
    WireOfNone();
    WireThen([], a);
    WireThen([a], b);
    WireThen([a, b], c);
    WireThen([a, b, c], d);
  }

  lemma PushesOfFour(a: Command, b: Command, c: Command, d: Command)
    ensures Pushes([Push(a), Push(b), Push(c), Push(d)]) == [a, b, c, d]
  {
    hide Pushes;
    NoPushes([]);
    PushesNext(d, []);
    PushesNext(c, [Push(d)]);
    PushesNext(b, [Push(c), Push(d)]);
    PushesNext(a, [Push(b), Push(c), Push(d)]);
    assert [Push(d)] + [] == [Push(d)] && [d] + [] == [d];
    assert [Push(c)] + [Push(d)] == [Push(c), Push(d)] && [c] + [d] == [c, d];
    assert [Push(b)] + [Push(c), Push(d)] == [Push(b), Push(c), Push(d)] && [b] + [c, d] == [b, c, d];
    assert [Push(a)] + [Push(b), Push(c), Push(d)] == [Push(a), Push(b), Push(c), Push(d)];
  }

  lemma PushesNext(c: Command, rest: seq<Event>)
    ensures Pushes([Push(c)] + rest) == [c] + Pushes(rest)
  {
    assert ([Push(c)] + rest)[1..] == rest;
  }

  lemma NoPushes(events: seq<Event>)
    requires |events| <= 1 && forall e | e in events :: !e.Push?
    ensures Pushes(events) == []
  {
    if events != [] {
      assert events[0] in events && events[1..] == [];
    }
  }

  // ----- What the keyboard understands -----

  /** A command has a data byte only if its code asks for one. */
  predicate Plain(c: Command) { !TakesData(c.code) ==> c.data == 0 }

  ghost predicate AllPlain(q: Queue) {
    && (forall i | 0 <= i < |q.pending| :: Plain(q.pending[i]))
    && (forall i | 0 <= i < |q.sent| :: Plain(q.sent[i]))
  }

  ghost predicate PlainPushes(events: seq<Event>) {
    forall i | 0 <= i < |events| && events[i].Push? :: Plain(events[i].command)
  }

  lemma PlainStep(q: Queue, e: Event)
    requires AllPlain(q) && (e.Push? ==> Plain(e.command))
    ensures AllPlain(KeyboardCommands.After(q, e))
  {
    hide Plain;
  }

  lemma {:induction false} PlainRun(q: Queue, events: seq<Event>)
    requires AllPlain(q) && PlainPushes(events)
    ensures AllPlain(Run(q, events))
    decreases |events|
  {
    hide Plain, AllPlain, KeyboardCommands.After;
    if events != [] {
      PlainStep(q, events[0]);
      PlainRun(KeyboardCommands.After(q, events[0]), events[1..]);
    }
  }

  lemma PlainEvents(k: Keyboard, b: Byte)
    requires Steady(k)
    ensures PlainPushes(EventsOf(k, b))
  {
    hide Steady, Heard, LedBits;
  }

  lemma {:induction false} PlainTraffic(root: Table, k: Keyboard, bytes: seq<Byte>)
    requires PrefixFree(root) && Steady(k)
    ensures PlainPushes(Traffic(root, k, bytes))
    decreases |bytes|
  {
    hide PrefixFree, Steady, AfterInterrupt, EventsOf, Plain;
    if bytes != [] {
      var next := AfterInterrupt(root, k, bytes[0]);
      PlainEvents(k, bytes[0]);
      PlainTraffic(root, next, bytes[1..]);
      assert Traffic(root, k, bytes) == EventsOf(k, bytes[0]) + Traffic(root, next, bytes[1..]);
    }
  }

  /** Whatever the keyboard sends, it understands from the bytes that the driver writes to the port exactly the
      commands that the driver means to send, one by one. */
  lemma KeyboardUnderstands(root: Table, bytes: seq<Byte>)
    requires PrefixFree(root)
    ensures var sent := AfterAll(root, Started(root), bytes).queue.sent;
            Understood(Wire(sent)) == sent
  {
    hide PrefixFree, AfterAll, Traffic, Plain, Wire, Understood, Run;
    QueueSeesAnswers(root, Started(root), bytes);
    PlainTraffic(root, Started(root), bytes);
    PlainStart();
    PlainRun(Pushed(EMPTY, RESET_COMMAND), Traffic(root, Started(root), bytes));
    var sent := AfterAll(root, Started(root), bytes).queue.sent;
    PlainCommands(sent);
    DeviceUnderstands(sent);
  }

  lemma PlainStart()
    ensures AllPlain(Pushed(EMPTY, RESET_COMMAND))
  {
  }

  lemma PlainCommands(sent: seq<Command>)
    requires forall i | 0 <= i < |sent| :: Plain(sent[i])
    ensures forall c | c in sent && !TakesData(c.code) :: c.data == 0
  {
    forall c | c in sent && !TakesData(c.code)
      ensures c.data == 0
    {
      var i :| 0 <= i < |sent| && sent[i] == c;
      assert Plain(sent[i]);
    }
  }
}
