/** The PS/2 keyboard driver's state, and the step that one keyboard interrupt takes. */
module PS2KeyboardDriver {
  import opened Bytes
  import opened KeyboardCommands
  import opened KeyStates
  import opened ScanCodes

  const KEY_DETECTION_ERROR0: Byte := 0
  const KEY_DETECTION_ERROR1: Byte := 0xFF
  const SELF_TEST_PASSED: Byte := 0xAA
  const SELF_TEST_FAILED0: Byte := 0xFC
  const SELF_TEST_FAILED1: Byte := 0xFD
  const ECHO: Byte := 0xEE
  const COMMAND_ACKNOWLEDGED: Byte := 0xFA
  const RESEND: Byte := 0xFE

  const RESET_COMMAND := Command(0xFF, 0)
  const SET_SCAN_CODE_SET := Command(0xF0, 2)
  const SET_TYPEMATIC := Command(0xF3, 0x20)
  const ENABLE_SCANNING := Command(0xF4, 0)

  function SetLeds(leds: Byte): Command {
    Command(0xED, leds)
  }

  /** Bytes that answer a command or report an error, and so are no part of a scan code. */
  predicate IsResponse(b: Byte) {
    b in {KEY_DETECTION_ERROR0, KEY_DETECTION_ERROR1, SELF_TEST_PASSED, SELF_TEST_FAILED0, SELF_TEST_FAILED1, ECHO,
          COMMAND_ACKNOWLEDGED, RESEND}
  }

  /** What a response byte does to the queue; `leds` are the lights that should be on at that time. */
  function Events(b: Byte, leds: Byte): seq<Event>
    requires IsResponse(b)
  {
    if b in {SELF_TEST_PASSED, SELF_TEST_FAILED0, SELF_TEST_FAILED1} then
      [Push(SET_SCAN_CODE_SET), Push(SET_TYPEMATIC), Push(ENABLE_SCANNING), Push(SetLeds(leds))]
    else if b == COMMAND_ACKNOWLEDGED then [Acknowledge]
    else if b == RESEND then [Resend]
    else []
  }

  /** A key event sends the lights to the keyboard if it changes them. */
  function LedEvents(before: Keys, after: Keys): seq<Event> {
    if LedBits(after) == LedBits(before) then [] else [Push(SetLeds(LedBits(after)))]
  }

  /** The driver seen from outside: what it is decoding, the keys it has passed on and what they leave
      pressed and locked, its queue. */
  datatype Keyboard = Keyboard(decoding: Decoding, passed: seq<MapKey>, keys: Keys, queue: Queue)

  ghost predicate Steady(k: Keyboard) {
    Ready(k.decoding) && |k.keys.states| == KEY_MAX
  }

  /** The keys after what one byte passes on. */
  ghost function Heard(k: Keyboard, b: Byte): (r: Keys)
    requires Steady(k)
    ensures |r.states| == KEY_MAX
  {
    match Decode(k.decoding, b)
    case Failure => k.keys
    case Decoded(key) => DecodedUsable(k.decoding, b); AfterKey(k.keys, key)
    case Partial(_) => AfterKey(k.keys, NO_KEY)
  }

  lemma DecodedUsable(d: Decoding, b: Byte)
    requires Ready(d) && Decode(d, b).Decoded?
    ensures Usable(Decode(d, b).key)
  {
  }

  ghost function AfterInterrupt(root: Table, k: Keyboard, b: Byte): (r: Keyboard)
    requires PrefixFree(root) && Steady(k)
    ensures Steady(r)
  {
    if IsResponse(b) then
      k.(queue := Run(k.queue, Events(b, LedBits(k.keys))))
    else
      k.(decoding := Next(root, k.decoding, b), passed := k.passed + Passed(Decode(k.decoding, b)), keys := Heard(k, b),
         queue := Run(k.queue, LedEvents(k.keys, Heard(k, b))))
  }

  ghost function AfterAll(root: Table, k: Keyboard, bytes: seq<Byte>): (r: Keyboard)
    requires PrefixFree(root) && Steady(k)
    ensures Steady(r)
    decreases |bytes|
  {
    if bytes == [] then k else AfterAll(root, AfterInterrupt(root, k, bytes[0]), bytes[1..])
  }

  /** The bytes that are not responses. */
  function ScanBytes(bytes: seq<Byte>): seq<Byte> {
    if bytes == [] then [] else (if IsResponse(bytes[0]) then [] else [bytes[0]]) + ScanBytes(bytes[1..])
  }

  /** What a byte does to the queue, responses and lights. */
  ghost function EventsOf(k: Keyboard, b: Byte): seq<Event>
    requires Steady(k)
  {
    if IsResponse(b) then Events(b, LedBits(k.keys)) else LedEvents(k.keys, Heard(k, b))
  }

  /** Everything that happens to the queue while the bytes arrive. */
  ghost function Traffic(root: Table, k: Keyboard, bytes: seq<Byte>): seq<Event>
    requires PrefixFree(root) && Steady(k)
    decreases |bytes|
  {
    if bytes == [] then [] else EventsOf(k, bytes[0]) + Traffic(root, AfterInterrupt(root, k, bytes[0]), bytes[1..])
  }

  /** The events that are not pushes. */
  function Answers(events: seq<Event>): seq<Event> {
    if events == [] then [] else (if events[0].Push? then [] else [events[0]]) + Answers(events[1..])
  }

  /** The acknowledgements and requests to repeat among the bytes. */
  function AnswerBytes(bytes: seq<Byte>): seq<Event> {
    if bytes == [] then []
    else (if bytes[0] == COMMAND_ACKNOWLEDGED then [Acknowledge] else if bytes[0] == RESEND then [Resend] else [])
         + AnswerBytes(bytes[1..])
  }

  lemma {:induction false} RunSplit(q: Queue, a: seq<Event>, b: seq<Event>)
    ensures Run(q, a + b) == Run(Run(q, a), b)
    decreases |a|
  {
    hide KeyboardCommands.After;
    if a == [] {
      assert a + b == b;
    } else {
      assert (a + b)[1..] == a[1..] + b;
      RunSplit(KeyboardCommands.After(q, a[0]), a[1..], b);
    }
  }

  lemma {:induction false} AnswersSplit(a: seq<Event>, b: seq<Event>)
    ensures Answers(a + b) == Answers(a) + Answers(b)
  {
    if a == [] {
      assert a + b == b;
    } else {
      assert (a + b)[1..] == a[1..] + b && (a + b)[0] == a[0];
      AnswersSplit(a[1..], b);
      var head := if a[0].Push? then [] else [a[0]];
      calc {
        Answers(a + b);
        head + Answers(a[1..] + b);
        head + (Answers(a[1..]) + Answers(b));
        (head + Answers(a[1..])) + Answers(b);
      }
    }
  }

  lemma {:induction false} PushesAreNoAnswers(events: seq<Event>)
    requires forall i | 0 <= i < |events| :: events[i].Push?
    ensures Answers(events) == []
  {
    if events != [] { PushesAreNoAnswers(events[1..]); }
  }

  /** Among the events of one byte only an acknowledgement or a request to repeat is no push. */
  lemma AnswersOfByte(k: Keyboard, b: Byte)
    requires Steady(k)
    ensures Answers(EventsOf(k, b)) == AnswerBytes([b])
  {
    hide Heard, LedBits, Decode, Steady;
    var events := EventsOf(k, b);
    assert [b][1..] == [];
    if b == COMMAND_ACKNOWLEDGED || b == RESEND {
      assert events == [if b == RESEND then Resend else Acknowledge] && events[1..] == [];
    } else {
      PushesAreNoAnswers(events);
    }
  }

  /** What one byte passes on. */
  lemma PassedInRange(k: Keyboard, b: Byte)
    requires Steady(k)
    ensures InRange(Passed(Decode(k.decoding, b))) && AfterKeys(k.keys, Passed(Decode(k.decoding, b))) == Heard(k, b)
    ensures forall i | 0 <= i < |Passed(Decode(k.decoding, b))| ::
              Usable(Passed(Decode(k.decoding, b))[i]) || Passed(Decode(k.decoding, b))[i] == NO_KEY
  {
    var r := Decode(k.decoding, b);
    if r.Decoded? {
      DecodedUsable(k.decoding, b);
      assert [r.key][1..] == [];
    }
    assert [NO_KEY][1..] == [];
    hide Decode, AfterKey;
  }

  lemma {:induction false} PassedOnInRange(root: Table, d: Decoding, bytes: seq<Byte>)
    requires PrefixFree(root) && Ready(d)
    ensures forall i | 0 <= i < |PassedOn(root, d, bytes)| ::
              Usable(PassedOn(root, d, bytes)[i]) || PassedOn(root, d, bytes)[i] == NO_KEY
    ensures InRange(PassedOn(root, d, bytes))
    decreases |bytes|
  {
    hide PrefixFree, Ready, Decode;
    if bytes != [] {
      PassedInRange(Keyboard(d, [], AllReleased(), EMPTY), bytes[0]);
      PassedOnInRange(root, Next(root, d, bytes[0]), bytes[1..]);
    }
  }

  /** One byte and then the others. */
  lemma FirstByte(root: Table, k: Keyboard, bytes: seq<Byte>)
    requires PrefixFree(root) && Steady(k) && bytes != []
    ensures
      var next := AfterInterrupt(root, k, bytes[0]);
      AfterAll(root, k, bytes) == AfterAll(root, next, bytes[1..]) &&
      Traffic(root, k, bytes) == EventsOf(k, bytes[0]) + Traffic(root, next, bytes[1..]) &&
      next.queue == Run(k.queue, EventsOf(k, bytes[0]))
    ensures AnswerBytes(bytes) == AnswerBytes([bytes[0]]) + AnswerBytes(bytes[1..])
    ensures ScanBytes(bytes) == (if IsResponse(bytes[0]) then [] else [bytes[0]]) + ScanBytes(bytes[1..])
  {
    hide PrefixFree, Steady, Decode, Events, IsResponse, LedEvents, Heard, Run;
    assert [bytes[0]][1..] == [];
  }

  /** Scan codes and responses may arrive interleaved in any way. The queue sees every acknowledgement and
      every request to repeat, in order, among the commands that are pushed. */
  lemma {:induction false} QueueSeesAnswers(root: Table, k: Keyboard, bytes: seq<Byte>)
    requires PrefixFree(root) && Steady(k)
    ensures AfterAll(root, k, bytes).queue == Run(k.queue, Traffic(root, k, bytes))
    ensures Answers(Traffic(root, k, bytes)) == AnswerBytes(bytes)
    decreases |bytes|
  {
    if bytes != [] {
      hide PrefixFree, Steady, AfterAll, Traffic, EventsOf, AfterInterrupt, Run, Answers, AnswerBytes;
      var next := AfterInterrupt(root, k, bytes[0]);
      FirstByte(root, k, bytes);
      QueueSeesAnswers(root, next, bytes[1..]);
      RunSplit(k.queue, EventsOf(k, bytes[0]), Traffic(root, next, bytes[1..]));
      AnswersSplit(EventsOf(k, bytes[0]), Traffic(root, next, bytes[1..]));
      AnswersOfByte(k, bytes[0]);
    }
  }

  /** The decoder and the keys go from `k` to `r` as the scan codes `scan` have it. */
  ghost predicate Sees(root: Table, k: Keyboard, r: Keyboard, scan: seq<Byte>)
    requires PrefixFree(root) && Steady(k)
  {
    InRange(PassedOn(root, k.decoding, scan)) && r.decoding == StateAfter(root, k.decoding, scan) &&
    r.passed == k.passed + PassedOn(root, k.decoding, scan) && r.keys == AfterKeys(k.keys, PassedOn(root, k.decoding, scan))
  }

  lemma SeesThen(root: Table, k: Keyboard, next: Keyboard, r: Keyboard, a: seq<Byte>, b: seq<Byte>)
    requires PrefixFree(root) && Steady(k) && Steady(next) && Sees(root, k, next, a) && Sees(root, next, r, b)
    ensures Sees(root, k, r, a + b)
  {
    hide PrefixFree, Ready, StateAfter, PassedOn, AfterKeys, InRange;
    StreamSplit(root, k.decoding, a, b);
    var now, rest := PassedOn(root, k.decoding, a), PassedOn(root, next.decoding, b);
    InRangeBoth(now, rest);
    AfterKeysSplit(k.keys, now, rest);
    assert k.passed + now + rest == k.passed + (now + rest);
  }

  /** What one byte does to the decoder and the keys. */
  lemma SeesByte(root: Table, k: Keyboard, b: Byte)
    requires PrefixFree(root) && Steady(k)
    ensures Sees(root, k, AfterInterrupt(root, k, b), if IsResponse(b) then [] else [b])
  {
    hide PrefixFree, Ready, Decode, Events, IsResponse, LedEvents, Heard, AfterKey, Run;
    if IsResponse(b) {
      assert PassedOn(root, k.decoding, []) == [] && k.passed + [] == k.passed;
    } else {
      PassedInRange(k, b);
      var now, next := Passed(Decode(k.decoding, b)), Next(root, k.decoding, b);
      assert [b][1..] == [] && now + [] == now;
      assert PassedOn(root, k.decoding, [b]) == now + PassedOn(root, next, []);
      assert StateAfter(root, k.decoding, [b]) == StateAfter(root, next, []);
    }
  }

  /** The decoder and the keys see only the scan codes, however many responses come in between. */
  lemma {:induction false} KeysSeeScanBytes(root: Table, k: Keyboard, bytes: seq<Byte>)
    requires PrefixFree(root) && Steady(k)
    ensures Sees(root, k, AfterAll(root, k, bytes), ScanBytes(bytes))
    decreases |bytes|
  {
    if bytes == [] {
      assert k.passed + [] == k.passed;
    } else {
      hide PrefixFree, Steady, Sees, AfterInterrupt, AfterAll, Traffic, EventsOf, IsResponse, ScanBytes, AnswerBytes, Run;
      var next := AfterInterrupt(root, k, bytes[0]);
      FirstByte(root, k, bytes);
      SeesByte(root, k, bytes[0]);
      KeysSeeScanBytes(root, next, bytes[1..]);
      SeesThen(root, k, next, AfterAll(root, next, bytes[1..]), if IsResponse(bytes[0]) then [] else [bytes[0]],
               ScanBytes(bytes[1..]));
    }
  }

  lemma InRangeBoth(a: seq<MapKey>, b: seq<MapKey>)
    requires InRange(a) && InRange(b)
    ensures InRange(a + b)
  {
  }

  /** The driver as its constructor leaves it. */
  function Started(root: Table): Keyboard {
    Keyboard(AtTable(root), [], AllReleased(), Pushed(EMPTY, RESET_COMMAND))
  }

  /** Keys whose codes avoid the response bytes come through exactly, however the keyboard's responses are
      mixed in: they are passed on in order, they leave pressed and locked what they should, and the
      queue's history stays in order all the while, lights included. */
  lemma KeysComeThrough(root: Table, k: Keyboard, before: seq<nat>, strokes: seq<Stroke>, bytes: seq<Byte>)
    returns (times: seq<nat>)
    requires PrefixFree(root) && forall i | 0 <= i < |strokes| :: Encodes(root, strokes[i].code, strokes[i].key)
    requires Steady(k) && k.decoding == AtTable(root) && History(k.queue, before)
    requires ScanBytes(bytes) == Codes(strokes)
    ensures InRange(KeysOf(strokes))
    ensures
      var r := AfterAll(root, k, bytes);
      r.decoding == AtTable(root) && OnlyKeys(r.passed) == OnlyKeys(k.passed) + KeysOf(strokes) &&
      r.keys == AfterKeys(k.keys, KeysOf(strokes)) && History(r.queue, times)
  {
    hide PrefixFree, Encodes, History, AfterKey, Decode, Ready, StateAfter, PassedOn, AfterAll, Traffic, Codes, ScanBytes;
    KeysSeeScanBytes(root, k, bytes);
    QueueSeesAnswers(root, k, bytes);
    DecodingUndoesEncoding(root, strokes);
    var passed := PassedOn(root, AtTable(root), Codes(strokes));
    PassedOnInRange(root, AtTable(root), Codes(strokes));
    OnlyKeysSplit(k.passed, passed);
    OnlyKeysMatter(k.keys, passed);
    times := RunHistory(k.queue, before, Traffic(root, k, bytes));
  }

  /** The same from the start, for strokes sent without any response in between. */
  lemma TypedFromTheStart(root: Table, strokes: seq<Stroke>) returns (times: seq<nat>)
    requires PrefixFree(root) && forall i | 0 <= i < |strokes| :: Encodes(root, strokes[i].code, strokes[i].key)
    requires forall i | 0 <= i < |Codes(strokes)| :: !IsResponse(Codes(strokes)[i])
    ensures InRange(KeysOf(strokes))
    ensures
      var r := AfterAll(root, Started(root), Codes(strokes));
      r.decoding == AtTable(root) && OnlyKeys(r.passed) == KeysOf(strokes) &&
      r.keys == AfterKeys(AllReleased(), KeysOf(strokes)) && ModifiersAgree(r.keys) && LocksSettle(r.keys) && History(r.queue, times)
  {
    hide PrefixFree, Encodes, AfterKey, AfterKeys, AfterAll, History, Codes, KeysOf, ScanBytes, IsResponse;
    EmptyHistory();
    times := PushedHistory(EMPTY, [], RESET_COMMAND);
    PlainBytes(Codes(strokes));
    times := KeysComeThrough(root, Started(root), times, strokes, Codes(strokes));
    ModifiersAlwaysAgree(AllReleased(), KeysOf(strokes));
  }

  lemma {:induction false} PlainBytes(bytes: seq<Byte>)
    requires forall i | 0 <= i < |bytes| :: !IsResponse(bytes[i])
    ensures ScanBytes(bytes) == bytes
  {
    if bytes != [] {
      PlainBytes(bytes[1..]);
      assert bytes == [bytes[0]] + bytes[1..];
    }
  }

  datatype ListeningMode = TableLookup | ByteSequence

  datatype CommandState = Free | Executing | WaitingForResponse

  class Driver {
    const commandBuffer: array<Byte>
    const commandDataBuffer: array<Byte>
    var commandBufferSize: nat
    var numCommandResends: nat
    var currentCommandState: CommandState

    const globalTable: Table
    var listeningMode: ListeningMode
    var currentSubTable: Table
    var currentSequence: SpecialSequence
    var sequenceByteIndex: nat

    const keyStates: array<KeyState>
    var capsLock: Lock
    var numLock: Lock
    var scrollLock: Lock
    var anyShiftActive: bool
    var anyControlActive: bool
    var leftAltActive: bool
    var rightAltActive: bool

    ghost var accepted: seq<Command>
    ghost var sent: seq<Command>
    /** The bytes written to the port. */
    ghost var port: seq<Byte>
    /** The keys passed on to the keyboard layer. */
    ghost var passed: seq<MapKey>

    // ---- The command queue ----

    ghost predicate QueueValid()
      reads this`commandBufferSize, this`numCommandResends, this`currentCommandState, this`sent, this`port
    {
      commandBuffer != commandDataBuffer && commandBuffer.Length == commandDataBuffer.Length == BUFFER_SIZE &&
      commandBufferSize <= BUFFER_SIZE && numCommandResends <= MAX_RESENDS && port == Wire(sent) &&
      currentCommandState == if commandBufferSize == 0 then Free else WaitingForResponse
    }

    ghost function Waiting(): seq<Command>
      requires commandBufferSize <= commandBuffer.Length && commandBufferSize <= commandDataBuffer.Length
      reads this`commandBufferSize, commandBuffer, commandDataBuffer
    {
      Zipped(commandBuffer[..commandBufferSize], commandDataBuffer[..commandBufferSize])
    }

    ghost function QueueView(): Queue
      requires QueueValid()
      reads this`commandBufferSize, this`numCommandResends, this`currentCommandState, this`accepted, this`sent, this`port
      reads commandBuffer, commandDataBuffer
    {
      Queue(Waiting(), numCommandResends, accepted, sent)
    }

    /** Writes the first command to the port, with its data byte if it takes one. */
    method ExecuteCommand()
      requires commandBuffer.Length == commandDataBuffer.Length == BUFFER_SIZE && 0 < commandBufferSize <= BUFFER_SIZE
      requires port == Wire(sent)
      modifies this`currentCommandState, this`sent, this`port
      ensures currentCommandState == WaitingForResponse && sent == old(sent) + [Waiting()[0]] && port == Wire(sent)
    {
      hide Wire, TakesData;
      WireNext(sent, Waiting()[0]);
      currentCommandState := Executing;
      var command := commandBuffer[0];
      var data := commandDataBuffer[0];
      port := port + [command];
      if TakesData(command) { port := port + [data]; }
      sent := sent + [Command(command, data)];
      assert port == old(port) + if TakesData(command) then [command, data] else [command];
      currentCommandState := WaitingForResponse;
    }

    method PushCommand(command: Byte, data: Byte)
      requires QueueValid()
      modifies this`commandBufferSize, this`currentCommandState, this`accepted, this`sent, this`port
      modifies commandBuffer, commandDataBuffer
      ensures QueueValid() && QueueView() == Pushed(old(QueueView()), Command(command, data))
    {
      if commandBufferSize == BUFFER_SIZE { return; }
      var index := commandBufferSize;
      commandBuffer[index] := command;
      commandDataBuffer[index] := data;
      commandBufferSize := commandBufferSize + 1;
      accepted := accepted + [Command(command, data)];
      assert Waiting() == old(Waiting()) + [Command(command, data)];
      if currentCommandState == Free { ExecuteCommand(); }
    }

    /** Moves every waiting command one place forward. */
    method ShiftCommands()
      requires commandBuffer != commandDataBuffer && commandBuffer.Length == commandDataBuffer.Length == BUFFER_SIZE
      requires commandBufferSize <= BUFFER_SIZE
      modifies commandBuffer, commandDataBuffer
      ensures forall j: nat | j < commandBufferSize - 1 ::
                commandBuffer[j] == old(commandBuffer[j + 1]) && commandDataBuffer[j] == old(commandDataBuffer[j + 1])
    {
      var i: nat := 1;
      while i < commandBufferSize
        invariant i == 1 || 1 <= i <= commandBufferSize
        invariant forall j: nat | j < i - 1 ::
            commandBuffer[j] == old(commandBuffer[j + 1]) && commandDataBuffer[j] == old(commandDataBuffer[j + 1])
        invariant forall j: nat | i - 1 <= j < BUFFER_SIZE ::
            commandBuffer[j] == old(commandBuffer[j]) && commandDataBuffer[j] == old(commandDataBuffer[j])
        modifies commandBuffer, commandDataBuffer
      {
        commandBuffer[i - 1] := commandBuffer[i];
        commandDataBuffer[i - 1] := commandDataBuffer[i];
        i := i + 1;
      }
    }

    /** Drops the first command and goes on with the next one. */
    method NextCommand()
      requires QueueValid()
      modifies this`commandBufferSize, this`numCommandResends, this`currentCommandState, this`sent, this`port
      modifies commandBuffer, commandDataBuffer
      ensures QueueValid() && QueueView() == Finished(old(QueueView()))
    {
      hide Wire;
      currentCommandState := Free;
      numCommandResends := 0;
      ShiftCommands();
      if commandBufferSize > 0 {
        commandBufferSize := commandBufferSize - 1;
        assert Waiting() == old(Waiting())[1..];
      }
      if commandBufferSize > 0 { ExecuteCommand(); }
    }

    method OnCommandAcknowledged()
      requires QueueValid()
      modifies this`commandBufferSize, this`numCommandResends, this`currentCommandState, this`sent, this`port
      modifies commandBuffer, commandDataBuffer
      ensures QueueValid() && QueueView() == KeyboardCommands.After(old(QueueView()), Acknowledge)
    {
      if currentCommandState == WaitingForResponse { NextCommand(); }
    }

    method ResendCommand()
      requires QueueValid()
      modifies this`commandBufferSize, this`numCommandResends, this`currentCommandState, this`sent, this`port
      modifies commandBuffer, commandDataBuffer
      ensures QueueValid() && QueueView() == KeyboardCommands.After(old(QueueView()), Resend)
    {
      hide Wire, Finished;
      if commandBufferSize > 0 && currentCommandState == WaitingForResponse {
        if numCommandResends < MAX_RESENDS {
          ExecuteCommand();
          numCommandResends := numCommandResends + 1;
        } else {
          NextCommand();
        }
      }
    }

    method InitialiseKeyboard()
      requires QueueValid() && KeysValid()
      modifies this`commandBufferSize, this`currentCommandState, this`accepted, this`sent, this`port
      modifies commandBuffer, commandDataBuffer
      ensures QueueValid() && QueueView() == Run(old(QueueView()), Events(SELF_TEST_PASSED, LedBits(KeysView())))
    {
      hide Pushed;
      ghost var q := QueueView();
      PushCommand(0xF0, 2);
      PushCommand(0xF3, 0x20);
      PushCommand(0xF4, 0);
      UpdateIndicatorLeds();
      FourPushes(q, SET_SCAN_CODE_SET, SET_TYPEMATIC, ENABLE_SCANNING, SetLeds(LedBits(KeysView())));
    }

    constructor (table: Table)
      requires PrefixFree(table)
      ensures DecodingValid() && KeysValid() && QueueValid() && globalTable == table && View() == Started(table)
      ensures fresh(commandBuffer) && fresh(commandDataBuffer) && fresh(keyStates)
    {
      commandBuffer := new Byte[BUFFER_SIZE](_ => 0);
      commandDataBuffer := new Byte[BUFFER_SIZE](_ => 0);
      commandBufferSize, numCommandResends, currentCommandState := 0, 0, Free;
      globalTable := table;
      listeningMode, currentSubTable := TableLookup, table;
      currentSequence, sequenceByteIndex := SpecialSequence(NO_KEY, []), 0;
      keyStates := new KeyState[KEY_MAX](_ => KeyReleased);
      capsLock, numLock, scrollLock := OFF, OFF, OFF;
      anyShiftActive, anyControlActive, leftAltActive, rightAltActive := false, false, false, false;
      accepted, sent, port, passed := [], [], [], [];
      new;
      hide PrefixFree, Pushed;
      assert keyStates[..] == AllReleased().states;
      assert QueueValid() && QueueView() == EMPTY;
      assert KeysView() == AllReleased() && Decoding() == AtTable(table);
      hide Decoding, KeysView, QueueView, QueueValid;
      SendReset();
    }

    method SendReset()
      requires DecodingValid() && KeysValid() && QueueValid()
      modifies this`commandBufferSize, this`currentCommandState, this`accepted, this`sent, this`port
      modifies commandBuffer, commandDataBuffer
      ensures DecodingValid() && QueueValid()
      ensures View() == old(View()).(queue := Pushed(old(QueueView()), RESET_COMMAND))
    {
      hide PrefixFree, Pushed, Zipped, Wire, Waiting;
      PushCommand(0xFF, 0);
    }

    // ---- Decoding ----

    ghost function Decoding(): Decoding
      reads this`listeningMode, this`currentSubTable, this`currentSequence, this`sequenceByteIndex
    {
      if listeningMode == TableLookup then AtTable(currentSubTable) else InSequence(currentSequence, sequenceByteIndex)
    }

    ghost predicate DecodingValid()
      reads this`listeningMode, this`currentSubTable, this`currentSequence, this`sequenceByteIndex
    {
      PrefixFree(globalTable) && Ready(Decoding())
    }

    /** The byte after a complete code or extension: an extension code, the beginning of a special
        sequence, or a table index, in this order. */
    method ProcessCodeByLookup(code: Byte) returns (result: Outcome)
      requires DecodingValid() && listeningMode == TableLookup
      modifies this`listeningMode, this`currentSubTable, this`currentSequence, this`sequenceByteIndex
      ensures result == Lookup(old(currentSubTable), code)
      ensures if result.Partial? then Decoding() == result.next else Decoding() == old(Decoding())
    {
      hide FirstCode, FirstSpecial;
      var table := currentSubTable;
      var i: nat := 0;
      while i < |table.extendCodes|
        invariant i <= |table.extendCodes| && forall j | 0 <= j < i :: table.extendCodes[j] != code
      {
        if code == table.extendCodes[i] {
          currentSubTable := table.extended[i];
          return Partial(AtTable(table.extended[i]));
        }
        i := i + 1;
      }
      var s: nat := 0;
      while s < |table.special|
        invariant s <= |table.special| && forall j | 0 <= j < s :: table.special[j].bytes == [] || table.special[j].bytes[0] != code
      {
        var sequence := table.special[s];
        if |sequence.bytes| > 1 {
          if code == sequence.bytes[0] {
            listeningMode, currentSequence, sequenceByteIndex := ByteSequence, sequence, 1;
            return Partial(InSequence(sequence, 1));
          }
        } else if |sequence.bytes| == 1 {
          if code == sequence.bytes[0] { return Report(sequence.key); }
        }
        s := s + 1;
      }
      var key := NO_KEY;
      if code < |table.keysPerByte| { key := table.keysPerByte[code]; }
      return Report(key);
    }

    /** The next byte of a special sequence. */
    method ProcessByteSequenceCode(code: Byte) returns (result: Outcome)
      requires DecodingValid() && listeningMode == ByteSequence
      modifies this`sequenceByteIndex
      ensures result == Compare(old(currentSequence), old(sequenceByteIndex), code)
      ensures if result.Partial? then Decoding() == result.next else Decoding() == old(Decoding())
    {
      if code != currentSequence.bytes[sequenceByteIndex] { return Failure; }
      if sequenceByteIndex + 1 == |currentSequence.bytes| { return Report(currentSequence.key); }
      sequenceByteIndex := sequenceByteIndex + 1;
      return Partial(InSequence(currentSequence, sequenceByteIndex));
    }

    // ---- Keys ----

    ghost predicate KeysValid() {
      keyStates.Length == KEY_MAX
    }

    ghost function KeysView(): Keys
      reads keyStates, this`capsLock, this`numLock, this`scrollLock
      reads this`anyShiftActive, this`anyControlActive, this`leftAltActive, this`rightAltActive
    {
      Keys(keyStates[..], capsLock, numLock, scrollLock, anyShiftActive, anyControlActive, leftAltActive, rightAltActive)
    }

    method UpdateIndicatorLeds()
      requires QueueValid()
      modifies this`commandBufferSize, this`currentCommandState, this`accepted, this`sent, this`port
      modifies commandBuffer, commandDataBuffer
      ensures QueueValid() && QueueView() == Pushed(old(QueueView()), SetLeds(LedBits(KeysView())))
    {
      hide Pushed;
      var data: Byte := 0;
      if scrollLock.active { data := data + 1; }
      if numLock.active { data := data + 2; }
      if capsLock.active { data := data + 4; }
      PushCommand(0xED, data);
    }

    /** What one of the three locks becomes, the state of its key being `state`. */
    method SwitchLock(lock: Lock, state: KeyState) returns (switched: Lock, changed: bool)
      ensures switched == Switched(lock, state) && (changed <==> switched.active != lock.active)
    {
      switched, changed := lock, false;
      if lock.active {
        if state == KeyReleased {
          if !lock.justActivated {
            switched, changed := lock.(active := false), true;
          } else {
            switched := lock.(justActivated := false);
          }
        }
      } else {
        if state == KeyPressed { switched, changed := Lock(true, true), true; }
      }
    }

    method UpdateKeyState(key: MapKey)
      requires KeysValid() && key.keyID < KEY_MAX
      modifies keyStates
      ensures keyStates[..] == old(keyStates[..])[key.keyID := Acted(old(keyStates[key.keyID]), key.action)]
    {
      if key.action == Pressed {
        if keyStates[key.keyID] == KeyPressed {
          keyStates[key.keyID] := KeyRepeat;
        } else if keyStates[key.keyID] == KeyReleased {
          keyStates[key.keyID] := KeyPressed;
        }
      } else if key.action == Released || key.action == PressedReleased {
        keyStates[key.keyID] := KeyReleased;
      }
    }

    /** Brings the modifiers and locks up to date with the state of the key `id`. */
    method FollowKey(id: nat) returns (changed: bool)
      requires KeysValid() && id < KEY_MAX
      modifies this`capsLock, this`numLock, this`scrollLock
      modifies this`anyShiftActive, this`anyControlActive, this`leftAltActive, this`rightAltActive
      ensures KeysView() == Followed(old(KeysView()), id)
      ensures changed <==> LedBits(KeysView()) != LedBits(old(KeysView()))
    {
      hide Switched, LedBits;
      changed := false;
      if id == CAPS_LOCK {
        capsLock, changed := SwitchLock(capsLock, keyStates[CAPS_LOCK]);
      } else if id == NUM_LOCK {
        numLock, changed := SwitchLock(numLock, keyStates[NUM_LOCK]);
      } else if id == SCROLL_LOCK {
        scrollLock, changed := SwitchLock(scrollLock, keyStates[SCROLL_LOCK]);
      } else if id == LEFT_SHIFT || id == RIGHT_SHIFT {
        anyShiftActive := keyStates[LEFT_SHIFT] != KeyReleased || keyStates[RIGHT_SHIFT] != KeyReleased;
      } else if id == LEFT_CONTROL || id == RIGHT_CONTROL {
        anyControlActive := keyStates[LEFT_CONTROL] != KeyReleased || keyStates[RIGHT_CONTROL] != KeyReleased;
      } else if id == LEFT_ALT {
        leftAltActive := keyStates[LEFT_ALT] != KeyReleased;
      } else if id == RIGHT_ALT {
        rightAltActive := keyStates[RIGHT_ALT] != KeyReleased;
      }
      LedsTellLocks(KeysView(), old(KeysView()));
    }

    method UpdateModifierState(id: nat)
      requires QueueValid() && KeysValid() && id < KEY_MAX
      modifies this`capsLock, this`numLock, this`scrollLock
      modifies this`anyShiftActive, this`anyControlActive, this`leftAltActive, this`rightAltActive
      modifies this`commandBufferSize, this`currentCommandState, this`accepted, this`sent, this`port
      modifies commandBuffer, commandDataBuffer
      ensures QueueValid() && KeysView() == Followed(old(KeysView()), id)
      ensures QueueView() == Run(old(QueueView()), LedEvents(old(KeysView()), KeysView()))
    {
      hide Pushed, Followed, LedBits, Run;
      ghost var q, before := QueueView(), KeysView();
      NoEvents(q);
      var changed := FollowKey(id);
      if changed {
        UpdateIndicatorLeds();
        OneEvent(q, Push(SetLeds(LedBits(KeysView()))));
      }
    }

    ghost function View(): Keyboard
      requires QueueValid()
      reads this, commandBuffer, commandDataBuffer, keyStates
    {
      Keyboard(Decoding(), passed, KeysView(), QueueView())
    }

    /** One interrupt; `code` is the byte read from the port. */
    method ProcessInterrupt(code: Byte)
      requires DecodingValid() && QueueValid() && KeysValid()
      modifies this, commandBuffer, commandDataBuffer, keyStates
      ensures DecodingValid() && QueueValid()
      ensures View() == AfterInterrupt(globalTable, old(View()), code)
    {
      hide PrefixFree, Ready, LedBits, Wire, Zipped, AfterInterrupt, Events, Run, KeyboardCommands.After;
      ghost var k := View();
      if code == KEY_DETECTION_ERROR0 || code == KEY_DETECTION_ERROR1 {
        SilentStep(globalTable, k, code);
        return;
      } else if code == SELF_TEST_PASSED || code == SELF_TEST_FAILED0 || code == SELF_TEST_FAILED1 {
        SelfTestStep(globalTable, k, code);
        InitialiseKeyboard();
        return;
      } else if code == ECHO {
        SilentStep(globalTable, k, code);
        return;
      } else if code == COMMAND_ACKNOWLEDGED {
        AnswerStep(globalTable, k, code);
        OnCommandAcknowledged();
        return;
      } else if code == RESEND {
        AnswerStep(globalTable, k, code);
        ResendCommand();
        return;
      }
      ProcessScanCode(code);
    }

    /** The decoder's part of the interrupt. */
    method DecodeByte(code: Byte) returns (result: Outcome)
      requires DecodingValid()
      modifies this`listeningMode, this`currentSubTable, this`currentSequence, this`sequenceByteIndex
      ensures DecodingValid()
      ensures result == Decode(old(Decoding()), code) && Decoding() == Next(globalTable, old(Decoding()), code)
    {
      hide PrefixFree, Lookup, Compare;
      if listeningMode == TableLookup {
        result := ProcessCodeByLookup(code);
      } else {
        result := ProcessByteSequenceCode(code);
      }
      assert result == Decode(old(Decoding()), code);
      if result.Decoded? || result.Failure? {
        listeningMode := TableLookup;
        currentSubTable := globalTable;
      }
    }

    /** The keys' part of it. */
    method ProcessKey(key: MapKey)
      requires DecodingValid() && QueueValid() && KeysValid() && key.keyID < KEY_MAX
      modifies keyStates, this`capsLock, this`numLock, this`scrollLock
      modifies this`anyShiftActive, this`anyControlActive, this`leftAltActive, this`rightAltActive
      modifies this`commandBufferSize, this`currentCommandState, this`accepted, this`sent, this`port
      modifies commandBuffer, commandDataBuffer
      ensures DecodingValid() && QueueValid()
      ensures var keys := AfterKey(old(KeysView()), key);
              View() == old(View()).(keys := keys, queue := Run(old(QueueView()), LedEvents(old(KeysView()), keys)))
    {
      hide Followed, Acted, Run, Zipped, Wire, PrefixFree, Ready;
      ghost var before := KeysView();
      UpdateKeyState(key);
      assert LedBits(KeysView()) == LedBits(before);
      UpdateModifierState(key.keyID);
    }

    method ProcessScanCode(code: Byte)
      requires DecodingValid() && QueueValid() && KeysValid() && !IsResponse(code)
      modifies this, commandBuffer, commandDataBuffer, keyStates
      ensures DecodingValid() && QueueValid()
      ensures View() == AfterInterrupt(globalTable, old(View()), code)
    {
      hide PrefixFree, Ready, Decode, Next, AfterKey, LedBits, Run, IsResponse, Wire, Zipped, AfterInterrupt, LedEvents;
      ghost var k := View();
      var result := DecodeByte(code);
      assert View() == k.(decoding := Next(globalTable, k.decoding, code));
      hide Decoding, KeysView, QueueView, QueueValid;
      if result.Failure? {
        FailedStep(globalTable, k, code);
        return;
      }
      if result.Decoded? { DecodedUsable(k.decoding, code); }
      var key := if result.Decoded? then result.key else NO_KEY;
      KeyStep(globalTable, k, code, key);
      passed := passed + [key];
      ProcessKey(key);
    }
  }

  // ----- The interrupt, case by case -----

  lemma SilentStep(root: Table, k: Keyboard, b: Byte)
    requires PrefixFree(root) && Steady(k) && b in {KEY_DETECTION_ERROR0, KEY_DETECTION_ERROR1, ECHO}
    ensures AfterInterrupt(root, k, b) == k
  {
  }

  lemma SelfTestStep(root: Table, k: Keyboard, b: Byte)
    requires PrefixFree(root) && Steady(k) && b in {SELF_TEST_PASSED, SELF_TEST_FAILED0, SELF_TEST_FAILED1}
    ensures AfterInterrupt(root, k, b) == k.(queue := Run(k.queue, Events(SELF_TEST_PASSED, LedBits(k.keys))))
  {
    hide PrefixFree, Steady, Run, LedBits;
  }

  lemma AnswerStep(root: Table, k: Keyboard, b: Byte)
    requires PrefixFree(root) && Steady(k) && b in {COMMAND_ACKNOWLEDGED, RESEND}
    ensures AfterInterrupt(root, k, b) ==
            k.(queue := KeyboardCommands.After(k.queue, if b == RESEND then Resend else Acknowledge))
  {
    hide PrefixFree, Steady, Run, LedBits;
    OneEvent(k.queue, if b == RESEND then Resend else Acknowledge);
  }

  lemma FailedStep(root: Table, k: Keyboard, b: Byte)
    requires PrefixFree(root) && Steady(k) && !IsResponse(b) && Decode(k.decoding, b).Failure?
    ensures AfterInterrupt(root, k, b) == k.(decoding := Next(root, k.decoding, b))
  {
    hide PrefixFree, Ready, Decode, Next, LedBits, IsResponse;
    NoEvents(k.queue);
    assert k.passed + [] == k.passed;
  }

  lemma KeyStep(root: Table, k: Keyboard, b: Byte, key: MapKey)
    requires PrefixFree(root) && Steady(k) && !IsResponse(b) && key.keyID < KEY_MAX
    requires var result := Decode(k.decoding, b);
             !result.Failure? && key == if result.Decoded? then result.key else NO_KEY
    ensures var keys := AfterKey(k.keys, key);
            AfterInterrupt(root, k, b) == Keyboard(Next(root, k.decoding, b), k.passed + [key], keys,
                                                   Run(k.queue, LedEvents(k.keys, keys)))
  {
    hide PrefixFree, Ready, Decode, Next, LedEvents, Run, AfterKey, IsResponse;
  }

  /** When the lights stay as they are, nothing is sent. */
  lemma NoEvents(q: Queue)
    ensures Run(q, []) == q
  {
  }

  function Zipped(codes: seq<Byte>, data: seq<Byte>): seq<Command>
    requires |codes| == |data|
  {
    seq(|codes|, i requires 0 <= i < |codes| => Command(codes[i], data[i]))
  }

  lemma FourPushes(q: Queue, a: Command, b: Command, c: Command, d: Command)
    ensures Run(q, [Push(a), Push(b), Push(c), Push(d)]) == Pushed(Pushed(Pushed(Pushed(q, a), b), c), d)
  {
    hide Pushed;
    RunNext(q, Push(a), [Push(b), Push(c), Push(d)]);
    RunNext(Pushed(q, a), Push(b), [Push(c), Push(d)]);
    RunNext(Pushed(Pushed(q, a), b), Push(c), [Push(d)]);
    RunNext(Pushed(Pushed(Pushed(q, a), b), c), Push(d), []);
  }

  lemma RunNext(q: Queue, e: Event, rest: seq<Event>)
    ensures Run(q, [e] + rest) == Run(KeyboardCommands.After(q, e), rest)
  {
    hide KeyboardCommands.After;
    assert ([e] + rest)[1..] == rest;
  }

  lemma OneEvent(q: Queue, e: Event)
    ensures Run(q, [e]) == KeyboardCommands.After(q, e)
  {
    hide KeyboardCommands.After;
    RunNext(q, e, []);
    assert [e] + [] == [e];
  }

  lemma WireNext(sent: seq<Command>, c: Command)
    ensures Wire(sent + [c]) == Wire(sent) + if TakesData(c.code) then [c.code, c.data] else [c.code]
  {
    assert (sent + [c])[..|sent|] == sent;
  }
}
