/** The keyboard's command queue: one command at a time is sent and waits for its response; a command may
    be asked for again. Runs are described over values, with the whole history kept. */
module KeyboardCommands {
  import opened Bytes

  datatype Command = Command(code: Byte, data: Byte)

  const BUFFER_SIZE: nat := 16
  const MAX_RESENDS: nat := 3

  /** The waiting commands, how often the first was asked for again, every command ever accepted, and
      every transmission. */
  datatype Queue = Queue(pending: seq<Command>, resends: nat, accepted: seq<Command>, sent: seq<Command>)

  const EMPTY := Queue([], 0, [], [])

  datatype Event = Push(command: Command) | Acknowledge | Resend

  function Send(q: Queue): Queue
    requires q.pending != []
  {
    q.(sent := q.sent + [q.pending[0]])
  }

  function Pushed(q: Queue, c: Command): Queue {
    if |q.pending| == BUFFER_SIZE then q
    else
      var r := q.(pending := q.pending + [c], accepted := q.accepted + [c]);
      if q.pending == [] then Send(r) else r
  }

  function Finished(q: Queue): Queue {
    var r := q.(pending := if q.pending == [] then [] else q.pending[1..], resends := 0);
    if r.pending != [] then Send(r) else r
  }

  function Resent(q: Queue): Queue
    requires q.pending != []
  {
    if q.resends < MAX_RESENDS then Send(q).(resends := q.resends + 1) else Finished(q)
  }

  function After(q: Queue, e: Event): Queue {
    match e
    case Push(c) => Pushed(q, c)
    case Acknowledge => if q.pending == [] then q else Finished(q)
    case Resend => if q.pending == [] then q else Resent(q)
  }

  function Run(q: Queue, events: seq<Event>): Queue
    decreases |events|
  {
    if events == [] then q else Run(After(q, events[0]), events[1..])
  }

  /** A command is accepted if and only if fewer than sixteen wait; it goes out at once if and only if none does. */
  lemma PushAcceptedIff(q: Queue, c: Command)
    ensures After(q, Push(c)).accepted == (if |q.pending| != 16 then q.accepted + [c] else q.accepted)
    ensures After(q, Push(c)).sent == (if q.pending == [] then q.sent + [c] else q.sent)
  {
  }

  /** Each command the given number of times. */
  function Repeated(commands: seq<Command>, times: seq<nat>): seq<Command>
    requires |commands| == |times|
    decreases |times|
  {
    if times == [] then []
    else
      var n := |times| - 1;
      Repeated(commands[..n], times[..n]) + seq(times[n], _ => commands[n])
  }

  /** The transmissions are the accepted commands in the order of acceptance, each a number of times from
      one to four; the commands not yet begun are the tail of the queue. */
  ghost predicate History(q: Queue, times: seq<nat>) {
    |q.pending| <= BUFFER_SIZE && |q.pending| <= |q.accepted| &&
    q.pending == q.accepted[|q.accepted| - |q.pending|..] &&
    |times| == |q.accepted| - |q.pending| + (if q.pending == [] then 0 else 1) &&
    q.sent == Repeated(q.accepted[..|times|], times) &&
    (forall k | 0 <= k < |times| :: 1 <= times[k] <= MAX_RESENDS + 1) &&
    if q.pending == [] then q.resends == 0 else times[|times| - 1] == q.resends + 1
  }

  /** One more transmission of a command not sent before. */
  lemma SentFirst(commands: seq<Command>, times: seq<nat>, n: nat)
    requires |times| == n < |commands|
    ensures Repeated(commands[..n + 1], times + [1]) == Repeated(commands[..n], times) + [commands[n]]
  {
    assert commands[..n + 1][..n] == commands[..n] && (times + [1])[..n] == times;
    assert seq(1, _ => commands[n]) == [commands[n]];
  }

  /** One more transmission of the last command sent. */
  lemma SentAgain(commands: seq<Command>, times: seq<nat>)
    requires 0 < |times| == |commands|
    ensures
      var n := |times| - 1;
      Repeated(commands, times[n := times[n] + 1]) == Repeated(commands, times) + [commands[n]]
  {
    var n := |times| - 1;
    assert times[n := times[n] + 1][..n] == times[..n];
    assert seq(times[n] + 1, _ => commands[n]) == seq(times[n], _ => commands[n]) + [commands[n]];
  }

  lemma PushedHistory(q: Queue, times: seq<nat>, c: Command) returns (r: seq<nat>)
    requires History(q, times)
    ensures History(Pushed(q, c), r)
  {
    hide Repeated;
    r := times;
    if |q.pending| < BUFFER_SIZE {
      var accepted := q.accepted + [c];
      assert accepted[..|times|] == q.accepted[..|times|];
      if q.pending == [] {
        SentFirst(accepted, times, |times|);
        r := times + [1];
      }
    }
  }

  lemma FinishedHistory(q: Queue, times: seq<nat>) returns (r: seq<nat>)
    requires History(q, times) && q.pending != []
    ensures History(Finished(q), r)
  {
    hide Repeated;
    r := times;
    var rest := q.pending[1..];
    assert rest == q.accepted[|q.accepted| - |rest|..];
    if |q.pending| > 1 {
      SentFirst(q.accepted, times, |times|);
      r := times + [1];
    }
  }

  lemma ResentHistory(q: Queue, times: seq<nat>) returns (r: seq<nat>)
    requires History(q, times) && q.pending != []
    ensures History(Resent(q), r)
  {
    hide Repeated, Finished;
    if q.resends < MAX_RESENDS {
      SentAgain(q.accepted[..|times|], times);
      r := times[|times| - 1 := q.resends + 2];
    } else {
      r := FinishedHistory(q, times);
    }
  }

  /** Whatever is pushed and whatever the keyboard answers, the history is in order. */
  lemma {:induction false} RunHistory(q: Queue, times: seq<nat>, events: seq<Event>) returns (r: seq<nat>)
    requires History(q, times)
    ensures History(Run(q, events), r)
    decreases |events|
  {
    hide History, Pushed, Finished, Resent;
    r := times;
    if events != [] {
      match events[0] {
        case Push(c) => r := PushedHistory(q, times, c);
        case Acknowledge => if q.pending != [] { r := FinishedHistory(q, times); }
        case Resend => if q.pending != [] { r := ResentHistory(q, times); }
      }
      r := RunHistory(After(q, events[0]), r, events[1..]);
    }
  }

  lemma EmptyHistory()
    ensures History(EMPTY, [])
  {
  }

  // ---- Draining ----

  /** Every response to a waiting command finishes it or uses up one of its repeats. */
  lemma ResponseProgress(q: Queue, e: Event)
    requires q.pending != [] && q.resends <= MAX_RESENDS && !e.Push?
    ensures
      var r := After(q, e);
      r.resends <= MAX_RESENDS &&
      (|r.pending| < |q.pending| || (|r.pending| == |q.pending| && MAX_RESENDS - r.resends < MAX_RESENDS - q.resends))
  {
  }

  /** Responses left in the worst case: four for each waiting command, less the repeats used. */
  function Budget(q: Queue): int {
    4 * |q.pending| - q.resends
  }

  /** Four responses for each waiting command empty the queue. */
  lemma {:induction false} Drains(q: Queue, responses: seq<Event>)
    requires q.resends <= MAX_RESENDS && |responses| >= Budget(q)
    requires forall e | e in responses :: !e.Push?
    ensures Run(q, responses).pending == []
    decreases |responses|
  {
    if responses != [] {
      if q.pending != [] { ResponseProgress(q, responses[0]); }
      Drains(After(q, responses[0]), responses[1..]);
    }
  }

  /** When every response asks for a repeat, no fewer will do. */
  lemma {:induction false} RepeatsNeedTheBudget(q: Queue, responses: seq<Event>)
    requires q.resends <= MAX_RESENDS && |responses| < Budget(q)
    requires forall e | e in responses :: e == Resend
    ensures Run(q, responses).pending != []
    decreases |responses|
  {
    if responses != [] {
      assert responses[0] in responses && q.pending != [];
      assert After(q, responses[0]).resends <= MAX_RESENDS;
      assert Budget(After(q, responses[0])) == Budget(q) - 1;
      assert forall e | e in responses[1..] :: e in responses;
      RepeatsNeedTheBudget(After(q, responses[0]), responses[1..]);
    }
  }

  // ---- The port ----

  /** Commands that are followed by a data byte. */
  predicate TakesData(code: Byte) {
    code in {0xED, 0xF0, 0xF3, 0xFB, 0xFC, 0xFD}
  }

  function Wire(sent: seq<Command>): seq<Byte> {
    if sent == [] then []
    else
      var c := sent[|sent| - 1];
      Wire(sent[..|sent| - 1]) + BytesOf(c)
  }

  function BytesOf(c: Command): seq<Byte> {
    if TakesData(c.code) then [c.code, c.data] else [c.code]
  }

  /** What a device makes of the bytes: a code, with the byte that follows it where the code asks for one. A
      code still waiting for its data byte is no command yet. */
  function Understood(bytes: seq<Byte>): seq<Command> {
    if bytes == [] then []
    else if TakesData(bytes[0]) then
      if |bytes| == 1 then [] else [Command(bytes[0], bytes[1])] + Understood(bytes[2..])
    else [Command(bytes[0], 0)] + Understood(bytes[1..])
  }

  /** The device understands exactly the commands sent. */
  lemma DeviceUnderstands(sent: seq<Command>)
    requires forall c | c in sent && !TakesData(c.code) :: c.data == 0
    ensures Understood(Wire(sent)) == sent
  {
    UnderstoodThen(sent, []);
    assert Wire(sent) + [] == Wire(sent);
  }

  lemma {:induction false} UnderstoodThen(sent: seq<Command>, rest: seq<Byte>)
    requires forall c | c in sent && !TakesData(c.code) :: c.data == 0
    ensures Understood(Wire(sent) + rest) == sent + Understood(rest)
    decreases |sent|
  {
    hide TakesData, BytesOf, Understood;
    if sent == [] {
      assert Wire(sent) + rest == rest;
    } else {
      var n := |sent| - 1;
      var c := sent[n];
      assert c in sent && forall d | d in sent[..n] :: d in sent;
      UnderstoodThen(sent[..n], BytesOf(c) + rest);
      assert Wire(sent) + rest == Wire(sent[..n]) + (BytesOf(c) + rest);
      UnderstoodOne(c, rest);
      assert sent + Understood(rest) == sent[..n] + ([c] + Understood(rest));
    }
  }

  lemma UnderstoodOne(c: Command, rest: seq<Byte>)
    requires !TakesData(c.code) ==> c.data == 0
    ensures Understood(BytesOf(c) + rest) == [c] + Understood(rest)
  {
    var bytes := BytesOf(c) + rest;
    if TakesData(c.code) { assert bytes[2..] == rest; } else { assert bytes[1..] == rest; }
  }
}
