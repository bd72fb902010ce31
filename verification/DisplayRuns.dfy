/** The shell's display over whole runs: the text kept, the window of it to show, and what is shown. */
module DisplayRuns {
  import opened BuiltInBitmapFont
  import opened RingText
  import opened TextLayout

  datatype Display = Display(text: seq<Char>, window: seq<Char>, onScreen: seq<Glyphic>)

  datatype Op = Print(message: seq<Char>) | DeleteLast | Flush | ClearAll

  const EMPTY := Display([], [], [])

  /** The window is the last part of the text, which fits the ring. */
  ghost predicate Valid(d: Display) {
    |d.text| < CAPACITY && 0 !in d.text && |d.window| <= |d.text| && d.window == d.text[|d.text| - |d.window|..]
  }

  /** One operation takes `s` to `t`. A flush needs a window whose metrics the font has; deleting needs a
      window that is not empty, unless there is no text. */
  ghost predicate Step(p: Page, numLines: nat, op: Op, s: Display, t: Display)
    requires numLines > 0
  {
    match op
    case Print(message) =>
      0 !in message && t == Display(Last(s.text + message), Last(s.window + message), s.onScreen)
    case DeleteLast =>
      if s.text == [] then t == s
      else s.window != [] && t == Display(s.text[..|s.text| - 1], s.window[..|s.window| - 1], s.onScreen)
    case Flush =>
      127 !in s.window && t.text == s.text &&
      exists k: nat :: Flushed(p, numLines, s.window, k, t)
    case ClearAll => t == EMPTY
  }

  /** A flush drops the first `k` characters of the window and shows the rest. */
  ghost predicate Flushed(p: Page, numLines: nat, window: seq<Glyphic>, k: nat, t: Display)
    requires numLines > 0
  {
    StopsAt(p, window, Overflow(p, window, numLines), k) && t.window == window[k..] && t.onScreen == window[k..]
  }

  ghost predicate IsRun(p: Page, numLines: nat, ops: seq<Op>, run: seq<Display>)
    requires numLines > 0
  {
    |run| == |ops| + 1 && forall i | 0 <= i < |ops| :: Step(p, numLines, ops[i], run[i], run[i + 1])
  }

  lemma LastOfSuffix(s: seq<Char>, n: nat, message: seq<Char>)
    requires n <= |s|
    ensures
      var a, b := Last(s + message), Last(s[n..] + message);
      |b| <= |a| && b == a[|a| - |b|..]
  {
    assert (s + message)[n..] == s[n..] + message;
  }

  lemma StepKeepsValid(p: Page, numLines: nat, op: Op, s: Display, t: Display)
    requires numLines > 0 && Valid(s) && Step(p, numLines, op, s, t)
    ensures Valid(t)
  {
    hide StopsAt, Overflow, Valid, Last;
    match op
    case Print(message) => PrintKeepsValid(s, message);
    case DeleteLast => if s.text != [] { DeleteKeepsValid(s); }
    case Flush =>
      var window: seq<Glyphic> := s.window;
      var k: nat :| Flushed(p, numLines, window, k, t);
      StopsWithin(p, window, Overflow(p, window, numLines), k);
      FlushKeepsValid(s, k, t);
    case ClearAll => EmptyIsValid();
  }

  lemma PrintKeepsValid(s: Display, message: seq<Char>)
    requires Valid(s) && 0 !in message
    ensures Valid(Display(Last(s.text + message), Last(s.window + message), s.onScreen))
  {
    hide Last;
    LastOfSuffix(s.text, |s.text| - |s.window|, message);
    LastWithin(s.text + message, 0);
  }

  lemma LastWithin(text: seq<Char>, c: Char)
    ensures |Last(text)| < CAPACITY && (c in Last(text) ==> c in text)
  {
  }

  lemma DeleteKeepsValid(s: Display)
    requires Valid(s) && s.window != []
    ensures Valid(Display(s.text[..|s.text| - 1], s.window[..|s.window| - 1], s.onScreen))
  {
  }

  lemma FlushKeepsValid(s: Display, k: nat, t: Display)
    requires Valid(s) && k <= |s.window| && t.text == s.text && t.window == s.window[k..]
    ensures Valid(t)
  {
  }

  lemma EmptyIsValid()
    ensures Valid(EMPTY)
  {
  }

  lemma StopsWithin(p: Page, text: seq<Glyphic>, lines: nat, k: nat)
    requires StopsAt(p, text, lines, k)
    ensures k <= |text|
  {
  }

  /** In every run the window stays the last part of the text; after each flush it fits the display, is
      what is shown, and is empty only if it was empty before or there is a single line, just completed. */
  lemma {:induction false} RunStaysValid(p: Page, numLines: nat, ops: seq<Op>, run: seq<Display>, i: nat)
    requires numLines > 0 && IsRun(p, numLines, ops, run) && Valid(run[0]) && i <= |ops|
    ensures Valid(run[i])
    ensures i > 0 && ops[i - 1].Flush? ==>
              127 !in run[i].window && 127 !in run[i - 1].window && run[i].onScreen == run[i].window &&
              Laid(p, HOME, run[i].window).line < numLines &&
              (run[i].window == [] <==> run[i - 1].window == [] || (numLines == 1 && CompletesLine(p, run[i - 1].window)))
  {
    if i > 0 {
      RunStaysValid(p, numLines, ops, run, i - 1);
      hide Valid, StopsAt, Overflow, Laid, CompletesLine;
      var op, s, t := ops[i - 1], run[i - 1], run[i - 1 + 1];
      assert Step(p, numLines, op, s, t);
      StepKeepsValid(p, numLines, op, s, t);
      if op.Flush? {
        var k: nat :| Flushed(p, numLines, s.window, k, t);
        AfterFlush(p, numLines, s.window, k);
      }
    }
  }

  /** The last character of the text completes a line. */
  predicate CompletesLine(p: Page, text: seq<Glyphic>) {
    text != [] && Laid(p, HOME, text[..|text| - 1]).line < Laid(p, HOME, text).line
  }

  lemma AfterFlush(p: Page, numLines: nat, window: seq<Glyphic>, k: nat)
    requires numLines > 0 && StopsAt(p, window, Overflow(p, window, numLines), k)
    ensures k <= |window| && Laid(p, HOME, window[k..]).line < numLines
    ensures window[k..] == [] <==> window == [] || (numLines == 1 && CompletesLine(p, window))
  {
    hide Laid;
    ScrolledFits(p, window, numLines, k);
    EmptiedIff(p, window, numLines, k);
  }

  /** All that a run without deletions prints. */
  function Printed(ops: seq<Op>): seq<Char> {
    if ops == [] then []
    else
      var op := ops[|ops| - 1];
      Printed(ops[..|ops| - 1]) + if op.Print? then op.message else []
  }

  lemma ShortIsWhole(text: seq<Char>)
    requires |text| < CAPACITY
    ensures Last(text) == text
  {
  }

  /** Printing keeps the last characters; a flush leaves the text alone. */
  lemma StepText(p: Page, numLines: nat, op: Op, s: Display, t: Display)
    requires numLines > 0 && Step(p, numLines, op, s, t) && (op.Print? || op.Flush?) && Last(s.text) == s.text
    ensures t.text == Last(s.text + if op.Print? then op.message else [])
  {
    assert s.text + [] == s.text;
  }

  lemma LastIsLast(text: seq<Char>)
    ensures Last(Last(text)) == Last(text)
  {
  }

  /** Flushes apart, a run that only prints keeps the last 65535 characters of all that it printed. */
  lemma {:induction false} RunKeepsLastPrinted(p: Page, numLines: nat, ops: seq<Op>, run: seq<Display>)
    requires numLines > 0 && IsRun(p, numLines, ops, run) && Valid(run[0])
    requires forall i | 0 <= i < |ops| :: ops[i].Print? || ops[i].Flush?
    ensures run[|ops|].text == Last(run[0].text + Printed(ops))
  {
    hide Step, Last;
    if ops == [] {
      assert run[0].text + [] == run[0].text;
      ShortIsWhole(run[0].text);
    } else {
      var n := |ops| - 1;
      RunKeepsLastPrinted(p, numLines, ops[..n], run[..n + 1]);
      LastIsLast(run[0].text + Printed(ops[..n]));
      StepText(p, numLines, ops[n], run[n], run[n + 1]);
      var before := run[0].text + Printed(ops[..n]);
      var message := if ops[n].Print? then ops[n].message else [];
      LastTwice(before, message);
      assert before + message == run[0].text + Printed(ops);
    }
  }

  /** With a single line, printing a new line and flushing leaves a text but an empty window, in which
      deleting goes wrong. */
  lemma EmptyWindowReached(p: Page)
    ensures
      var s, t := Display([NEW_LINE], [NEW_LINE], []), Display([NEW_LINE], [], []);
      IsRun(p, 1, [Print([NEW_LINE]), Flush], [EMPTY, s, t])
  {
    var s, t := Display([NEW_LINE], [NEW_LINE], []), Display([NEW_LINE], [], []);
    var w: seq<Glyphic> := [NEW_LINE];
    assert [] + [NEW_LINE] == [NEW_LINE] && w[..0] == [] && w[..1] == w && w[1..] == [];
    LaidNext(p, HOME, w, 0);
    assert Flushed(p, 1, w, 1, t);
    assert Step(p, 1, Print([NEW_LINE]), EMPTY, s) && Step(p, 1, Flush, s, t);
  }
}
