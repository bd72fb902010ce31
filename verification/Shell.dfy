/** The shell's display: characters go into a ring, and a flush erases what is on the screen, scrolls the
    window so that it fits, lays it out again and swaps the buffers. */
module Shell {
  import opened BuiltInBitmapFont
  import opened Bytes
  import opened CpuGraphicsDriver
  import DisplayRuns
  import opened GlyphPainting
  import LineGeometry
  import opened RingText
  import opened ScreenState
  import opened TextLayout
  import opened Wrappers

  class Shell {
    const displayCharacters: array<Char>
    const onScreenCharacters: array<Char>
    const driver: Driver
    const page: Page
    const numLines: nat
    const backgroundColor: Colour
    var displayRingBufferStart: nat
    var displayRingBufferEnd: nat
    var firstDisplayChar: nat
    var outputCursorX: nat
    var outputCursorY: nat
    var currentLine: nat
    /** The text whose glyphs are in the back buffer. */
    ghost var onScreen: seq<Glyphic>

    ghost predicate SetUp() {
      numLines > 0 && displayCharacters.Length == onScreenCharacters.Length == CAPACITY &&
      displayCharacters != onScreenCharacters && ImageHoldsGlyphs(page.font) &&
      WellFormed(driver.mode) && driver.mode.format != NoFramebufferFormat
    }

    /** The screen shows the glyphs of the text that `onScreenCharacters` records, and nothing else. */
    ghost predicate ScreenValid()
      reads this`onScreen, onScreenCharacters, driver, driver.mainFramebuffer, driver.renderFramebuffer
    {
      SetUp() && Records(onScreenCharacters[..], onScreen) && driver.Valid() && Coherent(driver.mode, driver.View()) &&
      Shows(driver.mode, driver.blend, page.font, Glyphs(page, onScreen), backgroundColor, driver.View().back)
    }

    constructor (graphicsDriver: Driver, font: Font, consoleWidth: nat, consoleHeight: nat, background: Colour)
      requires graphicsDriver.Valid() && graphicsDriver.mode.format != NoFramebufferFormat
      requires ImageHoldsGlyphs(font) && font.lineHeight > 0
      modifies graphicsDriver, graphicsDriver.mainFramebuffer, graphicsDriver.renderFramebuffer
      ensures RingValid() && View() == DisplayRuns.EMPTY && ScreenValid()
      ensures driver == graphicsDriver && driver.View().visible == driver.View().back
      ensures page == Page(font, consoleWidth)
      ensures numLines == if consoleHeight / font.lineHeight > 1 then consoleHeight / font.lineHeight - 1 else 1
    {
      displayCharacters := new Char[CAPACITY](_ => 0);
      onScreenCharacters := new Char[CAPACITY](_ => 0);
      driver := graphicsDriver;
      page := Page(font, consoleWidth);
      var lines := consoleHeight / font.lineHeight;
      numLines := if lines > 1 then lines - 1 else 1;
      backgroundColor := background;
      displayRingBufferStart, displayRingBufferEnd, firstDisplayChar := 0, 0, 0;
      outputCursorX, outputCursorY, currentLine := 0, 0, 0;
      onScreen := [];
      new;
      hide ImageHoldsGlyphs;
      assert RingValid() && View() == DisplayRuns.EMPTY;
      hide InRing, Ordered, Text, Window;
      ShowEmptyScreen();
    }

    /** Clears the screen, before any text. */
    method ShowEmptyScreen()
      requires SetUp() && driver.Valid() && onScreen == [] && Records(onScreenCharacters[..], onScreen)
      modifies driver, driver.mainFramebuffer, driver.renderFramebuffer
      ensures ScreenValid() && driver.View().visible == driver.View().back
    {
      hide Step, Coherent, Shows, ImageHoldsGlyphs, Records;
      assert Glyphs(page, []) == [];
      ghost var s := driver.View();
      driver.ClearScreen(backgroundColor);
      ghost var t := driver.View();
      StepKeepsCoherence(driver.mode, driver.blend, ClearAll(backgroundColor), s, t);
      ClearShowsNothing(driver.mode, driver.blend, page.font, backgroundColor, s, t);
      driver.SwapBuffers();
      SwapShows(driver.mode, driver.blend, t, driver.View());
    }

    // ---- The ring ----

    ghost predicate InRing()
      reads this`displayRingBufferStart, this`displayRingBufferEnd, this`firstDisplayChar
    {
      displayCharacters.Length == CAPACITY && displayCharacters != onScreenCharacters && numLines > 0 &&
      displayRingBufferStart < CAPACITY && displayRingBufferEnd < CAPACITY && firstDisplayChar < CAPACITY
    }

    /** The window begins in the text, in the cyclic order. */
    ghost predicate Ordered()
      requires InRing()
      reads this`displayRingBufferStart, this`displayRingBufferEnd, this`firstDisplayChar
    {
      Distance(displayRingBufferStart, firstDisplayChar) <= Distance(displayRingBufferStart, displayRingBufferEnd)
    }

    /** All characters kept. */
    ghost function Text(): seq<Char>
      requires InRing()
      reads this`displayRingBufferStart, this`displayRingBufferEnd, this`firstDisplayChar, displayCharacters
    {
      Contents(displayCharacters[..], displayRingBufferStart, displayRingBufferEnd)
    }

    /** The characters to display. */
    ghost function Window(): seq<Char>
      requires InRing()
      reads this`displayRingBufferStart, this`displayRingBufferEnd, this`firstDisplayChar, displayCharacters
    {
      Contents(displayCharacters[..], firstDisplayChar, displayRingBufferEnd)
    }

    ghost predicate RingValid()
      reads this`displayRingBufferStart, this`displayRingBufferEnd, this`firstDisplayChar, displayCharacters
    {
      InRing() && Ordered() && 0 !in Text()
    }

    /** The display as a run of operations sees it. */
    ghost function View(): DisplayRuns.Display
      requires InRing()
      reads this`displayRingBufferStart, this`displayRingBufferEnd, this`firstDisplayChar, this`onScreen, displayCharacters
    {
      DisplayRuns.Display(Text(), Window(), onScreen)
    }

    /** A valid ring is a valid display. */
    lemma ValidView()
      requires RingValid()
      ensures DisplayRuns.Valid(View())
    {
      WindowInText(displayCharacters[..], displayRingBufferStart, firstDisplayChar, displayRingBufferEnd);
      hide Contents;
    }

    /** Stores one character; a null character is ignored. */
    method PutChar(c: Char)
      requires RingValid()
      modifies this`displayRingBufferStart, this`displayRingBufferEnd, this`firstDisplayChar, displayCharacters
      ensures RingValid()
      ensures Text() == if c == 0 then old(Text()) else Last(old(Text()) + [c])
      ensures Window() == if c == 0 then old(Window()) else Last(old(Window()) + [c])
      ensures c != 0 ==> DisplayRuns.Step(page, numLines, DisplayRuns.Print([c]), old(View()), View())
      ensures old(ScreenValid()) ==> ScreenValid()
    {
      hide Contents, Last, Distance;
      if c == 0 { return; }
      var bufferStart: nat := displayRingBufferStart;
      var currentChar: nat := displayRingBufferEnd;
      RingPut(displayCharacters[..], bufferStart, firstDisplayChar, currentChar, c);
      displayCharacters[currentChar] := c;
      assert displayCharacters[..] == old(displayCharacters[..])[currentChar := c];
      currentChar := (currentChar + 1) % CAPACITY;
      if currentChar == bufferStart { bufferStart := (bufferStart + 1) % CAPACITY; }
      if currentChar == firstDisplayChar { firstDisplayChar := (firstDisplayChar + 1) % CAPACITY; }
      displayRingBufferStart := bufferStart;
      displayRingBufferEnd := currentChar;
    }

    /** Stores a message, up to its terminating null character; `None` is a null pointer. */
    method Puts(msg: Option<seq<Char>>)
      requires RingValid() && (msg.Some? ==> 0 !in msg.value)
      modifies this`displayRingBufferStart, this`displayRingBufferEnd, this`firstDisplayChar, displayCharacters
      ensures RingValid()
      ensures Text() == if msg.None? then old(Text()) else Last(old(Text()) + msg.value)
      ensures Window() == if msg.None? then old(Window()) else Last(old(Window()) + msg.value)
      ensures msg.Some? ==> DisplayRuns.Step(page, numLines, DisplayRuns.Print(msg.value), old(View()), View())
      ensures old(ScreenValid()) ==> ScreenValid()
    {
      hide Contents, Last, Distance;
      if msg.None? { return; }
      var bufferStart: nat := displayRingBufferStart;
      var currentChar: nat := displayRingBufferEnd;
      ghost var text0, window0 := Text(), Window();
      var msgLength: nat := 0;
      PutNothing(displayCharacters[..], bufferStart, firstDisplayChar, currentChar);
      while msgLength < |msg.value|
        invariant msgLength <= |msg.value| && InRing() && bufferStart < CAPACITY && currentChar < CAPACITY
        invariant Distance(bufferStart, firstDisplayChar) <= Distance(bufferStart, currentChar)
        invariant Contents(displayCharacters[..], bufferStart, currentChar) == Last(text0 + msg.value[..msgLength])
        invariant Contents(displayCharacters[..], firstDisplayChar, currentChar) == Last(window0 + msg.value[..msgLength])
        invariant 0 !in Contents(displayCharacters[..], bufferStart, currentChar)
      {
        var character := msg.value[msgLength];
        ghost var ring := displayCharacters[..];
        RingPut(ring, bufferStart, firstDisplayChar, currentChar, character);
        LastNext(text0, msg.value, msgLength);
        LastNext(window0, msg.value, msgLength);
        displayCharacters[currentChar] := character;
        assert displayCharacters[..] == ring[currentChar := character];
        currentChar := (currentChar + 1) % CAPACITY;
        if currentChar == bufferStart { bufferStart := (bufferStart + 1) % CAPACITY; }
        if currentChar == firstDisplayChar { firstDisplayChar := (firstDisplayChar + 1) % CAPACITY; }
        msgLength := msgLength + 1;
      }
      assert msg.value[..msgLength] == msg.value;
      displayRingBufferStart := bufferStart;
      displayRingBufferEnd := currentChar;
    }

    /** Takes the last character back. The window survives this if and only if it is not empty (or there
        is no text at all): otherwise the end moves in front of the first character to display. */
    method DeleteLastDisplayChar()
      requires RingValid()
      modifies this`displayRingBufferEnd
      ensures InRing()
      ensures RingValid() <==> old(|Text()|) == 0 || old(|Window()|) > 0
      ensures Text() == if old(|Text()|) == 0 then [] else old(Text())[..old(|Text()|) - 1]
      ensures RingValid() ==> Window() == if old(|Text()|) == 0 then [] else old(Window())[..old(|Window()|) - 1]
      ensures RingValid() ==> DisplayRuns.Step(page, numLines, DisplayRuns.DeleteLast, old(View()), View())
      ensures old(ScreenValid()) ==> ScreenValid()
    {
      hide ScreenValid, Contents;
      if displayRingBufferStart == displayRingBufferEnd { return; }
      Shorten(displayCharacters[..], displayRingBufferStart, displayRingBufferEnd);
      if firstDisplayChar != displayRingBufferEnd { Shorten(displayCharacters[..], firstDisplayChar, displayRingBufferEnd); }
      if displayRingBufferEnd == 0 {
        displayRingBufferEnd := CAPACITY - 1;
      } else {
        displayRingBufferEnd := displayRingBufferEnd - 1;
      }
    }

    // ---- Layout ----

    method GetNumOverflowLines() returns (overflow: nat)
      requires RingValid() && SetUp() && 127 !in Window()
      ensures overflow == Overflow(page, Window(), numLines)
    {
      hide Contents, Distance, After, ImageHoldsGlyphs;
      ghost var w: seq<Glyphic> := Window();
      ghost var k: nat := 0;
      var lines: nat := 0;
      var cursorX := 0;
      var i: nat := firstDisplayChar;
      WalkStart(displayCharacters[..], firstDisplayChar, displayRingBufferEnd);
      while i != displayRingBufferEnd
        invariant k <= |w| && i == After(firstDisplayChar, k) < CAPACITY
        invariant lines == Laid(page, HOME, w[..k]).line && cursorX == Laid(page, HOME, w[..k]).x
        decreases |w| - k
      {
        Walk(displayCharacters[..], firstDisplayChar, displayRingBufferEnd, k);
        LaidNext(page, HOME, w, k);
        var character := displayCharacters[i];
        var advanceX := Advance(page.font, character);
        if character == NEW_LINE {
          cursorX, lines := 0, lines + 1;
        } else {
          if cursorX + advanceX > page.width { cursorX, lines := 0, lines + 1; }
          cursorX := cursorX + advanceX;
        }
        i, k := (i + 1) % CAPACITY, k + 1;
      }
      WalkEnd(displayCharacters[..], firstDisplayChar, displayRingBufferEnd, k);
      assert w[..k] == w;
      if lines >= numLines { return lines - numLines + 1; }
      return 0;
    }

    /** Moves the window's start past `lines` complete lines; `dropped` counts the characters passed. */
    method ScrollDisplay(lines: nat) returns (ghost dropped: nat)
      requires RingValid() && SetUp() && 127 !in Window()
      modifies this`firstDisplayChar
      ensures RingValid() && Text() == old(Text())
      ensures StopsAt(page, old(Window()), lines, dropped)
      ensures Window() == old(Window())[dropped..]
    {
      hide Contents, Distance, After, ImageHoldsGlyphs;
      ghost var w: seq<Glyphic> := Window();
      ghost var ring, first := displayCharacters[..], firstDisplayChar;
      dropped := 0;
      var placedLines: nat := 0;
      var cursorX := 0;
      var i: nat := firstDisplayChar;
      WalkStart(ring, first, displayRingBufferEnd);
      while i != displayRingBufferEnd && placedLines != lines
        invariant dropped <= |w| && i == After(first, dropped) < CAPACITY
        invariant placedLines == Laid(page, HOME, w[..dropped]).line && cursorX == Laid(page, HOME, w[..dropped]).x
        invariant forall j: nat | j < dropped :: Laid(page, HOME, w[..j]).line != lines
        decreases |w| - dropped
      {
        Walk(ring, first, displayRingBufferEnd, dropped);
        LaidNext(page, HOME, w, dropped);
        var character := displayCharacters[i];
        if character == NEW_LINE {
          cursorX, placedLines := 0, placedLines + 1;
        } else {
          var advanceX := Advance(page.font, character);
          if cursorX + advanceX > page.width { cursorX, placedLines := 0, placedLines + 1; }
          cursorX := cursorX + advanceX;
        }
        i, dropped := (i + 1) % CAPACITY, dropped + 1;
      }
      WalkEnd(ring, first, displayRingBufferEnd, dropped);
      DropKeepsOrder(ring, displayRingBufferStart, first, displayRingBufferEnd, dropped);
      firstDisplayChar := i;
    }

    // ---- The screen ----

    /** Erases the glyphs on the screen, found by laying the recorded text out again. */
    method ResetText()
      requires ScreenValid()
      modifies this`onScreen, onScreenCharacters, driver, driver.renderFramebuffer
      ensures ScreenValid() && onScreen == []
    {
      hide Step, Coherent, Shows, ImageHoldsGlyphs;
      EraseGlyphs();
      var i: nat := 0;
      while i < CAPACITY
        invariant i <= CAPACITY && forall j: nat | j < i :: onScreenCharacters[j] == 0
        modifies onScreenCharacters
      {
        onScreenCharacters[i] := 0;
        i := i + 1;
      }
      onScreen := [];
    }

    method EraseGlyphs()
      requires ScreenValid()
      modifies driver, driver.renderFramebuffer
      ensures driver.Valid() && Coherent(driver.mode, driver.View())
      ensures Shows(driver.mode, driver.blend, page.font, [], backgroundColor, driver.View().back)
    {
      hide Step, Coherent, Shows, ImageHoldsGlyphs, ClearedExcept, Placed, GlyphAt, Records, Laid, Glyphs;
      NothingDrawn(page, onScreen);
      ghost var glyphs, n: nat := Glyphs(page, onScreen), 0;
      ShownIsInBoxes(driver.mode, driver.blend, page.font, glyphs, backgroundColor, driver.View().back);
      assert glyphs[0..] == glyphs;
      var cursorX: nat, cursorY: nat := 0, 0;
      var i: nat := 0;
      while i < CAPACITY
        invariant i <= |onScreen| && n == |Glyphs(page, onScreen[..i])| <= |glyphs|
        invariant cursorX == Laid(page, HOME, onScreen[..i]).x && cursorY == Laid(page, HOME, onScreen[..i]).y
        invariant driver.Valid() && Coherent(driver.mode, driver.View())
        invariant ClearedExcept(driver.mode, page.font, glyphs[n..], backgroundColor, driver.View().back)
      {
        RecordAt(onScreenCharacters[..], onScreen, i);
        var character := onScreenCharacters[i];
        if character == 0 { break; }
        LaidNext(page, HOME, onScreen, i);
        GlyphsNext(page, onScreen, i);
        GlyphsPrefix(page, onScreen, i + 1);
        ghost var at := Laid(page, HOME, onScreen[..i]);
        cursorX, cursorY := EraseNext(character, cursorX, cursorY, at, glyphs[n..]);
        n := n + |GlyphAt(page, at, character)|;
        i := i + 1;
      }
      RecordAt(onScreenCharacters[..], onScreen, i);
      assert onScreen[..i] == onScreen;
      assert glyphs[n..] == [];
      ClearedShowsNothing(driver.mode, driver.blend, page.font, backgroundColor, driver.View().back);
    }

    /** One pass of the erasing loop: the character's glyph, if it has one, is the next to erase. */
    method EraseNext(character: Glyphic, cursorX: nat, cursorY: nat, ghost at: Cursor, ghost left: seq<Glyph>) returns (x: nat, y: nat)
      requires SetUp() && driver.Valid() && Coherent(driver.mode, driver.View())
      requires at.x == cursorX && at.y == cursorY && GlyphAt(page, at, character) <= left
      requires ClearedExcept(driver.mode, page.font, left, backgroundColor, driver.View().back)
      modifies driver, driver.renderFramebuffer
      ensures driver.Valid() && Coherent(driver.mode, driver.View())
      ensures x == Placed(page, at, character).x && y == Placed(page, at, character).y
      ensures ClearedExcept(driver.mode, page.font, left[|GlyphAt(page, at, character)|..], backgroundColor, driver.View().back)
    {
      hide Step, Coherent, ClearedExcept, ImageHoldsGlyphs;
      x, y := cursorX, cursorY;
      if character == NEW_LINE {
        assert left[0..] == left;
        return 0, y + page.font.lineHeight;
      }
      var advanceX := Advance(page.font, character);
      if x + advanceX > page.width { x, y := 0, y + page.font.lineHeight; }
      EraseGlyph(Glyph(character, x, y), left);
      x := x + advanceX;
    }

    /** Clears the box of the next glyph. */
    method EraseGlyph(g: Glyph, ghost left: seq<Glyph>)
      requires SetUp() && driver.Valid() && Coherent(driver.mode, driver.View()) && left != [] && left[0] == g
      requires ClearedExcept(driver.mode, page.font, left, backgroundColor, driver.View().back)
      modifies driver, driver.renderFramebuffer
      ensures driver.Valid() && Coherent(driver.mode, driver.View())
      ensures ClearedExcept(driver.mode, page.font, left[1..], backgroundColor, driver.View().back)
    {
      hide Step, Coherent, ClearedExcept, ImageHoldsGlyphs, Box;
      ghost var s := driver.View();
      BoxIsClearable(page.font, g);
      driver.ClearScreenRegions([Box(page.font, g)], backgroundColor);
      StepKeepsCoherence(driver.mode, driver.blend, ClearRegions([Box(page.font, g)], backgroundColor), s, driver.View());
      assert left == [g] + left[1..];
      ErasingClears(driver.mode, driver.blend, page.font, g, left[1..], backgroundColor, s, driver.View());
    }

    /** Lays out and draws the characters between two positions of the ring, recording them, until the
        display is full; `laid` counts them. */
    method SetText(firstChar: nat, endChar: nat) returns (ghost laid: nat)
      requires ScreenValid() && InRing() && onScreen == [] && firstChar < CAPACITY && endChar < CAPACITY
      requires 0 !in Contents(displayCharacters[..], firstChar, endChar) && 127 !in Contents(displayCharacters[..], firstChar, endChar)
      modifies this`outputCursorX, this`outputCursorY, this`currentLine, this`onScreen
      modifies onScreenCharacters, driver, driver.renderFramebuffer
      ensures ScreenValid()
      ensures
        var text := Contents(displayCharacters[..], firstChar, endChar);
        StopsAt(page, text, numLines, laid) && onScreen == text[..laid] &&
        Cursor(currentLine, outputCursorX, outputCursorY) == Laid(page, HOME, onScreen)
      ensures forall g | g in Glyphs(page, onScreen) :: LineGeometry.OnPage(page, numLines + 1, g)
    {
      hide Step, Coherent, Shows, ImageHoldsGlyphs, Contents, Distance, After, Records, Placed, GlyphAt, Laid, Glyphs,
           LineGeometry.OnPage;
      ghost var w: seq<Glyphic> := Contents(displayCharacters[..], firstChar, endChar);
      NothingDrawn(page, w);
      laid := 0;
      var onScreenIndex: nat := 0;
      outputCursorX, outputCursorY, currentLine := 0, 0, 0;
      var i := firstChar;
      WalkStart(displayCharacters[..], firstChar, endChar);
      while i != endChar
        invariant laid <= |w| && i == After(firstChar, laid) < CAPACITY && onScreenIndex == laid
        invariant w == Contents(displayCharacters[..], firstChar, endChar)
        invariant ScreenValid() && onScreen == w[..laid]
        invariant Cursor(currentLine, outputCursorX, outputCursorY) == Laid(page, HOME, w[..laid])
        invariant forall j: nat | j < laid :: Laid(page, HOME, w[..j]).line != numLines
        decreases |w| - laid
      {
        if currentLine == numLines {
          LineGeometry.StoppedIsOnPage(page, w, numLines, laid);
          return;
        }
        Walk(displayCharacters[..], firstChar, endChar, laid);
        LaidNext(page, HOME, w, laid);
        var character := displayCharacters[i];
        assert onScreen + [character] == w[..laid + 1];
        onScreenIndex := ShowNext(onScreenIndex, character);
        i, laid := (i + 1) % CAPACITY, laid + 1;
      }
      WalkEnd(displayCharacters[..], firstChar, endChar, laid);
      LineGeometry.StoppedIsOnPage(page, w, numLines, laid);
    }

    /** Records the next character to be shown, and shows it. */
    method ShowNext(index: nat, character: Glyphic) returns (nextIndex: nat)
      requires ScreenValid() && character != 0 && index == |onScreen| && index + 1 < CAPACITY
      requires Cursor(currentLine, outputCursorX, outputCursorY) == Laid(page, HOME, onScreen)
      modifies this`outputCursorX, this`outputCursorY, this`currentLine, this`onScreen
      modifies onScreenCharacters, driver, driver.renderFramebuffer
      ensures ScreenValid() && nextIndex == index + 1 && onScreen == old(onScreen) + [character]
      ensures
        Cursor(currentLine, outputCursorX, outputCursorY) ==
        Placed(page, Cursor(old(currentLine), old(outputCursorX), old(outputCursorY)), character)
    {
      hide Step, Coherent, Shows, ImageHoldsGlyphs, Records, Placed, GlyphAt;
      nextIndex := index;
      ghost var text, before := onScreen + [character], onScreenCharacters[..];
      assert text[..index] == onScreen && text[..index + 1] == text;
      GlyphsNext(page, text, index);
      if index < CAPACITY {
        RecordsNext(before, onScreen, character);
        onScreenCharacters[index] := character;
        assert onScreenCharacters[..] == before[index := character];
        nextIndex := index + 1;
      }
      PutNext(character, Glyphs(page, onScreen));
      onScreen := text;
    }

    /** One pass of the layout loop: wraps the line if need be, draws the glyph and moves the cursor on. */
    method PutNext(character: Glyphic, ghost shown: seq<Glyph>)
      requires SetUp() && driver.Valid() && Coherent(driver.mode, driver.View())
      requires Shows(driver.mode, driver.blend, page.font, shown, backgroundColor, driver.View().back)
      modifies this`outputCursorX, this`outputCursorY, this`currentLine, driver, driver.renderFramebuffer
      ensures driver.Valid() && Coherent(driver.mode, driver.View())
      ensures
        var at := Cursor(old(currentLine), old(outputCursorX), old(outputCursorY));
        Cursor(currentLine, outputCursorX, outputCursorY) == Placed(page, at, character) &&
        Shows(driver.mode, driver.blend, page.font, shown + GlyphAt(page, at, character), backgroundColor, driver.View().back)
    {
      hide Step, Coherent, Shows, ImageHoldsGlyphs;
      if character == NEW_LINE {
        assert shown + [] == shown;
        outputCursorX, outputCursorY, currentLine := 0, outputCursorY + page.font.lineHeight, currentLine + 1;
        return;
      }
      var advanceX := Advance(page.font, character);
      if outputCursorX + advanceX > page.width {
        outputCursorX, outputCursorY, currentLine := 0, outputCursorY + page.font.lineHeight, currentLine + 1;
      }
      PutGlyph(Glyph(character, outputCursorX, outputCursorY), shown);
      outputCursorX := outputCursorX + advanceX;
    }

    method PutGlyph(g: Glyph, ghost shown: seq<Glyph>)
      requires SetUp() && driver.Valid() && Coherent(driver.mode, driver.View())
      requires Shows(driver.mode, driver.blend, page.font, shown, backgroundColor, driver.View().back)
      modifies driver, driver.renderFramebuffer
      ensures driver.Valid() && Coherent(driver.mode, driver.View())
      ensures Shows(driver.mode, driver.blend, page.font, shown + [g], backgroundColor, driver.View().back)
    {
      hide Step, Coherent, Shows, ImageHoldsGlyphs;
      ghost var s := driver.View();
      DrawGlyph(driver, page.font, g);
      if Printable(g.code) {
        StepKeepsCoherence(driver.mode, driver.blend, BlitImage(GlyphBlit(page.font, g)), s, driver.View());
      }
      DrawingShows(driver.mode, driver.blend, page.font, shown, g, backgroundColor, s, driver.View());
    }

    /** Brings the screen up to date. Afterwards the visible screen is what drawing the whole window on a
        cleared screen gives, whatever was there before; the window has lost `dropped` characters and
        fits the display. */
    method FlushStdOut() returns (ghost dropped: nat)
      requires RingValid() && ScreenValid() && 127 !in Window()
      modifies this`firstDisplayChar, this`outputCursorX, this`outputCursorY, this`currentLine, this`onScreen
      modifies onScreenCharacters, driver, driver.mainFramebuffer, driver.renderFramebuffer
      ensures RingValid() && ScreenValid() && Text() == old(Text())
      ensures StopsAt(page, old(Window()), Overflow(page, old(Window()), numLines), dropped)
      ensures Window() == old(Window())[dropped..] && onScreen == Window()
      ensures DisplayRuns.Step(page, numLines, DisplayRuns.Flush, old(View()), View())
      ensures Cursor(currentLine, outputCursorX, outputCursorY) == Laid(page, HOME, Window()) && currentLine < numLines
      ensures driver.View().visible == driver.View().back
      ensures Shows(driver.mode, driver.blend, page.font, Glyphs(page, Window()), backgroundColor, driver.View().visible)
      ensures forall g | g in Glyphs(page, Window()) :: LineGeometry.OnPage(page, numLines, g)
    {
      hide Step, Coherent, Shows, ImageHoldsGlyphs, Contents, Distance, After, Records, StopsAt, Glyphs, Laid, Overflow,
           LineGeometry.OnPage;
      ghost var w: seq<Glyphic> := Window();
      var linesToScroll := GetNumOverflowLines();
      ResetText();
      dropped := ScrollDisplay(linesToScroll);
      ScrolledFits(page, w, numLines, dropped);
      WindowInText(displayCharacters[..], displayRingBufferStart, firstDisplayChar, displayRingBufferEnd);
      ghost var laid := SetText(firstDisplayChar, displayRingBufferEnd);
      FittingIsWhole(page, Window(), numLines, laid);
      LineGeometry.FittingAreOnPage(page, Window(), numLines);
      assert onScreen == Window();
      assert DisplayRuns.Flushed(page, numLines, w, dropped, View());
      ghost var s := driver.View();
      driver.SwapBuffers();
      SwapShows(driver.mode, driver.blend, s, driver.View());
    }

    /** The `clear` command: nothing is kept and nothing is shown. */
    method Clear()
      requires RingValid() && ScreenValid()
      modifies this, onScreenCharacters, driver, driver.renderFramebuffer
      ensures RingValid() && Text() == [] && ScreenValid() && onScreen == []
      ensures DisplayRuns.Step(page, numLines, DisplayRuns.ClearAll, old(View()), View())
      ensures outputCursorX == outputCursorY == currentLine == 0
    {
      hide Step, Coherent, Shows, ImageHoldsGlyphs;
      ResetText();
      displayRingBufferStart, displayRingBufferEnd, firstDisplayChar := 0, 0, 0;
      outputCursorX, outputCursorY, currentLine := 0, 0, 0;
    }
  }

  // ---- Walking along the ring ----

  lemma WalkStart(ring: seq<Char>, first: nat, end: nat)
    requires |ring| == CAPACITY && first < CAPACITY && end < CAPACITY
    ensures After(first, 0) == first && Contents(ring, first, end)[..0] == []
  {
  }

  lemma Walk(ring: seq<Char>, first: nat, end: nat, k: nat)
    requires |ring| == CAPACITY && first < CAPACITY && end < CAPACITY
    requires k <= |Contents(ring, first, end)| < CAPACITY && After(first, k) != end
    ensures k < |Contents(ring, first, end)| && ring[After(first, k)] == Contents(ring, first, end)[k]
    ensures k + 1 < CAPACITY && (After(first, k) + 1) % CAPACITY == After(first, k + 1)
  {
  }

  lemma WalkEnd(ring: seq<Char>, first: nat, end: nat, k: nat)
    requires |ring| == CAPACITY && first < CAPACITY && end < CAPACITY
    requires k <= |Contents(ring, first, end)| < CAPACITY
    ensures After(first, k) == end <==> k == |Contents(ring, first, end)|
  {
  }

  lemma DropKeepsOrder(ring: seq<Char>, start: nat, first: nat, end: nat, n: nat)
    requires |ring| == CAPACITY && start < CAPACITY && first < CAPACITY && end < CAPACITY
    requires Distance(start, first) <= Distance(start, end) && n <= |Contents(ring, first, end)| < CAPACITY
    ensures Contents(ring, After(first, n), end) == Contents(ring, first, end)[n..]
    ensures Distance(start, After(first, n)) <= Distance(start, end)
  {
    Drop(ring, first, end, n);
    hide Contents;
  }

  /** The window's characters are the text's last ones. */
  lemma WindowInText(ring: seq<Char>, start: nat, first: nat, end: nat)
    requires |ring| == CAPACITY && start < CAPACITY && first < CAPACITY && end < CAPACITY
    requires Distance(start, first) <= Distance(start, end)
    ensures Contents(ring, first, end) == Contents(ring, start, end)[Distance(start, first)..]
    ensures 0 !in Contents(ring, start, end) ==> 0 !in Contents(ring, first, end)
  {
    Drop(ring, start, end, Distance(start, first));
    hide Contents;
  }

  lemma BoxIsClearable(f: Font, g: Glyph)
    ensures 0 <= Box(f, g).width && 0 <= Box(f, g).height
  {
  }

  lemma RecordAt(chars: seq<Char>, text: seq<Char>, i: nat)
    requires Records(chars, text) && i <= |text|
    ensures i < |chars| && (chars[i] == 0 <==> i == |text|) && (i < |text| ==> chars[i] == text[i])
  {
  }

  lemma RecordsNext(chars: seq<Char>, text: seq<Char>, c: Char)
    requires Records(chars, text) && c != 0 && |text| + 1 < CAPACITY
    ensures Records(chars[|text| := c], text + [c])
  {
  }

  /** The array records a text that ends at the first null character. */
  ghost predicate Records(chars: seq<Char>, text: seq<Char>) {
    |chars| == CAPACITY && |text| < CAPACITY && 0 !in text &&
    forall i: nat | i < CAPACITY :: chars[i] == if i < |text| then text[i] else 0
  }

  lemma SwapShows(m: Mode, blend: (Byte, Byte, Byte) -> Byte, s: Screen, t: Screen)
    requires WellFormed(m) && Coherent(m, s) && Step(m, blend, Swap, s, t)
    ensures Coherent(m, t) && t.visible == t.back == s.back
  {
    StepKeepsCoherence(m, blend, Swap, s, t);
    hide Coherent;
  }

  /** Writing a character keeps the text and the window, each of them the last characters put. */
  lemma RingPut(ring: seq<Char>, start: nat, first: nat, end: nat, c: Char)
    requires |ring| == CAPACITY && start < CAPACITY && first < CAPACITY && end < CAPACITY
    requires Distance(start, first) <= Distance(start, end) && c != 0 && 0 !in Contents(ring, start, end)
    ensures
      var next := (end + 1) % CAPACITY;
      var start' := if next == start then (start + 1) % CAPACITY else start;
      var first' := if next == first then (first + 1) % CAPACITY else first;
      next < CAPACITY && start' < CAPACITY && first' < CAPACITY &&
      Distance(start', first') <= Distance(start', next) &&
      Contents(ring[end := c], start', next) == Last(Contents(ring, start, end) + [c]) &&
      Contents(ring[end := c], first', next) == Last(Contents(ring, first, end) + [c]) &&
      0 !in Contents(ring[end := c], start', next)
  {
    Put(ring, start, end, c);
    Put(ring, first, end, c);
    hide Contents;
    StepIsNext(end);
    StepIsNext(start);
    StepIsNext(first);
  }

  lemma PutNothing(ring: seq<Char>, start: nat, first: nat, end: nat)
    requires |ring| == CAPACITY && start < CAPACITY && first < CAPACITY && end < CAPACITY
    ensures Last(Contents(ring, start, end) + []) == Contents(ring, start, end)
    ensures Last(Contents(ring, first, end) + []) == Contents(ring, first, end)
  {
    hide Contents;
    assert Contents(ring, start, end) + [] == Contents(ring, start, end);
    assert Contents(ring, first, end) + [] == Contents(ring, first, end);
  }

  lemma LastNext(s: seq<Char>, msg: seq<Char>, i: nat)
    requires i < |msg|
    ensures Last(Last(s + msg[..i]) + [msg[i]]) == Last(s + msg[..i + 1])
  {
    LastTwice(s + msg[..i], [msg[i]]);
    assert s + msg[..i] + [msg[i]] == s + msg[..i + 1];
  }
}
