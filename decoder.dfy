/**
 * The VT100 `Decoder` (Vt100/Decoder.cs, Vt100/DecoderCommands.cs): it is
 * fed one text element at a time, runs the escape-sequence state machine
 * of `Vt100Parser`, prints into the terminal's rows and carries out the
 * commands through the terminal, its cursor and the graphic rendition.
 *
 * The decoder casts every row it touches to `MonospaceTextRow`, so it is
 * modelled over a terminal that holds at least one row and only text rows.
 * The logger is the ghost `log`; `responseCallback` is the byte sequence
 * `responses` the decoder has handed it; `BellReceived` is counted in
 * `bells`. `Redraw` only paints and is left out.
 */
module Vt100Decoder {
  import opened Wrappers
  import opened Positions
  import opened RowMetrics
  import opened HeightMaps
  import opened DecoderLogs
  import opened Vt100Params
  import opened Vt100Commands
  import opened Vt100Parser
  import opened Vt100Cursor
  import opened GraphicRenditions
  import Terminals
  import TerminalCursor
  import MonospaceRows
  import Colors

  import opened Vt100Screens
  import opened Vt100Printing
  import opened Vt100Views

  type Terminal = Terminals.Terminal

  /**
   * `InsertCharacterAtCursor`: the element goes into the cell under the
   * terminal cursor, in the row of its screen line, with `foreground` and
   * `background` (the rendition's effective colours) as the cell's
   * overrides, and the rows up to that line count as holding output. When
   * the row now needs another number of sublines the terminal is
   * refreshed, which may scroll the cursor's line; its column stays. The
   * source throws when the row is a picture, which a `Ready` terminal
   * does not hold.
   */
  method InsertAtCursor(terminal: Terminal, what: MonospaceRows.Element, foreground: Option<Colors.Color>,
                        background: Option<Colors.Color>, ghost p: Place) returns (ghost refreshed: bool)
    requires Ready(terminal) && p == PlaceOf(terminal)
    modifies terminal, terminal.Repr, terminal.cursor
    ensures Ready(terminal) && terminal.rows == old(terminal.rows) && terminal.Repr == old(terminal.Repr)
    ensures Inserted(p, what, foreground, background, CellsPerLine(terminal), PlaceOf(terminal), refreshed)
    ensures terminal.lastNonDummyRow == MonospaceRows.Max(old(terminal.lastNonDummyRow), p.first + p.cursor.Y)
    ensures ColoursOf(terminal) == old(ColoursOf(terminal))
    ensures LookOf(terminal) == old(LookOf(terminal))
  {
    var changed := PutAtCursor(terminal, what, foreground, background, p);
    refreshed := changed;
    ghost var m := PlaceOf(terminal);
    RefreshIf(terminal, changed, m);
    InsertedFromPut(p, what, foreground, background, CellsPerLine(terminal), m, PlaceOf(terminal), refreshed);
  }

  /** The refresh at the end of `InsertCharacterAtCursor`, when the row's subline count changed; nothing otherwise. */
  method RefreshIf(terminal: Terminal, changed: bool, ghost m: Place)
    requires Ready(terminal) && m == PlaceOf(terminal)
    modifies terminal, terminal.Repr, terminal.cursor
    ensures Ready(terminal) && terminal.rows == old(terminal.rows) && terminal.Repr == old(terminal.Repr)
    ensures Reflowed(m, PlaceOf(terminal), changed)
    ensures terminal.lastNonDummyRow == old(terminal.lastNonDummyRow)
    ensures ColoursOf(terminal) == old(ColoursOf(terminal))
    ensures LookOf(terminal) == old(LookOf(terminal))
  {
    if changed {
      RefreshKeepingTexts(terminal);
    }
  }

  /** `InsertCharacterAtCursor` up to the refresh: the element put into the row, which is marked as holding output. */
  method PutAtCursor(terminal: Terminal, what: MonospaceRows.Element, foreground: Option<Colors.Color>,
                     background: Option<Colors.Color>, ghost p: Place) returns (changed: bool)
    requires Ready(terminal) && p == PlaceOf(terminal)
    modifies terminal, terminal.Repr
    ensures Ready(terminal) && terminal.rows == old(terminal.rows) && terminal.Repr == old(terminal.Repr)
    ensures 0 <= p.row < |p.texts| && p.cursor.X >= 0
            && PlaceOf(terminal)
               == p.(texts := p.texts[p.row := Terminals.PutText(p.texts[p.row], p.cursor.X, what, foreground, background)])
            && (changed <==> Reflows(p.texts[p.row], p.cursor.X, what, CellsPerLine(terminal)))
    ensures terminal.lastNonDummyRow == MonospaceRows.Max(old(terminal.lastNonDummyRow), p.first + p.cursor.Y)
    ensures ColoursOf(terminal) == old(ColoursOf(terminal))
  {
    var row := MarkOutput(terminal, p);
    changed := PutInRow(terminal, row, what, foreground, background, p);
  }

  /** `GetScreenRow(cursor.Y, true)`: the row under the cursor, the rows up to its screen line counted as holding output. */
  method MarkOutput(terminal: Terminal, ghost p: Place) returns (row: Terminals.Row)
    requires Ready(terminal) && p == PlaceOf(terminal)
    modifies terminal`lastNonDummyRow
    ensures Ready(terminal) && PlaceOf(terminal) == p && 0 <= p.row < |terminal.rows| && row == terminal.rows[p.row]
    ensures terminal.lastNonDummyRow == MonospaceRows.Max(old(terminal.lastNonDummyRow), p.first + p.cursor.Y)
  {
    HiddenNonNegative(terminal);
    row := terminal.GetScreenRow(terminal.cursor.position.Y, true);
    assert terminal.TextsOf(|terminal.rows|) == p.texts;
    assert ScreenOf(terminal) == p.screen;
  }

  /** `PutCharacterAt` on the row under the cursor, which tells whether the row's subline count changed. */
  method PutInRow(terminal: Terminal, row: Terminals.Row, what: MonospaceRows.Element, foreground: Option<Colors.Color>,
                  background: Option<Colors.Color>, ghost p: Place) returns (changed: bool)
    requires Ready(terminal) && p == PlaceOf(terminal) && 0 <= p.row < |terminal.rows| && row == terminal.rows[p.row]
    modifies terminal.Repr
    ensures Ready(terminal) && terminal.Repr == old(terminal.Repr)
    ensures p.cursor.X >= 0
            && terminal.TextsOf(|terminal.rows|) == p.texts[p.row := Terminals.PutText(p.texts[p.row], p.cursor.X, what, foreground, background)]
            && (changed <==> Reflows(p.texts[p.row], p.cursor.X, what, CellsPerLine(terminal)))
    ensures ScreenOf(terminal) == p.screen
  {
    changed := terminal.PutCharacterInRow(row, p.row, terminal.cursor.position.X, what, foreground, background, p.texts);
    ScreenKept(terminal);
    CellsOnLine(terminal.metrics);
  }

  /** `Refresh`, which keeps every row's text, the column of the cursor and everything but the layout. */
  method RefreshKeepingTexts(terminal: Terminal)
    requires Ready(terminal)
    modifies terminal, terminal.Repr, terminal.cursor
    ensures Ready(terminal) && terminal.rows == old(terminal.rows) && terminal.Repr == old(terminal.Repr)
    ensures terminal.TextsOf(|terminal.rows|) == old(terminal.TextsOf(|terminal.rows|))
    ensures terminal.lastNonDummyRow == old(terminal.lastNonDummyRow)
    ensures ColoursOf(terminal) == old(ColoursOf(terminal))
    ensures terminal.cursor.position.X == old(terminal.cursor.position.X)
    ensures terminal.cursor.position.Y
            == ClampedLine(old(terminal.cursor.position.Y) - (terminal.FirstScreenRow() - old(terminal.FirstScreenRow())),
                           terminal.ScreenRowCountOf())
    ensures LookOf(terminal) == old(LookOf(terminal))
  {
    terminal.Refresh();
  }

  /** The deferred move of `HandleRegularCharacter`: the terminal cursor one cell right, on the same row. */
  method StepRight(terminal: Terminal)
    requires Ready(terminal)
    modifies terminal.cursor
    ensures Ready(terminal)
    ensures terminal.cursor.position.X == old(terminal.cursor.position.X) + 1
    ensures terminal.ScreenRowAt(terminal.cursor.position.Y) == old(terminal.ScreenRowAt(terminal.cursor.position.Y))
    ensures old(terminal.cursor.position.Y) < terminal.ScreenRowCountOf() ==> terminal.cursor.position.Y == old(terminal.cursor.position.Y)
    ensures terminal.cursor.position.Y == ClampedLine(old(terminal.cursor.position.Y), terminal.ScreenRowCountOf())
    ensures LookOf(terminal) == old(LookOf(terminal))
  {
    terminal.ScreenRowsBounds();
    terminal.SetCursorPosition(terminal.cursor.position.ShiftedByX(1));
  }

  /**
   * The end of `HandleRegularCharacter`: with the cursor on the last cell
   * of its subline it stays there and the flag is set, otherwise it moves
   * one cell right, its line clamped onto the screen.
   */
  method Advance(terminal: Terminal, ghost a: Place) returns (atEnd: bool)
    requires Ready(terminal) && a == PlaceOf(terminal)
    modifies terminal.cursor
    ensures Ready(terminal)
    ensures atEnd <==> LastCell(a.cursor.X, CellsPerLine(terminal))
    ensures PlaceOf(terminal) == a.(cursor := Stepped(a.cursor, !atEnd, a.count))
    ensures LookOf(terminal) == old(LookOf(terminal))
  {
    atEnd := AtLastCell(terminal);
    StepRightIf(terminal, !atEnd);
  }

  /** Whether the cursor is on the last cell of its subline, read from the row the cursor is on. */
  method AtLastCell(terminal: Terminal) returns (atEnd: bool)
    requires Ready(terminal)
    ensures atEnd <==> LastCell(terminal.cursor.position.X, CellsPerLine(terminal))
  {
    HiddenNonNegative(terminal);
    var position := terminal.cursor.position;
    var row, _ := terminal.ScreenRow(position.Y);
    assert Terminals.RowReady(terminal.rows[terminal.ScreenRowAt(position.Y)], terminal.metrics);
    var maximalColumn := row.text.maximalColumn;
    atEnd := position.X % (maximalColumn + 1) == maximalColumn;
  }

  /** The deferred step right of `HandleRegularCharacter`, taken only when the flag was set. */
  method StepRightIf(terminal: Terminal, atEnd: bool)
    requires Ready(terminal)
    modifies terminal.cursor
    ensures Ready(terminal) && terminal.TextsOf(|terminal.rows|) == old(terminal.TextsOf(|terminal.rows|))
    ensures terminal.cursor.position.X == old(terminal.cursor.position.X) + (if atEnd then 1 else 0)
    ensures terminal.ScreenRowAt(terminal.cursor.position.Y) == old(terminal.ScreenRowAt(terminal.cursor.position.Y))
    ensures !atEnd ==> terminal.cursor.position == old(terminal.cursor.position)
    ensures terminal.cursor.position.Y
            == if atEnd then ClampedLine(old(terminal.cursor.position.Y), terminal.ScreenRowCountOf()) else old(terminal.cursor.position.Y)
    ensures PlaceOf(terminal) == old(PlaceOf(terminal)).(cursor := Stepped(old(terminal.cursor.position), atEnd, old(terminal.ScreenRowCountOf())))
    ensures LookOf(terminal) == old(LookOf(terminal))
  {
    if atEnd {
      StepRight(terminal);
    }
  }

  /** `HandleRegularCharacter` up to the move after the write: the deferred step right, then the write at the cursor. */
  method StepAndInsert(terminal: Terminal, what: MonospaceRows.Element, atEnd: bool, foreground: Option<Colors.Color>,
                       background: Option<Colors.Color>, ghost p: Place) returns (ghost refreshed: bool)
    requires Ready(terminal) && p == PlaceOf(terminal)
    modifies terminal, terminal.Repr, terminal.cursor
    ensures Ready(terminal) && terminal.rows == old(terminal.rows) && terminal.Repr == old(terminal.Repr)
    ensures Inserted(p.(cursor := Stepped(p.cursor, atEnd, p.count)), what, foreground, background, CellsPerLine(terminal),
                     PlaceOf(terminal), refreshed)
    ensures terminal.lastNonDummyRow >= old(terminal.lastNonDummyRow)
    ensures ColoursOf(terminal) == old(ColoursOf(terminal))
    ensures LookOf(terminal) == old(LookOf(terminal))
  {
    StepRightIf(terminal, atEnd);
    refreshed := InsertAtCursor(terminal, what, foreground, background, p.(cursor := Stepped(p.cursor, atEnd, p.count)));
  }

  /** A subline holds `MaximalColumn + 1` cells, as a text row counts them. */
  lemma CellsOnLine(m: Metrics)
    requires Measured(m)
    ensures MonospaceRows.CharsOnLine(m) == MaximalColumnOf(m) + 1
  {
  }

  /**
   * `HandleRegularCharacter` on the terminal, `atEnd` being the decoder's
   * end-of-line flag: the element is written into the cell `PrintStep`
   * names, in the row of the cursor's screen line, and the cursor and
   * the flag end as `PrintStep` says.
   */
  method PrintElement(terminal: Terminal, what: MonospaceRows.Element, atEnd: bool, foreground: Option<Colors.Color>,
                      background: Option<Colors.Color>, ghost p: Place) returns (atEndAfter: bool, ghost refreshed: bool)
    requires Ready(terminal) && p == PlaceOf(terminal)
    modifies terminal, terminal.Repr, terminal.cursor
    ensures Ready(terminal) && terminal.rows == old(terminal.rows) && terminal.Repr == old(terminal.Repr)
    ensures PrintedIn(terminal, p, atEnd, what, foreground, background, atEndAfter)
    ensures terminal.lastNonDummyRow >= old(terminal.lastNonDummyRow)
    ensures ColoursOf(terminal) == old(ColoursOf(terminal))
    ensures LookOf(terminal) == old(LookOf(terminal))
  {
    refreshed := StepAndInsert(terminal, what, atEnd, foreground, background, p);
    ghost var a := PlaceOf(terminal);
    atEndAfter := Advance(terminal, a);
    PrintedFromInserted(p, atEnd, what, foreground, background, CellsPerLine(terminal), a, PlaceOf(terminal), atEndAfter, refreshed);
  }

  /** `count` empty rows appended at the bottom, none of them marked as holding output. */
  method AppendBlankRows(terminal: Terminal, count: int)
    requires Ready(terminal)
    modifies terminal
    ensures Ready(terminal) && |terminal.rows| == |old(terminal.rows)| + MonospaceRows.Max(count, 0)
    ensures RowsAppended(terminal, old(terminal.rows)) && terminal.lastNonDummyRow == old(terminal.lastNonDummyRow)
    ensures ColoursOf(terminal) == old(ColoursOf(terminal)) && fresh(terminal.Repr - old(terminal.Repr))
  {
    ghost var rows0 := terminal.rows;
    var i := 0;
    while i < count
      invariant Ready(terminal) && |terminal.rows| == |rows0| + i && i <= MonospaceRows.Max(count, 0)
      invariant RowsAppended(terminal, rows0) && terminal.lastNonDummyRow == old(terminal.lastNonDummyRow)
      invariant ColoursOf(terminal) == old(ColoursOf(terminal)) && fresh(terminal.Repr - old(terminal.Repr))
      decreases count - i
    {
      ghost var rows1 := terminal.rows;
      AppendEmptyRow(terminal, false);
      AppendedTwice(rows0, rows1, terminal.rows);
      i := i + 1;
    }
  }

  /** The row on screen line `y` erased from `from` to `to` with `background`, no other row changing. */
  method EraseOnLine(terminal: Terminal, y: int, from: int, to: int, background: Option<Colors.Color>)
    requires Ready(terminal) && y >= 0 && to >= 0
    modifies terminal.Repr
    ensures Ready(terminal) && unchanged(terminal, terminal.cursor)
    ensures var i := terminal.ScreenRowAt(y);
            var states := old(terminal.StatesOf(|terminal.rows|));
            0 <= i < |states|
            && terminal.StatesOf(|terminal.rows|) == states[i := Terminals.ErasedState(states[i], from, to, background)]
  {
    HiddenNonNegative(terminal);
    var index := terminal.ScreenRowAt(y);
    assert terminal.CursorValid() && terminal.MapValid();
    terminal.EraseRowAt(terminal.rows[index], index, from, to, background, terminal.StatesOf(|terminal.rows|));
    assert terminal.CursorValid() && terminal.MapValid();
  }

  class Decoder {
    const terminal: Terminal
    var ignoreNextChar: bool
    var inAnsiCode: bool
    var privateModeCode: bool
    /** `csiCodeData`: the parameter text of the CSI sequence being read, `None` for the null builder. */
    var csiCodeData: Option<string>
    var cursorAtTheEndOfLine: bool
    var currentParams: seq<Option<int>>
    var graphicRendition: GraphicRendition
    var savedGraphicRendition: GraphicRendition
    var savedCursorPosition: IntegerPosition
    /** `CharReceivedBlinkDisabledRounds`. */
    var rounds: int
    /** Every byte handed to `responseCallback`, in order. */
    var responses: seq<byte>
    /** How many times `BellReceived` was raised. */
    var bells: nat
    ghost var log: seq<LogEntry>

    function ParserOf(): ParserState
      reads this`ignoreNextChar, this`inAnsiCode, this`privateModeCode, this`csiCodeData
    {
      ParserState(ignoreNextChar, inAnsiCode, privateModeCode, csiCodeData)
    }

    /**
     * A terminal with at least one row, all of them text; the current and
     * the saved rendition are two objects, neither of them part of the
     * terminal.
     */
    ghost predicate Valid()
      reads this`graphicRendition, this`savedGraphicRendition, terminal, terminal.Repr, terminal.cursor
    {
      Ready(terminal)
      && graphicRendition != savedGraphicRendition
      && graphicRendition !in terminal.Repr && savedGraphicRendition !in terminal.Repr && this !in terminal.Repr
    }

    function DefaultsOf(): Defaults
      reads terminal
    {
      Defaults(terminal.defaultForeground, terminal.defaultBackground)
    }

    /** The view of this decoder and its terminal. */
    ghost function ViewOf(): (v: View)
      reads this`cursorAtTheEndOfLine, this`graphicRendition, this`savedGraphicRendition, this`savedCursorPosition
      reads graphicRendition, savedGraphicRendition, terminal, terminal.Repr, terminal.cursor
      requires Valid()
      ensures ViewValid(v)
    {
      terminal.ScreenRowsBounds();
      View(terminal.StatesOf(|terminal.rows|), terminal.CursorLimitsOf(|terminal.rows|), terminal.FirstScreenRow(),
           ScreenOf(terminal), terminal.cursor.position, cursorAtTheEndOfLine, terminal.cursor.enabled, terminal.lastNonDummyRow,
           ColoursOf(terminal),
           Pen(graphicRendition.State(), graphicRendition.EffectiveOf(), savedGraphicRendition.State(),
               savedGraphicRendition.EffectiveOf(), savedCursorPosition))
    }

    /** The trace of this decoder. */
    ghost function TraceOf(): (t: Trace)
      reads this`log, this`responses, this`bells, this`currentParams, this`cursorAtTheEndOfLine, this`graphicRendition
      reads this`savedGraphicRendition, this`savedCursorPosition, graphicRendition, savedGraphicRendition, terminal, terminal.Repr, terminal.cursor
      requires Valid()
      ensures ViewValid(t.view)
    {
      Trace(log, responses, bells, currentParams, terminal.cursor.BlinkOf(), ViewOf())
    }

    /** A decoder over `terminal`: no sequence under way, a plain rendition saved at the origin. */
    constructor (terminal: Terminal)
      requires Ready(terminal)
      ensures Valid() && this.terminal == terminal
      ensures ParserOf() == Idle && !cursorAtTheEndOfLine && currentParams == []
      ensures graphicRendition.State() == Plain && savedGraphicRendition.State() == Plain
      ensures graphicRendition.EffectiveOf() == Effective(None, None) && savedCursorPosition == Origin
      ensures rounds == 1 && responses == [] && bells == 0 && log == []
    {
      this.terminal := terminal;
      ignoreNextChar, inAnsiCode, privateModeCode, csiCodeData := false, false, false, None;
      cursorAtTheEndOfLine := false;
      currentParams := [];
      var rendition := new GraphicRendition();
      var saved := rendition.Clone();
      graphicRendition, savedGraphicRendition := rendition, saved;
      savedCursorPosition := Origin;
      rounds := 1;
      responses, bells := [], 0;
      log := [];
    }

    /**
     * The nested cursor's `Position` setter: `SetPosition` on the terminal,
     * the deferred end-of-line position forgotten. On screen, the position
     * reads back as the clamped request.
     */
    method SetVtPosition(value: IntegerPosition)
      requires Valid()
      modifies this`cursorAtTheEndOfLine, terminal, terminal.cursor
      ensures Valid() && !cursorAtTheEndOfLine
      ensures Landed(terminal, old(ScreenOf(terminal)), old(terminal.rows), value)
      ensures old(OnScreen(ScreenOf(terminal), value)) ==>
                unchanged(terminal) && unchanged(terminal.Repr) && ScreenOf(terminal) == old(ScreenOf(terminal))
                && VtPosition(old(ScreenOf(terminal)), terminal.cursor.position) == old(Clamped(ScreenOf(terminal), value))
      ensures RowsAppended(terminal, old(terminal.rows)) && terminal.lastNonDummyRow == old(terminal.lastNonDummyRow)
      ensures ColoursOf(terminal) == old(ColoursOf(terminal)) && LookOf(terminal) == old(LookOf(terminal))
      ensures fresh(terminal.Repr - old(terminal.Repr)) && unchanged(old(terminal.Repr))
    {
      ghost var s := ScreenOf(terminal);
      SetPosition(terminal, value);
      cursorAtTheEndOfLine := false;
      if OnScreen(s, value) {
        SetThenGet(s, value);
      }
    }

    /** What the VT100 setter leaves behind, read as a move of the view. */
    twostate lemma SetterMoved(value: IntegerPosition)
      requires old(Valid()) && Valid() && !cursorAtTheEndOfLine
      requires unchanged(this`graphicRendition, this`savedGraphicRendition, this`savedCursorPosition)
      requires unchanged(graphicRendition, savedGraphicRendition)
      requires Landed(terminal, old(ScreenOf(terminal)), old(terminal.rows), value)
      requires old(OnScreen(ScreenOf(terminal), value)) ==>
                 unchanged(terminal) && ScreenOf(terminal) == old(ScreenOf(terminal))
                 && VtPosition(old(ScreenOf(terminal)), terminal.cursor.position) == old(Clamped(ScreenOf(terminal), value))
      requires RowsAppended(terminal, old(terminal.rows)) && terminal.lastNonDummyRow == old(terminal.lastNonDummyRow)
      requires ColoursOf(terminal) == old(ColoursOf(terminal)) && LookOf(terminal) == old(LookOf(terminal))
      requires fresh(terminal.Repr - old(terminal.Repr)) && unchanged(old(terminal.Repr))
      ensures Moved(old(ViewOf()), value, ViewOf())
    {
      StatesOfAppended(terminal);
    }

    /** Nothing the view reads has changed, so neither has the view. */
    twostate lemma ViewKept()
      requires old(Valid())
      requires unchanged(this`cursorAtTheEndOfLine, this`graphicRendition, this`savedGraphicRendition, this`savedCursorPosition)
      requires unchanged(graphicRendition, savedGraphicRendition, terminal, terminal.cursor) && unchanged(old(terminal.Repr))
      ensures Valid() && ViewOf() == old(ViewOf())
    {
    }

    /** Only the cursor's blinking has changed, so the view has not. */
    twostate lemma CursorHeld()
      requires old(Valid())
      requires unchanged(this`cursorAtTheEndOfLine, this`graphicRendition, this`savedGraphicRendition, this`savedCursorPosition)
      requires unchanged(graphicRendition, savedGraphicRendition, terminal) && unchanged(old(terminal.Repr))
      requires terminal.cursor.position == old(terminal.cursor.position) && terminal.cursor.enabled == old(terminal.cursor.enabled)
      ensures Valid() && ViewOf() == old(ViewOf())
    {
    }

    /** Only the current rendition and whether the cursor is shown have changed. */
    twostate lemma PenAndLookChanged()
      requires old(Valid()) && Valid()
      requires unchanged(this`cursorAtTheEndOfLine, this`graphicRendition, this`savedGraphicRendition, this`savedCursorPosition)
      requires unchanged(savedGraphicRendition, terminal) && unchanged(old(terminal.Repr))
      requires terminal.cursor.position == old(terminal.cursor.position)
      ensures var v0 := old(ViewOf());
              ViewOf() == v0.(enabled := terminal.cursor.enabled,
                              pen := v0.pen.(rendition := graphicRendition.State(), effective := graphicRendition.EffectiveOf()))
    {
    }

    /** A copy of the current rendition saved, and the VT100 cursor `position` with it. */
    twostate lemma SavedOnView(position: IntegerPosition)
      requires old(Valid()) && Valid()
      requires unchanged(this`cursorAtTheEndOfLine, this`graphicRendition)
      requires unchanged(graphicRendition, terminal, terminal.cursor) && unchanged(old(terminal.Repr))
      requires savedCursorPosition == position
      requires savedGraphicRendition.State() == graphicRendition.State()
      requires savedGraphicRendition.EffectiveOf() == graphicRendition.EffectiveOf()
      ensures var v0 := old(ViewOf());
              ViewOf() == v0.(pen := v0.pen.(savedRendition := v0.pen.rendition, savedEffective := v0.pen.effective,
                                             savedPosition := position))
    {
    }

    /** A copy of the saved rendition made current. */
    twostate lemma RenditionRestored()
      requires old(Valid()) && Valid()
      requires unchanged(this`cursorAtTheEndOfLine, this`savedGraphicRendition, this`savedCursorPosition)
      requires unchanged(savedGraphicRendition, terminal, terminal.cursor) && unchanged(old(terminal.Repr))
      requires graphicRendition.State() == savedGraphicRendition.State()
      requires graphicRendition.EffectiveOf() == savedGraphicRendition.EffectiveOf()
      ensures var v0 := old(ViewOf());
              ViewOf() == v0.(pen := v0.pen.(rendition := v0.pen.savedRendition, effective := v0.pen.savedEffective))
    {
    }

    /** One row erased over `range`, the row on the cursor's screen line, read on the view. */
    twostate lemma LineErasedOnView(range: (int, nat))
      requires old(Valid()) && Valid()
      requires unchanged(this`cursorAtTheEndOfLine, this`graphicRendition, this`savedGraphicRendition, this`savedCursorPosition)
      requires unchanged(graphicRendition, savedGraphicRendition, terminal, terminal.cursor)
      requires 0 <= terminal.ScreenRowAt(terminal.cursor.position.Y) < |old(terminal.StatesOf(|terminal.rows|))|
      requires terminal.StatesOf(|terminal.rows|)
               == old(terminal.StatesOf(|terminal.rows|))[terminal.ScreenRowAt(terminal.cursor.position.Y) :=
                    Terminals.ErasedState(old(terminal.StatesOf(|terminal.rows|))[terminal.ScreenRowAt(terminal.cursor.position.Y)],
                                          range.0, range.1, graphicRendition.background)]
      ensures LineErased(old(ViewOf()), range.0, range.1, ViewOf())
    {
    }

    /** The pen: the rendition, its effective colours, and what was saved. */
    ghost function PenOf(): Pen
      reads this`graphicRendition, this`savedGraphicRendition, this`savedCursorPosition, graphicRendition, savedGraphicRendition
    {
      Pen(graphicRendition.State(), graphicRendition.EffectiveOf(), savedGraphicRendition.State(),
          savedGraphicRendition.EffectiveOf(), savedCursorPosition)
    }

    /** The place the print path starts from is the view's. */
    lemma PlaceOfViewOf()
      requires Valid()
      ensures PlaceOfView(ViewOf()) == PlaceOf(terminal) && ViewOf().screen.chars == CellsPerLine(terminal)
      ensures ViewOf().atEnd == cursorAtTheEndOfLine && ViewOf().pen == PenOf()
      ensures ViewOf().pen.effective == graphicRendition.EffectiveOf()
      ensures ViewOf().enabled == terminal.cursor.enabled && ViewOf().lastNonDummyRow == terminal.lastNonDummyRow
      ensures ViewOf().colours == ColoursOf(terminal)
    {
      TextsOfStatesOf(terminal);
    }

    /**
     * What the print path leaves, read on the view: `Printed` from the view
     * `v0` it started from, at place `p` with the end-of-line flag `atEnd0`.
     */
    lemma PrintedFromView(v0: View, element: MonospaceRows.Element, p: Place, atEnd0: bool)
      requires Valid() && ViewValid(v0) && p == PlaceOfView(v0) && atEnd0 == v0.atEnd && v0.pen == PenOf()
      requires v0.enabled == terminal.cursor.enabled && v0.colours == ColoursOf(terminal)
      requires v0.lastNonDummyRow <= terminal.lastNonDummyRow && |v0.states| == |terminal.rows|
      requires v0.screen.chars == CellsPerLine(terminal)
      requires var e := PenOf().effective;
               PrintedIn(terminal, p, atEnd0, element, e.foreground, e.background, cursorAtTheEndOfLine)
      ensures Printed(v0, element, ViewOf())
    {
      TextsOfStatesOf(terminal);
      var e := PenOf().effective;
      PrintedOfViews(v0, element, ViewOf(), p, atEnd0, e, CellsPerLine(terminal), terminal.TextsOf(|terminal.rows|),
                     terminal.cursor.position, cursorAtTheEndOfLine, terminal.FirstScreenRow(), ScreenOf(terminal),
                     terminal.ScreenRowCountOf());
    }

    /** `HandleTerminalReset` read on the view. */
    twostate lemma ResetOnView()
      requires old(Valid()) && Valid()
      requires unchanged(this`cursorAtTheEndOfLine, this`graphicRendition, this`savedGraphicRendition, this`savedCursorPosition)
      requires unchanged(savedGraphicRendition) && unchanged(old(terminal.Repr))
      requires graphicRendition.State() == Plain && graphicRendition.EffectiveOf() == Refreshed(Plain, old(DefaultsOf()))
      requires terminal.cursor.enabled && terminal.cursor.position == Origin
      requires |terminal.rows| == |old(terminal.rows)| + old(terminal.ScreenRowCountOf())
      requires RowsAppended(terminal, old(terminal.rows)) && terminal.lastNonDummyRow == old(terminal.lastNonDummyRow)
      requires ColoursOf(terminal) == old(ColoursOf(terminal))
      ensures WasReset(old(ViewOf()), ViewOf())
    {
      StatesOfAppended(terminal);
    }

    /** `AppendEmptyRow(terminal, true)` read on the view: one empty row more, holding output. */
    twostate lemma RowAppended()
      requires old(Valid()) && Valid()
      requires unchanged(this`cursorAtTheEndOfLine, this`graphicRendition, this`savedGraphicRendition, this`savedCursorPosition)
      requires unchanged(graphicRendition, savedGraphicRendition, terminal.cursor) && unchanged(old(terminal.Repr))
      requires |terminal.rows| == |old(terminal.rows)| + 1 && terminal.rows[..|old(terminal.rows)|] == old(terminal.rows)
      requires terminal.rows[|old(terminal.rows)|].Text? && terminal.rows[|old(terminal.rows)|].text.content == []
      requires terminal.lastNonDummyRow == MonospaceRows.Max(old(terminal.lastNonDummyRow), |terminal.rows|)
      requires ColoursOf(terminal) == old(ColoursOf(terminal))
      ensures OutputRowAppended(old(ViewOf()), ViewOf())
    {
      StatesOfAppended(terminal);
    }

    /** The setter read on the view: the view `Moved` to `value`, the cursor's look kept. */
    method MoveVtCursor(value: IntegerPosition)
      requires Valid()
      modifies this`cursorAtTheEndOfLine, terminal, terminal.cursor
      ensures Valid() && Moved(old(ViewOf()), value, ViewOf()) && LookOf(terminal) == old(LookOf(terminal))
      ensures fresh(terminal.Repr - old(terminal.Repr))
    {
      SetVtPosition(value);
      SetterMoved(value);
    }

    /**
     * The cursor commands (`CursorUp` to `CursorPosition`): the VT100
     * cursor read, moved as `MoveTarget` says and set.
     */
    method MoveCursor(h: Handler, params: seq<Option<int>>)
      requires Valid() && IsCursorMove(h)
      modifies this`cursorAtTheEndOfLine, terminal, terminal.cursor
      ensures Valid() && LookOf(terminal) == old(LookOf(terminal))
      ensures var v0 := old(ViewOf()); Moved(v0, MoveTarget(h, params, VtOf(v0), v0.atEnd), ViewOf())
    {
      var p := GetPosition(terminal);
      ViewKept();
      MoveVtCursor(MoveTarget(h, params, p, cursorAtTheEndOfLine));
    }

    /** Carriage return: the VT100 cursor to column 0, which the setter clamps to the first column. */
    method CarriageReturn()
      requires Valid()
      modifies this`cursorAtTheEndOfLine, terminal, terminal.cursor
      ensures Valid() && LookOf(terminal) == old(LookOf(terminal))
      ensures var v0 := old(ViewOf()); Moved(v0, VtOf(v0).WithX(0), ViewOf())
    {
      var p := GetPosition(terminal);
      ViewKept();
      MoveVtCursor(p.WithX(0));
    }

    /**
     * Line feed: the VT100 cursor set one row down. When it reads back on
     * the same line, as it does on the last line of the screen, an empty
     * row holding output is appended and the cursor set one row down again.
     */
    method LineFeed()
      requires Valid()
      modifies this`cursorAtTheEndOfLine, terminal, terminal.cursor
      ensures Valid() && LookOf(terminal) == old(LookOf(terminal))
      ensures LineFed(old(ViewOf()), ViewOf())
    {
      ghost var v0 := ViewOf();
      var p, now := MoveDown();
      ghost var m := ViewOf();
      if p.Y == now.Y {
        AppendOutputRow();
      }
      assert ViewValid(m) && Moved(v0, VtOf(v0).ShiftedByY(1), m);
    }

    /** The start of a line feed: the VT100 cursor read, set one row lower, and read again. */
    method MoveDown() returns (p: IntegerPosition, now: IntegerPosition)
      requires Valid()
      modifies this`cursorAtTheEndOfLine, terminal, terminal.cursor
      ensures Valid() && LookOf(terminal) == old(LookOf(terminal))
      ensures p == VtOf(old(ViewOf())) && Moved(old(ViewOf()), p.ShiftedByY(1), ViewOf()) && now == VtOf(ViewOf())
    {
      p := GetPosition(terminal);
      ViewKept();
      now := SetAndRead(p.ShiftedByY(1));
    }

    /** The VT100 cursor set to `value` and read back. */
    method SetAndRead(value: IntegerPosition) returns (now: IntegerPosition)
      requires Valid()
      modifies this`cursorAtTheEndOfLine, terminal, terminal.cursor
      ensures Valid() && LookOf(terminal) == old(LookOf(terminal))
      ensures Moved(old(ViewOf()), value, ViewOf()) && now == VtOf(ViewOf())
    {
      MoveVtCursor(value);
      label placed:
      now := GetPosition(terminal);
      ViewKept@placed();
    }

    /**
     * The end of a line feed on the last line: an empty row holding output
     * appended, then the VT100 cursor, read again, set one row lower.
     */
    method AppendOutputRow()
      requires Valid()
      modifies this`cursorAtTheEndOfLine, terminal, terminal.cursor
      ensures Valid() && LookOf(terminal) == old(LookOf(terminal))
      ensures exists n :: ViewValid(n) && OutputRowAppended(old(ViewOf()), n) && Moved(n, VtOf(n).ShiftedByY(1), ViewOf())
    {
      AppendEmptyRow(terminal, true);
      RowAppended();
      ghost var n := ViewOf();
      label appended:
      var q := GetPosition(terminal);
      ViewKept@appended();
      MoveVtCursor(q.ShiftedByY(1));
    }

    /**
     * `HandleRegularCharacter`: the element printed with the rendition's
     * effective colours into the cell `PrintStep` names, the cursor and
     * the end-of-line flag left as it says.
     */
    method HandleRegularCharacter(element: MonospaceRows.Element, ghost p: Place, ghost pen: Pen)
      requires Valid() && p == PlaceOf(terminal) && pen == PenOf()
      modifies this`cursorAtTheEndOfLine, terminal, terminal.Repr, terminal.cursor
      ensures Valid() && terminal.rows == old(terminal.rows) && terminal.Repr == old(terminal.Repr)
      ensures PrintedIn(terminal, p, old(cursorAtTheEndOfLine), element, pen.effective.foreground, pen.effective.background,
                        cursorAtTheEndOfLine)
      ensures terminal.lastNonDummyRow >= old(terminal.lastNonDummyRow)
      ensures ColoursOf(terminal) == old(ColoursOf(terminal)) && LookOf(terminal) == old(LookOf(terminal))
    {
      var e := graphicRendition.EffectiveOf();
      var flag := cursorAtTheEndOfLine;
      var atEnd;
      ghost var refreshed;
      atEnd, refreshed := PrintElement(terminal, element, flag, e.foreground, e.background, p);
      ghost var printed := PrintedIn(terminal, p, flag, element, e.foreground, e.background, atEnd);
      cursorAtTheEndOfLine := atEnd;
      assert PrintedIn(terminal, p, flag, element, e.foreground, e.background, atEnd) == printed;
    }

    /** `HandleRegularCharacter` read on the view: the element `Printed`, the cursor's look kept. */
    method PrintOnView(element: MonospaceRows.Element)
      requires Valid()
      modifies this`cursorAtTheEndOfLine, terminal, terminal.Repr, terminal.cursor
      ensures Valid() && LookOf(terminal) == old(LookOf(terminal)) && terminal.Repr == old(terminal.Repr)
      ensures Printed(old(ViewOf()), element, ViewOf())
    {
      ghost var v0 := ViewOf();
      ghost var p := PlaceOf(terminal);
      ghost var atEnd0 := cursorAtTheEndOfLine;
      PlaceOfViewOf();
      HandleRegularCharacter(element, p, PenOf());
      PrintedFromView(v0, element, p, atEnd0);
    }

    /** `SaveCursorPosition`: a copy of the rendition and the VT100 cursor are kept. */
    method SaveCursorPosition()
      requires Valid()
      modifies this`savedGraphicRendition, this`savedCursorPosition
      ensures Valid() && fresh(savedGraphicRendition)
      ensures savedGraphicRendition.State() == graphicRendition.State()
              && savedGraphicRendition.EffectiveOf() == graphicRendition.EffectiveOf()
      ensures savedCursorPosition == old(VtPosition(ScreenOf(terminal), terminal.cursor.position))
      ensures ViewOf() == Saved(old(ViewOf()))
    {
      savedCursorPosition := GetPosition(terminal);
      var copy := graphicRendition.Clone();
      savedGraphicRendition := copy;
      SavedOnView(savedCursorPosition);
    }

    /**
     * `RestoreCursorPosition`: a copy of the saved rendition becomes the
     * current one, then the VT100 cursor is set to the saved position.
     */
    method RestoreCursorPosition()
      requires Valid()
      modifies this`graphicRendition, this`cursorAtTheEndOfLine, terminal, terminal.cursor
      ensures Valid() && fresh(graphicRendition) && LookOf(terminal) == old(LookOf(terminal))
      ensures Restored(old(ViewOf()), ViewOf())
    {
      var copy := savedGraphicRendition.Clone();
      graphicRendition := copy;
      RenditionRestored();
      ghost var v0, m := old(ViewOf()), ViewOf();
      MoveVtCursor(savedCursorPosition);
      MovedWithPen(v0, v0.pen.savedPosition, ViewOf(), m.pen);
    }

    /**
     * `HandleTerminalReset`: the cursor shown, the rendition reset, one
     * empty row appended for every line on the screen, so that the old
     * output scrolls away, and the terminal cursor sent home. The
     * end-of-line flag is kept: the source sets the terminal's cursor, not
     * the VT100 one.
     */
    method TerminalReset()
      requires Valid()
      modifies graphicRendition, terminal, terminal.cursor
      ensures Valid()
      ensures graphicRendition.State() == Plain && graphicRendition.EffectiveOf() == Refreshed(Plain, old(DefaultsOf()))
      ensures terminal.cursor.enabled && terminal.cursor.position == Origin
      ensures terminal.cursor.BlinkOf() == old(terminal.cursor.BlinkOf())
      ensures |terminal.rows| == |old(terminal.rows)| + old(terminal.ScreenRowCountOf())
      ensures RowsAppended(terminal, old(terminal.rows)) && terminal.lastNonDummyRow == old(terminal.lastNonDummyRow)
      ensures ColoursOf(terminal) == old(ColoursOf(terminal))
      ensures WasReset(old(ViewOf()), ViewOf())
    {
      terminal.cursor.SetEnabled(true);
      graphicRendition.Reset(DefaultsOf());
      terminal.MapIncreasing();
      var screenRows := terminal.ScreenRowCount();
      AppendBlankRows(terminal, screenRows);
      terminal.ScreenRowsBounds();
      TerminalCursor.ClampIntoScreen(Origin, terminal.ScreenRowCountOf());
      terminal.SetCursorPosition(Origin);
      ResetOnView();
    }

    /**
     * `EraseDisplay`: mode 0 erases from the terminal cursor to the last
     * cell of the screen, mode 1 from the first cell to the cursor, mode 2
     * all of it after sending the VT100 cursor home, each with the
     * rendition's own background; any other mode is only logged. The range
     * is taken before the cursor moves; when homing the cursor appends rows,
     * the erase runs over the screen they make.
     */
    method EraseDisplay(params: seq<Option<int>>)
      requires Valid()
      modifies this`log, this`cursorAtTheEndOfLine, terminal, terminal.Repr, terminal.cursor
      ensures Valid() && LookOf(terminal) == old(LookOf(terminal))
      ensures var mode := ParamOrDefault(params, 0, 0);
              log == old(log) + (if 0 <= mode <= 2 then [] else [UnimplementedEraseDisplay])
      ensures DisplayErased(old(ViewOf()), ParamOrDefault(params, 0, 0), ViewOf())
    {
      var mode := ParamOrDefault(params, 0, 0);
      if !(0 <= mode <= 2) {
        log := log + [UnimplementedEraseDisplay];
        ViewKept();
        return;
      }
      if mode == 2 {
        EraseWholeDisplay(MaximalPositionOf(terminal));
      } else {
        ErasePartOfDisplay(mode);
      }
    }

    /** `EraseDisplay` modes 0 and 1: from the terminal cursor to the maximal position, or from the origin to the cursor. */
    method ErasePartOfDisplay(mode: int)
      requires Valid() && (mode == 0 || mode == 1)
      modifies terminal.Repr
      ensures Valid() && unchanged(terminal, terminal.cursor)
      ensures var v0 := old(ViewOf());
              var range := EraseDisplayRange(mode, v0.cursor, MaximalOf(v0)).value;
              range.1.X >= 0 && ScreenErased(v0, range.0, range.1, ViewOf())
    {
      var current := terminal.cursor.position;
      var range := EraseDisplayRange(mode, current, MaximalPositionOf(terminal)).value;
      EraseScreenRange(range.0, range.1);
    }

    /** `EraseScreen` from `from` to `to` with the rendition's own background. */
    method EraseScreenRange(from: IntegerPosition, to: IntegerPosition)
      requires Valid() && from.Y >= 0 && to.X >= 0
      modifies terminal.Repr
      ensures Valid() && unchanged(terminal, terminal.cursor)
      ensures ScreenErased(old(ViewOf()), from, to, ViewOf())
    {
      HiddenNonNegative(terminal);
      terminal.EraseScreen(from, to, graphicRendition.background);
    }

    /**
     * `EraseDisplay` mode 2, `maximal` being the cursor's maximal position
     * beforehand: the VT100 cursor sent home, then everything from the
     * origin to `maximal` erased.
     */
    method EraseWholeDisplay(maximal: IntegerPosition)
      requires Valid() && maximal == MaximalOf(ViewOf())
      modifies this`cursorAtTheEndOfLine, terminal, terminal.Repr, terminal.cursor
      ensures Valid() && LookOf(terminal) == old(LookOf(terminal))
      ensures exists m :: ViewValid(m) && Moved(old(ViewOf()), IntegerPosition(0, 0), m) && ScreenErased(m, Origin, maximal, ViewOf())
    {
      HomeCursor();
      ghost var m := ViewOf();
      EraseScreenRange(Origin, maximal);
    }

    /** The VT100 cursor set to `(0, 0)`, which the setter clamps to the first cell of the first line. */
    method HomeCursor()
      requires Valid()
      modifies this`cursorAtTheEndOfLine, terminal, terminal.cursor
      ensures Valid() && LookOf(terminal) == old(LookOf(terminal))
      ensures Moved(old(ViewOf()), IntegerPosition(0, 0), ViewOf()) && fresh(terminal.Repr - old(terminal.Repr))
    {
      MoveVtCursor(IntegerPosition(0, 0));
    }

    /**
     * `EraseInLine`: in the row on the terminal cursor's screen line, the
     * range `EraseInLineRange` gives for the mode is erased with the
     * rendition's own background; any other mode is only logged.
     */
    method EraseInLine(params: seq<Option<int>>)
      requires Valid()
      modifies this`log, terminal.Repr
      ensures Valid() && unchanged(terminal, terminal.cursor)
      ensures var mode := ParamOrDefault(params, 0, 0);
              log == old(log) + (if 0 <= mode <= 2 then [] else [UnimplementedEraseLine])
      ensures InLineErased(old(ViewOf()), ParamOrDefault(params, 0, 0), ViewOf())
    {
      var mode := ParamOrDefault(params, 0, 0);
      var position := terminal.cursor.position;
      var range := EraseInLineRange(mode, position.X, CellsPerLine(terminal) - 1);
      if range.None? {
        log := log + [UnimplementedEraseLine];
        ViewKept();
        return;
      }
      EraseCursorLine(range.value.0, range.value.1);
    }

    /** The row on the terminal cursor's screen line erased from `from` to `to` with the rendition's own background. */
    method EraseCursorLine(first: int, last: nat)
      requires Valid()
      modifies terminal.Repr
      ensures Valid() && unchanged(terminal, terminal.cursor)
      ensures LineErased(old(ViewOf()), first, last, ViewOf())
    {
      EraseOnLine(terminal, terminal.cursor.position.Y, first, last, graphicRendition.background);
      LineErasedOnView((first, last));
    }

    /**
     * `EraseCharacter` (`ECH`): in the row on the terminal cursor's screen
     * line, `EraseCount` cells from the cursor erased with the rendition's
     * own background. An end below 0 makes the row's `Erase` throw, which
     * `thrown` reports; nothing is erased then.
     */
    method EraseCharacter(params: seq<Option<int>>) returns (thrown: bool)
      requires Valid()
      modifies terminal.Repr
      ensures Valid() && unchanged(terminal, terminal.cursor)
      ensures (thrown <==> EraseCharacterRange(old(terminal.cursor.position.X), params).1 < 0)
      ensures CharactersErased(old(ViewOf()), params, ViewOf())
    {
      var position := terminal.cursor.position;
      HiddenNonNegative(terminal);
      var range := EraseCharacterRange(position.X, params);
      if range.1 < 0 {
        return true;
      }
      EraseCursorLine(range.0, range.1);
      thrown := false;
    }

    /**
     * `SelectGraphicRendition` (`m`): `HandleSgr` on the current
     * rendition, its log lines appended; the saved rendition, another
     * object, keeps its state.
     */
    method SelectGraphicRendition(params: seq<Option<int>>)
      requires Valid()
      modifies graphicRendition, this`log
      ensures Valid()
      ensures var o := SgrFrom(params, 0, old(graphicRendition.State()));
              graphicRendition.State() == o.rendition && log == old(log) + o.logs
              && graphicRendition.EffectiveOf()
                 == if o.sets then Refreshed(graphicRendition.State(), DefaultsOf()) else old(graphicRendition.EffectiveOf())
      ensures savedGraphicRendition.State() == old(savedGraphicRendition.State())
      ensures ViewOf() == SgrApplied(old(ViewOf()), params)
    {
      var logs := graphicRendition.HandleSgr(params, DefaultsOf());
      log := log + logs;
      PenAndLookChanged();
    }

    /**
     * `DeviceStatusReport` (`n`): for parameter 6 the VT100 cursor is sent
     * back as `ESC [ row ; column R`; anything else is logged.
     */
    method DeviceStatusReport(params: seq<Option<int>>)
      requires Valid()
      modifies this`log, this`responses
      ensures responses == old(responses) + StatusReply(params, old(VtPosition(ScreenOf(terminal), terminal.cursor.position)))
      ensures log == old(log) + if ReportsPosition(params) then [] else [UnsupportedStatusReport(params)]
    {
      if !ReportsPosition(params) {
        log := log + [UnsupportedStatusReport(params)];
        return;
      }
      ReportPosition();
    }

    /** The reply to `CSI 6 n`: the VT100 cursor sent back as `ESC [ row ; column R`. */
    method ReportPosition()
      requires Valid()
      modifies this`responses
      ensures responses == old(responses) + CursorPositionReport(old(VtPosition(ScreenOf(terminal), terminal.cursor.position)))
    {
      var p := GetPosition(terminal);
      responses := responses + CursorPositionReport(p);
    }

    /**
     * `DeviceAttributes` (`c`): the plain query with parameter 0 is
     * answered with `LF ESC [ ? 1 ; 2 c` (as a set union); a private query
     * or another parameter is logged.
     */
    method DeviceAttributes(params: seq<Option<int>>, privateMode: bool)
      modifies this`log, this`responses
      ensures responses == old(responses) + AttributesReply(params, privateMode)
      ensures log == old(log) + if ReportsAttributes(params, privateMode) then [] else [UnsupportedAttributes(params)]
    {
      if !ReportsAttributes(params, privateMode) {
        log := log + [UnsupportedAttributes(params)];
        return;
      }
      responses := responses + DeviceAttributesReply();
    }

    /**
     * `SetMode` and `ResetMode`: the rendition's `Negative` or the
     * cursor's `Enabled` set as `effect` says, or `entry` logged for a
     * mode they do not implement.
     */
    method ChangeMode(effect: ModeEffect, entry: LogEntry)
      requires Valid()
      modifies graphicRendition, terminal.cursor, this`log
      ensures Valid()
      ensures effect.Negative? ==>
                graphicRendition.State() == old(graphicRendition.State()).(negative := effect.on)
                && graphicRendition.EffectiveOf() == Refreshed(graphicRendition.State(), DefaultsOf())
      ensures !effect.Negative? ==>
                graphicRendition.State() == old(graphicRendition.State())
                && graphicRendition.EffectiveOf() == old(graphicRendition.EffectiveOf())
      ensures terminal.cursor.enabled == if effect.CursorEnabled? then effect.on else old(terminal.cursor.enabled)
      ensures terminal.cursor.position == old(terminal.cursor.position) && terminal.cursor.BlinkOf() == old(terminal.cursor.BlinkOf())
      ensures log == old(log) + if effect.Unimplemented? then [entry] else []
      ensures ViewOf() == ModeChanged(old(ViewOf()), effect)
    {
      match effect {
        case Negative(on) => graphicRendition.SetNegative(on, DefaultsOf());
        case CursorEnabled(on) => terminal.cursor.SetEnabled(on);
        case NoEffect =>
        case Unimplemented => log := log + [entry];
      }
      PenAndLookChanged();
    }

    /**
     * `commands[c]()`: the handler registered for a final character run
     * with `currentParams`. Only `EraseCharacter` can throw.
     */
    method RunCommand(h: Handler, params: seq<Option<int>>, privateMode: bool) returns (thrown: bool)
      requires Valid()
      modifies this`log, this`responses, this`cursorAtTheEndOfLine, this`graphicRendition
      modifies this`savedGraphicRendition, this`savedCursorPosition, graphicRendition, terminal, terminal.Repr, terminal.cursor
      ensures Valid() && CommandRan(h, params, privateMode, thrown, old(TraceOf()), TraceOf())
    {
      if IsCursorMove(h) {
        thrown := RunMove(h, params, privateMode);
      } else {
        thrown := RunOtherCommand(h, params, privateMode);
      }
    }

    /** `RunCommand` for the cursor moves. */
    method RunMove(h: Handler, params: seq<Option<int>>, privateMode: bool) returns (thrown: bool)
      requires Valid() && IsCursorMove(h)
      modifies this`cursorAtTheEndOfLine, terminal, terminal.cursor
      ensures Valid() && CommandRan(h, params, privateMode, thrown, old(TraceOf()), TraceOf())
    {
      MoveCursor(h, params);
      thrown := false;
      MoveRan(h, params, privateMode, old(TraceOf()), TraceOf());
    }

    /** `RunCommand` for the commands other than the cursor moves. */
    method RunOtherCommand(h: Handler, params: seq<Option<int>>, privateMode: bool) returns (thrown: bool)
      requires Valid() && !IsCursorMove(h)
      modifies this`log, this`responses, this`cursorAtTheEndOfLine, this`graphicRendition
      modifies this`savedGraphicRendition, this`savedCursorPosition, graphicRendition, terminal, terminal.Repr, terminal.cursor
      ensures Valid() && CommandRan(h, params, privateMode, thrown, old(TraceOf()), TraceOf())
    {
      if h.DeviceStatusReport? {
        thrown := RunStatusReport(params, privateMode);
      } else if h.DeviceAttributes? {
        thrown := RunAttributes(params, privateMode);
      } else {
        thrown := RunEffect(h, params, privateMode);
      }
    }

    /** `RunCommand` for the commands that answer nothing. */
    method RunEffect(h: Handler, params: seq<Option<int>>, privateMode: bool) returns (thrown: bool)
      requires Valid() && !IsCursorMove(h) && !h.DeviceStatusReport? && !h.DeviceAttributes?
      modifies this`log, this`cursorAtTheEndOfLine, this`graphicRendition
      modifies this`savedGraphicRendition, this`savedCursorPosition, graphicRendition, terminal, terminal.Repr, terminal.cursor
      ensures Valid() && CommandRan(h, params, privateMode, thrown, old(TraceOf()), TraceOf())
    {
      if h.EraseDisplay? || h.EraseInLine? || h.EraseCharacter? {
        thrown := RunErase(h, params, privateMode);
      } else if h.SaveCursorPosition? {
        thrown := RunSave(params, privateMode);
      } else if h.RestoreCursorPosition? {
        thrown := RunRestore(params, privateMode);
      } else if h.SelectGraphicRendition? {
        thrown := RunSgr(params, privateMode);
      } else {
        thrown := RunMode(h, params, privateMode);
      }
    }

    /** `RunCommand` for `DSR`. */
    method RunStatusReport(params: seq<Option<int>>, privateMode: bool) returns (thrown: bool)
      requires Valid()
      modifies this`log, this`responses
      ensures Valid() && CommandRan(Handler.DeviceStatusReport, params, privateMode, thrown, old(TraceOf()), TraceOf())
    {
      DeviceStatusReport(params);
      thrown := false;
      StatusReportRan(params, privateMode, old(TraceOf()), TraceOf());
    }

    /** `RunCommand` for `DA`. */
    method RunAttributes(params: seq<Option<int>>, privateMode: bool) returns (thrown: bool)
      requires Valid()
      modifies this`log, this`responses
      ensures Valid() && CommandRan(Handler.DeviceAttributes, params, privateMode, thrown, old(TraceOf()), TraceOf())
    {
      DeviceAttributes(params, privateMode);
      thrown := false;
      AttributesRan(params, privateMode, old(TraceOf()), TraceOf());
    }

    /** `RunCommand` for `SaveCursorPosition`. */
    method RunSave(params: seq<Option<int>>, privateMode: bool) returns (thrown: bool)
      requires Valid()
      modifies this`savedGraphicRendition, this`savedCursorPosition
      ensures Valid() && CommandRan(Handler.SaveCursorPosition, params, privateMode, thrown, old(TraceOf()), TraceOf())
    {
      SaveCursorPosition();
      thrown := false;
      SaveRan(params, privateMode, old(TraceOf()), TraceOf());
    }

    /** `RunCommand` for `RestoreCursorPosition`. */
    method RunRestore(params: seq<Option<int>>, privateMode: bool) returns (thrown: bool)
      requires Valid()
      modifies this`cursorAtTheEndOfLine, this`graphicRendition, terminal, terminal.cursor
      ensures Valid() && CommandRan(Handler.RestoreCursorPosition, params, privateMode, thrown, old(TraceOf()), TraceOf())
    {
      RestoreCursorPosition();
      thrown := false;
      RestoreRan(params, privateMode, old(TraceOf()), TraceOf());
    }

    /** `RunCommand` for `SGR`. */
    method RunSgr(params: seq<Option<int>>, privateMode: bool) returns (thrown: bool)
      requires Valid()
      modifies this`log, graphicRendition
      ensures Valid() && CommandRan(Handler.SelectGraphicRendition, params, privateMode, thrown, old(TraceOf()), TraceOf())
    {
      SelectGraphicRendition(params);
      thrown := false;
      SgrRan(params, privateMode, old(TraceOf()), TraceOf());
    }

    /** `RunCommand` for `SM` and `RM`. */
    method RunMode(h: Handler, params: seq<Option<int>>, privateMode: bool) returns (thrown: bool)
      requires Valid() && (h.SetMode? || h.ResetMode?)
      modifies this`log, graphicRendition, terminal.cursor
      ensures Valid() && CommandRan(h, params, privateMode, thrown, old(TraceOf()), TraceOf())
    {
      var effect := if h.SetMode? then SetModeEffect(params, privateMode) else ResetModeEffect(params, privateMode);
      var entry := if h.SetMode? then UnimplementedModeSet(params) else UnimplementedModeReset(params);
      ChangeMode(effect, entry);
      thrown := false;
      ModeRan(h, params, privateMode, old(TraceOf()), TraceOf());
    }

    /** `RunCommand` for the three erase commands. */
    method RunErase(h: Handler, params: seq<Option<int>>, privateMode: bool) returns (thrown: bool)
      requires Valid() && (h.EraseDisplay? || h.EraseInLine? || h.EraseCharacter?)
      modifies this`log, this`cursorAtTheEndOfLine, terminal, terminal.Repr, terminal.cursor
      ensures Valid() && CommandRan(h, params, privateMode, thrown, old(TraceOf()), TraceOf())
    {
      if h.EraseCharacter? {
        thrown := RunEraseCharacter(params, privateMode);
      } else if h.EraseDisplay? {
        thrown := RunEraseDisplay(params, privateMode);
      } else {
        thrown := RunEraseInLine(params, privateMode);
      }
    }

    /** `RunCommand` for `ED`, which never throws. */
    method RunEraseDisplay(params: seq<Option<int>>, privateMode: bool) returns (thrown: bool)
      requires Valid()
      modifies this`log, this`cursorAtTheEndOfLine, terminal, terminal.Repr, terminal.cursor
      ensures Valid() && CommandRan(Handler.EraseDisplay, params, privateMode, thrown, old(TraceOf()), TraceOf())
    {
      EraseDisplay(params);
      thrown := false;
      DisplayRan(params, privateMode, old(TraceOf()), TraceOf());
    }

    /** `RunCommand` for `EL`, which never throws. */
    method RunEraseInLine(params: seq<Option<int>>, privateMode: bool) returns (thrown: bool)
      requires Valid()
      modifies this`log, terminal.Repr
      ensures Valid() && CommandRan(Handler.EraseInLine, params, privateMode, thrown, old(TraceOf()), TraceOf())
    {
      EraseInLine(params);
      thrown := false;
      InLineRan(params, privateMode, old(TraceOf()), TraceOf());
    }

    /** `RunCommand` for `ECH`. */
    method RunEraseCharacter(params: seq<Option<int>>, privateMode: bool) returns (thrown: bool)
      requires Valid()
      modifies terminal.Repr
      ensures Valid() && CommandRan(Handler.EraseCharacter, params, privateMode, thrown, old(TraceOf()), TraceOf())
    {
      thrown := EraseCharacter(params);
      CharactersRan(params, privateMode, old(TraceOf()), TraceOf());
    }

    /**
     * `HandleNonCsiCode`: `ESC c` resets the terminal, a character set
     * designation skips the next element, `ESC 7` and `ESC 8` save and
     * restore the cursor; any other code is logged.
     */
    method HandleNonCsiCode(k: NonCsiCode)
      requires Valid()
      modifies this`log, this`ignoreNextChar, this`cursorAtTheEndOfLine, this`graphicRendition
      modifies this`savedGraphicRendition, this`savedCursorPosition, graphicRendition, terminal, terminal.cursor
      ensures Valid() && ActionRan(NonCsi(k), false, old(TraceOf()), TraceOf())
      ensures ignoreNextChar == (k.CharacterSet? || old(ignoreNextChar))
    {
      if k.SaveCursor? || k.RestoreCursor? {
        SavedStateCode(k);
      } else if k.TerminalReset? {
        ResetCode();
      } else {
        OtherCode(k);
      }
    }

    /** `ESC 7` and `ESC 8`. */
    method SavedStateCode(k: NonCsiCode)
      requires Valid() && (k.SaveCursor? || k.RestoreCursor?)
      modifies this`cursorAtTheEndOfLine, this`graphicRendition, this`savedGraphicRendition, this`savedCursorPosition
      modifies terminal, terminal.cursor
      ensures Valid() && ActionRan(NonCsi(k), false, old(TraceOf()), TraceOf())
    {
      if k.SaveCursor? {
        SaveCode();
      } else {
        RestoreCode();
      }
    }

    /** A character set designation or an unknown code. */
    method OtherCode(k: NonCsiCode)
      requires Valid() && (k.CharacterSet? || k.UnknownNonCsi?)
      modifies this`log, this`ignoreNextChar
      ensures Valid() && ActionRan(NonCsi(k), false, old(TraceOf()), TraceOf())
      ensures ignoreNextChar == (k.CharacterSet? || old(ignoreNextChar))
    {
      if k.CharacterSet? {
        CharacterSetCode();
      } else {
        UnknownCode(k.c);
      }
    }

    /** A character set designation: the next element is skipped. */
    method CharacterSetCode()
      requires Valid()
      modifies this`ignoreNextChar
      ensures Valid() && ActionRan(NonCsi(CharacterSet), false, old(TraceOf()), TraceOf()) && ignoreNextChar
    {
      ignoreNextChar := true;
      OtherCodeRan(CharacterSet, old(TraceOf()), TraceOf());
    }

    /** Any other code is logged. */
    method UnknownCode(c: char)
      requires Valid()
      modifies this`log
      ensures Valid() && ActionRan(NonCsi(UnknownNonCsi(c)), false, old(TraceOf()), TraceOf())
    {
      log := log + [UnimplementedNonCsiCode(c)];
      OtherCodeRan(UnknownNonCsi(c), old(TraceOf()), TraceOf());
    }

    /** `ESC c`. */
    method ResetCode()
      requires Valid()
      modifies graphicRendition, terminal, terminal.cursor
      ensures Valid() && ActionRan(NonCsi(NonCsiCode.TerminalReset), false, old(TraceOf()), TraceOf())
    {
      TerminalReset();
      ResetCodeRan(old(TraceOf()), TraceOf());
    }

    /** `ESC 7`. */
    method SaveCode()
      requires Valid()
      modifies this`savedGraphicRendition, this`savedCursorPosition
      ensures Valid() && ActionRan(NonCsi(SaveCursor), false, old(TraceOf()), TraceOf())
    {
      SaveCursorPosition();
      SaveCodeRan(old(TraceOf()), TraceOf());
    }

    /** `ESC 8`. */
    method RestoreCode()
      requires Valid()
      modifies this`cursorAtTheEndOfLine, this`graphicRendition, terminal, terminal.cursor
      ensures Valid() && ActionRan(NonCsi(RestoreCursor), false, old(TraceOf()), TraceOf())
    {
      RestoreCursorPosition();
      RestoreCodeRan(old(TraceOf()), TraceOf());
    }

    /** `Perform` for a dispatched command: the parsed parameters kept as `currentParams`, then the handler run with them. */
    method PerformCommand(a: Action) returns (thrown: bool)
      requires Valid() && a.Dispatch?
      modifies this`log, this`responses, this`currentParams, this`cursorAtTheEndOfLine
      modifies this`graphicRendition, this`savedGraphicRendition, this`savedCursorPosition
      modifies graphicRendition, terminal, terminal.Repr, terminal.cursor
      ensures Valid() && ActionRan(a, thrown, old(TraceOf()), TraceOf())
    {
      ghost var v0 := ViewOf();
      currentParams := a.params;
      assert ViewOf() == v0;
      thrown := RunCommand(a.handler, a.params, a.privateMode);
      DispatchRan(a, thrown, old(TraceOf()), TraceOf());
    }

    /** `Perform` for every action but a dispatched command. */
    method PerformControl(a: Action)
      requires Valid() && !a.Dispatch?
      requires a.CaretNotation? ==> 0 < a.c as int < 32
      modifies this`log, this`bells, this`currentParams, this`ignoreNextChar, this`cursorAtTheEndOfLine
      modifies this`graphicRendition, this`savedGraphicRendition, this`savedCursorPosition
      modifies graphicRendition, terminal, terminal.Repr, terminal.cursor
      ensures Valid() && ActionRan(a, false, old(TraceOf()), TraceOf())
      ensures ignoreNextChar == (a == NonCsi(CharacterSet) || old(ignoreNextChar))
    {
      if a.NonCsi? {
        HandleNonCsiCode(a.nonCsi);
      } else {
        PerformOnTerminal(a);
      }
    }

    /** `Perform` for the actions that print, move the cursor, ring the bell or only log. */
    method PerformOnTerminal(a: Action)
      requires Valid() && !a.Dispatch? && !a.NonCsi?
      requires a.CaretNotation? ==> 0 < a.c as int < 32
      modifies this`log, this`bells, this`currentParams, this`cursorAtTheEndOfLine, terminal, terminal.Repr, terminal.cursor
      ensures Valid() && ActionRan(a, false, old(TraceOf()), TraceOf())
    {
      if a.Print? || a.TabSpace? || a.CaretNotation? {
        PrintFor(a);
      } else if a.BackspaceLeft? || a.LineFeedDown? || a.ReturnToColumnOne? {
        MoveFor(a);
      } else if a.BellRung? {
        RingBell();
      } else {
        log := log + LogsOf(a);
        QuietRan(a, old(TraceOf()), TraceOf());
      }
    }

    /**
     * The printing actions: the element itself, a space for a tab, and
     * `^` followed by the character 64 above a control in caret notation.
     */
    method PrintFor(a: Action)
      requires Valid() && (a.Print? || a.TabSpace? || a.CaretNotation?)
      requires a.CaretNotation? ==> 0 < a.c as int < 32
      modifies this`cursorAtTheEndOfLine, terminal, terminal.Repr, terminal.cursor
      ensures Valid() && ActionRan(a, false, old(TraceOf()), TraceOf())
    {
      if a.CaretNotation? {
        PrintCaret(a.c);
      } else {
        Print(if a.Print? then a.element else " ");
        PrintRan(a, old(TraceOf()), TraceOf());
      }
    }

    /** A control in caret notation: `^`, then the character 64 above it. */
    method PrintCaret(c: char)
      requires Valid() && 0 < c as int < 32
      modifies this`cursorAtTheEndOfLine, terminal, terminal.Repr, terminal.cursor
      ensures Valid() && ActionRan(CaretNotation(c), false, old(TraceOf()), TraceOf())
    {
      Print("^");
      ghost var t := TraceOf();
      Print([(c as int + 64) as char]);
      CaretRan(c, old(TraceOf()), t, TraceOf());
    }

    /** `PrintOnView` read on the trace. */
    method Print(element: MonospaceRows.Element)
      requires Valid()
      modifies this`cursorAtTheEndOfLine, terminal, terminal.Repr, terminal.cursor
      ensures Valid() && terminal.Repr == old(terminal.Repr) && PrintTraced(old(TraceOf()), element, TraceOf())
    {
      PrintOnView(element);
    }

    /** Backspace, line feed and carriage return. */
    method MoveFor(a: Action)
      requires Valid() && (a.BackspaceLeft? || a.LineFeedDown? || a.ReturnToColumnOne?)
      modifies this`currentParams, this`cursorAtTheEndOfLine, terminal, terminal.cursor
      ensures Valid() && ActionRan(a, false, old(TraceOf()), TraceOf())
    {
      if a.BackspaceLeft? {
        assert a == BackspaceLeft;
        Backspace();
      } else if a.LineFeedDown? {
        assert a == LineFeedDown;
        LineFeed();
        LineFeedRan(old(TraceOf()), TraceOf());
      } else {
        assert a == ReturnToColumnOne;
        CarriageReturn();
        ReturnRan(old(TraceOf()), TraceOf());
      }
    }

    /** Backspace: `CursorLeft` with the parameters `{ 1 }`, set as `currentParams`. */
    method Backspace()
      requires Valid()
      modifies this`currentParams, this`cursorAtTheEndOfLine, terminal, terminal.cursor
      ensures Valid() && ActionRan(BackspaceLeft, false, old(TraceOf()), TraceOf())
    {
      ghost var v0 := ViewOf();
      currentParams := [Some(1)];
      assert ViewOf() == v0;
      var _ := RunMove(CursorLeft, currentParams, false);
      BackspaceRan(old(TraceOf()), TraceOf());
    }

    /** `BEL`: `BellReceived` raised. */
    method RingBell()
      requires Valid()
      modifies this`bells
      ensures Valid() && ActionRan(BellRung, false, old(TraceOf()), TraceOf())
    {
      bells := bells + 1;
      BellRan(old(TraceOf()), TraceOf());
    }

    /**
     * `Feed`: a skipped element only clears `ignoreNextChar`. Otherwise the
     * cursor is held on for `CharReceivedBlinkDisabledRounds` blinks, the
     * element's action is carried out and the parser fields take the step's
     * values. When the command throws, the fields are left as they were.
     */
    method Feed(element: string) returns (thrown: bool)
      requires Valid() && Consistent(ParserOf())
      modifies this`log, this`responses, this`bells, this`currentParams, this`ignoreNextChar, this`cursorAtTheEndOfLine
      modifies this`inAnsiCode, this`privateModeCode, this`csiCodeData
      modifies this`graphicRendition, this`savedGraphicRendition, this`savedCursorPosition
      modifies graphicRendition, terminal, terminal.Repr, terminal.cursor
      ensures Valid() && Consistent(ParserOf())
      ensures var step := Next(old(ParserOf()), element);
              ParserOf() == (if thrown then old(ParserOf()) else step.state)
              && ActionRan(step.action, thrown, if old(ignoreNextChar) then old(TraceOf()) else old(TraceOf()).(blink := TerminalCursor.Blink(rounds, true)), TraceOf())
      ensures old(ignoreNextChar) ==> unchanged(terminal, terminal.cursor) && unchanged(terminal.Repr)
    {
      if ignoreNextChar {
        thrown := FeedSkipped(element);
      } else {
        thrown := FeedHeld(element);
      }
    }

    /** `Feed` on an element that is skipped: its action is `Swallowed`. */
    method FeedSkipped(element: string) returns (thrown: bool)
      requires Valid() && Consistent(ParserOf()) && ignoreNextChar
      modifies this`ignoreNextChar
      ensures Valid() && Consistent(ParserOf())
      ensures var step := Next(old(ParserOf()), element);
              ParserOf() == (if thrown then old(ParserOf()) else step.state) && ActionRan(step.action, thrown, old(TraceOf()), TraceOf())
      ensures unchanged(terminal, terminal.cursor) && unchanged(terminal.Repr)
    {
      SkipElement(element);
      thrown := false;
    }

    /** `Feed` on an element that is not skipped: the cursor held on, then the element fed. */
    method FeedHeld(element: string) returns (thrown: bool)
      requires Valid() && Consistent(ParserOf()) && !ignoreNextChar
      modifies this`log, this`responses, this`bells, this`currentParams, this`ignoreNextChar, this`cursorAtTheEndOfLine
      modifies this`inAnsiCode, this`privateModeCode, this`csiCodeData
      modifies this`graphicRendition, this`savedGraphicRendition, this`savedCursorPosition
      modifies graphicRendition, terminal, terminal.Repr, terminal.cursor
      ensures Valid() && Consistent(ParserOf())
      ensures var step := Next(old(ParserOf()), element);
              ParserOf() == (if thrown then old(ParserOf()) else step.state)
              && ActionRan(step.action, thrown, old(TraceOf()).(blink := TerminalCursor.Blink(rounds, true)), TraceOf())
    {
      HoldCursorOn();
      assert ParserOf() == old(ParserOf());
      thrown := FeedElement(element);
    }

    /** A skipped element: `ignoreNextChar` cleared, as the step says, and nothing else. */
    method SkipElement(element: string)
      requires Valid() && Consistent(ParserOf()) && ignoreNextChar
      modifies this`ignoreNextChar
      ensures Valid() && Consistent(ParserOf())
      ensures Next(old(ParserOf()), element) == Step(ParserOf(), Swallowed) && !ignoreNextChar
    {
      ignoreNextChar := false;
    }

    /** `StayOnForNBlinks(CharReceivedBlinkDisabledRounds)` on the terminal cursor; the view is kept. */
    method HoldCursorOn()
      requires Valid()
      modifies terminal.cursor
      ensures Valid() && TraceOf() == old(TraceOf()).(blink := TerminalCursor.Blink(rounds, true))
    {
      terminal.cursor.StayOnForNBlinks(rounds);
      CursorHeld();
    }

    /** An element that is not skipped: its action performed and, unless that threw, the parser fields stepped. */
    method FeedElement(element: string) returns (thrown: bool)
      requires Valid() && Consistent(ParserOf()) && !ignoreNextChar
      modifies this`log, this`responses, this`bells, this`currentParams, this`ignoreNextChar, this`cursorAtTheEndOfLine
      modifies this`inAnsiCode, this`privateModeCode, this`csiCodeData
      modifies this`graphicRendition, this`savedGraphicRendition, this`savedCursorPosition
      modifies graphicRendition, terminal, terminal.Repr, terminal.cursor
      ensures Valid() && Consistent(ParserOf())
      ensures var step := Next(old(ParserOf()), element);
              ParserOf() == (if thrown then old(ParserOf()) else step.state) && ActionRan(step.action, thrown, old(TraceOf()), TraceOf())
    {
      var step := Next(ParserOf(), element);
      StepFacts(ParserOf(), element);
      if step.action.Dispatch? {
        thrown := FeedCommand(step);
      } else {
        thrown := false;
        FeedControl(step);
      }
    }

    /** A dispatched command performed; the parser fields take the step's values unless it threw. */
    method FeedCommand(step: Step) returns (thrown: bool)
      requires Valid() && step.action.Dispatch?
      modifies this`log, this`responses, this`currentParams, this`cursorAtTheEndOfLine
      modifies this`ignoreNextChar, this`inAnsiCode, this`privateModeCode, this`csiCodeData
      modifies this`graphicRendition, this`savedGraphicRendition, this`savedCursorPosition
      modifies graphicRendition, terminal, terminal.Repr, terminal.cursor
      ensures Valid() && ParserOf() == (if thrown then old(ParserOf()) else step.state)
      ensures ActionRan(step.action, thrown, old(TraceOf()), TraceOf())
    {
      thrown := PerformCommand(step.action);
      SetParserUnless(thrown, step.state);
    }

    /** The parser fields set to `s` unless the command threw. */
    method SetParserUnless(thrown: bool, s: ParserState)
      requires Valid()
      modifies this`ignoreNextChar, this`inAnsiCode, this`privateModeCode, this`csiCodeData
      ensures Valid() && ParserOf() == (if thrown then old(ParserOf()) else s) && TraceOf() == old(TraceOf())
    {
      if !thrown {
        SetParser(s);
      }
    }

    /** Any other action performed, then the parser fields set to the step's values. */
    method FeedControl(step: Step)
      requires Valid() && !step.action.Dispatch?
      requires step.action.CaretNotation? ==> 0 < step.action.c as int < 32
      modifies this`log, this`bells, this`currentParams, this`cursorAtTheEndOfLine
      modifies this`ignoreNextChar, this`inAnsiCode, this`privateModeCode, this`csiCodeData
      modifies this`graphicRendition, this`savedGraphicRendition, this`savedCursorPosition
      modifies graphicRendition, terminal, terminal.Repr, terminal.cursor
      ensures Valid() && ParserOf() == step.state
      ensures ActionRan(step.action, false, old(TraceOf()), TraceOf())
    {
      PerformControl(step.action);
      SetParser(step.state);
    }

    /** The four parser fields set to `s`; the trace is kept. */
    method SetParser(s: ParserState)
      requires Valid()
      modifies this`ignoreNextChar, this`inAnsiCode, this`privateModeCode, this`csiCodeData
      ensures Valid() && ParserOf() == s && TraceOf() == old(TraceOf())
    {
      SetEscapeFlags(s.ignoreNextChar, s.inAnsiCode);
      SetSequenceData(s.privateModeCode, s.csiCodeData);
    }

    /** `ignoreNextChar` and `inAnsiCode` set. */
    method SetEscapeFlags(ignore: bool, inCode: bool)
      requires Valid()
      modifies this`ignoreNextChar, this`inAnsiCode
      ensures Valid() && ignoreNextChar == ignore && inAnsiCode == inCode && TraceOf() == old(TraceOf())
    {
      ignoreNextChar := ignore;
      inAnsiCode := inCode;
    }

    /** `privateModeCode` and `csiCodeData` set. */
    method SetSequenceData(privateMode: bool, data: Option<string>)
      requires Valid()
      modifies this`privateModeCode, this`csiCodeData
      ensures Valid() && privateModeCode == privateMode && csiCodeData == data && TraceOf() == old(TraceOf())
    {
      privateModeCode := privateMode;
      csiCodeData := data;
    }
  }
}
