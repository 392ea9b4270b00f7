/**
 * What the VT100 decoder's steps do, read on values: a `View` of the
 * terminal and the decoder's cursor flag, a `Trace` adding the log, the
 * replies, the bells, the current parameters and the blinking, and for
 * each action of the parser (Vt100/Decoder.cs, Vt100/DecoderCommands.cs)
 * the relation it leaves between the trace before and after it.
 */
module Vt100Views {
  import opened Wrappers
  import opened Positions
  import opened RowMetrics
  import opened HeightMaps
  import opened DecoderLogs
  import opened Vt100Params
  import opened Vt100Commands
  import opened Vt100Parser
  import opened Vt100Cursor
  import opened GraphicRenditions
  import Terminals
  import TerminalCursor
  import MonospaceRows
  import Colors

  import opened Vt100Screens
  import opened Vt100Printing

  type Terminal = Terminals.Terminal

  /** The colours no decoder step changes: the terminal's default colours and its selection colour. */
  function ColoursOf(t: Terminal): (Colors.Color, Colors.Color, Colors.Color)
    reads t
  {
    (t.defaultForeground, t.defaultBackground, t.selectionColor)
  }

  /** Whether the terminal's cursor is shown, and its blinking. */
  function LookOf(t: Terminal): (bool, TerminalCursor.Blink)
    reads t.cursor
  {
    (t.cursor.enabled, t.cursor.BlinkOf())
  }

  /** The rows `rows0` are kept, and every row after them is an empty text row. */
  ghost predicate RowsAppended(t: Terminal, rows0: seq<Row>)
    reads t, set i | 0 <= i < |t.rows| :: Terminals.ObjectOf(t.rows[i])
  {
    |rows0| <= |t.rows| && t.rows[..|rows0|] == rows0 && EmptyFrom(t.rows, |rows0|)
  }

  /** Rows appended twice over are rows appended once. */
  lemma AppendedTwice(rows0: seq<Row>, rows1: seq<Row>, rows2: seq<Row>)
    requires |rows0| <= |rows1| <= |rows2| && rows1[..|rows0|] == rows0 && rows2[..|rows1|] == rows1
    requires EmptyFrom(rows1, |rows0|) && EmptyFrom(rows2, |rows1|)
    ensures rows2[..|rows0|] == rows0 && EmptyFrom(rows2, |rows0|)
  {
    assert forall i :: |rows0| <= i < |rows1| ==> rows2[i] == rows1[i] by {
      forall i | |rows0| <= i < |rows1| ensures rows2[i] == rows1[i] {
        assert rows2[..|rows1|][i] == rows2[i];
      }
    }
  }

  /** The VT100 setter's request `value` ends on a row of screen `s`, so the setter only moves the cursor. */
  predicate OnScreen(s: Screen, value: IntegerPosition)
    requires ScreenValid(s)
  {
    TargetRow(s, value) < |s.sublines|
  }

  /**
   * Where the VT100 setter leaves the terminal's cursor for `value`, the
   * screen having been `s` and the rows `rows0`: on the cell `SetterTarget`
   * names with the rows untouched, or, past the last row, on the requested
   * column of the last screen row after rows were appended.
   */
  ghost predicate Landed(t: Terminal, s: Screen, rows0: seq<Row>, value: IntegerPosition)
    reads t, t.cursor
    requires ScreenValid(s)
  {
    (OnScreen(s, value) ==> t.rows == rows0 && t.cursor.position == SetterTarget(s, value))
    && (!OnScreen(s, value) ==>
          |t.rows| > |rows0| && t.cursor.position == IntegerPosition(Clamped(s, value).X - 1, t.ScreenRowCountOf() - 1))
  }

  /**
   * A line feed on VT100 row `p.Y` (1-based, within the screen's `maxY`
   * lines) asks for the next row, which the setter's clamping turns back
   * into the same row exactly when `p.Y` is the last line.
   */
  lemma LineFeedClamp(s: Screen, p: IntegerPosition)
    requires ScreenValid(s) && 1 <= p.X <= s.chars && 1 <= p.Y <= s.maxY
    ensures Clamped(s, p.ShiftedByY(1)).X == p.X
    ensures Clamped(s, p.ShiftedByY(1)).Y == p.Y <==> p.Y == s.maxY
    ensures p.Y < s.maxY ==> Clamped(s, p.ShiftedByY(1)) == IntegerPosition(p.X, p.Y + 1)
  {
  }

  /** A carriage return asks for column 0, which the clamping turns into column 1 of the same row. */
  lemma ReturnClamp(s: Screen, p: IntegerPosition)
    requires ScreenValid(s) && 1 <= p.Y <= s.maxY
    ensures Clamped(s, p.WithX(0)) == IntegerPosition(1, p.Y)
  {
  }

  /**
   * `Cursor.MaximalPosition` (`Terminal.CursorMaximalPosition`): the last
   * screen line, and the last cursor cell of the last row.
   */
  function MaximalPositionOf(t: Terminal): (p: IntegerPosition)
    reads t, t.Repr
    requires Laid(t)
    ensures p.X >= 0 && p.Y >= 0
  {
    t.ScreenRowsBounds();
    IntegerPosition(Terminals.MaximalCursorPositionOf(t.rows[|t.rows| - 1]), t.ScreenRowCountOf() - 1)
  }

  /** The rows' states and their last cursor cells, in row order. */
  ghost function RowStates(t: Terminal): (r: (seq<Terminals.RowState>, seq<nat>))
    reads t, t.Repr
    requires t.RowsValid()
    ensures r.0 == t.StatesOf(|t.rows|) && r.1 == t.CursorLimitsOf(|t.rows|)
  {
    (t.StatesOf(|t.rows|), t.CursorLimitsOf(|t.rows|))
  }

  /**
   * The log lines a dispatched command writes, given the rendition before
   * it: an unsupported mode or query, and the `SGR` codes it does not know.
   */
  function CommandLogs(h: Handler, params: seq<Option<int>>, privateMode: bool, r: Rendition): seq<LogEntry>
  {
    var mode := ParamOrDefault(params, 0, 0);
    match h
    case EraseDisplay => if 0 <= mode <= 2 then [] else [UnimplementedEraseDisplay]
    case EraseInLine => if 0 <= mode <= 2 then [] else [UnimplementedEraseLine]
    case SelectGraphicRendition => SgrFrom(params, 0, r).logs
    case DeviceStatusReport => if ReportsPosition(params) then [] else [UnsupportedStatusReport(params)]
    case DeviceAttributes => if ReportsAttributes(params, privateMode) then [] else [UnsupportedAttributes(params)]
    case SetMode => if SetModeEffect(params, privateMode).Unimplemented? then [UnimplementedModeSet(params)] else []
    case ResetMode => if ResetModeEffect(params, privateMode).Unimplemented? then [UnimplementedModeReset(params)] else []
    case _ => []
  }

  /** The bytes a dispatched command hands `responseCallback`, given the VT100 cursor before it. */
  function CommandResponse(h: Handler, params: seq<Option<int>>, privateMode: bool, p: IntegerPosition): seq<byte>
    requires p.X >= 0 && p.Y >= 0
  {
    if h.DeviceStatusReport? then StatusReply(params, p)
    else if h.DeviceAttributes? then AttributesReply(params, privateMode)
    else []
  }

  /** The answer to `DSR`: the cursor position report for parameter 6, nothing otherwise. */
  function StatusReply(params: seq<Option<int>>, p: IntegerPosition): seq<byte>
    requires p.X >= 0 && p.Y >= 0
  {
    if ReportsPosition(params) then CursorPositionReport(p) else []
  }

  /** The answer to `DA`: the attributes reply for the plain query with parameter 0, nothing otherwise. */
  function AttributesReply(params: seq<Option<int>>, privateMode: bool): seq<byte>
  {
    if ReportsAttributes(params, privateMode) then DeviceAttributesReply() else []
  }

  /** Only the two queries answer, each with a CSI sequence or the attributes reply. */
  lemma OnlyQueriesAnswer(h: Handler, params: seq<Option<int>>, privateMode: bool, p: IntegerPosition)
    requires p.X >= 0 && p.Y >= 0
    ensures var bytes := CommandResponse(h, params, privateMode, p);
            (bytes != [] <==> (h.DeviceStatusReport? && ReportsPosition(params))
                              || (h.DeviceAttributes? && ReportsAttributes(params, privateMode)))
            && (h.DeviceStatusReport? && bytes != [] ==> bytes[..2] == [ESC, CSI_CHAR] && bytes[|bytes| - 1] == 'R' as int)
            && (h.DeviceAttributes? && bytes != [] ==> |bytes| == 8)
  {
    DeviceAttributesReplyBytes();
  }

  /** A command answers or logs, never both, and a cursor command does neither. */
  lemma AnswerOrLog(h: Handler, params: seq<Option<int>>, privateMode: bool, r: Rendition, p: IntegerPosition)
    requires p.X >= 0 && p.Y >= 0
    ensures h.DeviceStatusReport? || h.DeviceAttributes? ==>
              (CommandResponse(h, params, privateMode, p) == [] <==> |CommandLogs(h, params, privateMode, r)| == 1)
    ensures IsCursorMove(h) ==> CommandResponse(h, params, privateMode, p) == [] && CommandLogs(h, params, privateMode, r) == []
  {
    DeviceAttributesReplyBytes();
  }

  /** Every log line a fed element leads to: the parser's own, or the dispatched command's. */
  function ActionLogs(a: Action, r: Rendition): seq<LogEntry>
  {
    if a.Dispatch? then CommandLogs(a.handler, a.params, a.privateMode, r) else LogsOf(a)
  }

  /** The bytes a fed element leads the decoder to hand `responseCallback`. */
  function ActionResponse(a: Action, p: IntegerPosition): seq<byte>
    requires p.X >= 0 && p.Y >= 0
  {
    if a.Dispatch? then CommandResponse(a.handler, a.params, a.privateMode, p) else []
  }

  /** `currentParams` after an action: set for a dispatched command, `{ 1 }` for backspace. */
  function ParamsAfter(a: Action, current: seq<Option<int>>): (p: seq<Option<int>>)
  {
    match a
    case Dispatch(_, params, _) => params
    case BackspaceLeft => [Some(1)]
    case _ => current
  }

  /** The only action that throws: `ECH` whose range ends below column 0. */
  predicate Throws(a: Action, x: int)
  {
    a.Dispatch? && a.handler.EraseCharacter? && EraseCharacterRange(x, a.params).1 < 0
  }

  /**
   * A C0 control shown in caret notation: outside a sequence, `^` and the
   * character 64 above the control are each printed as they are, the
   * parser fields staying as they were.
   */
  lemma CaretPrints(s: ParserState, c: char)
    requires !s.ignoreNextChar && !s.inAnsiCode
    requires Next(s, [c]).action.CaretNotation?
    ensures 0 < c as int < 32 && Next(s, [c]).state == s
    ensures Next(s, "^") == Step(s, Print("^"))
    ensures Next(s, [(c as int + 64) as char]) == Step(s, Print([(c as int + 64) as char]))
  {
    var d := (c as int + 64) as char;
    assert Convert(c) != Some(Escape);
    assert c as int != 0x1B;
    assert Convert(d) == None;
  }

  /** What `Feed` needs of a step: it keeps the fields coherent, and a caret control is a C0 control. */
  lemma StepFacts(s: ParserState, element: string)
    requires Consistent(s) && !s.ignoreNextChar
    ensures Consistent(Next(s, element).state)
    ensures Next(s, element).action.CaretNotation? ==> 0 < Next(s, element).action.c as int < 32
  {
    StepKeepsConsistent(s, element, false);
    if Next(s, element).action.CaretNotation? {
      CaretPrints(s, element[0]);
    }
  }


  /**
   * The current rendition with its effective colours, and what
   * `SaveCursorPosition` put aside: a rendition, its effective colours and
   * the VT100 cursor.
   */
  datatype Pen = Pen(rendition: Rendition, effective: Effective, savedRendition: Rendition, savedEffective: Effective,
                     savedPosition: IntegerPosition)

  /**
   * What a fed element can change besides the parser fields, the log, the
   * responses, the bell count and the blinking: every row's state, in row
   * order (with its last cursor cell), the first screen row and the
   * screen as the VT100 cursor sees it, the terminal cursor, the
   * end-of-line flag, whether the cursor is shown, the last row holding
   * output, the terminal's colours, and the pen.
   */
  datatype View = View(states: seq<Terminals.RowState>, limits: seq<nat>, first: int, screen: Screen,
                       cursor: IntegerPosition, atEnd: bool, enabled: bool, lastNonDummyRow: int,
                       colours: (Colors.Color, Colors.Color, Colors.Color), pen: Pen)

  /** What every decoder's view satisfies: a screen, a cursor that is not negative, a first screen row among the rows. */
  ghost predicate ViewValid(v: View)
  {
    ScreenValid(v.screen) && v.cursor.X >= 0 && v.cursor.Y >= 0
    && |v.states| == |v.limits| && 0 <= v.first < |v.states|
    && (forall k :: 0 <= k < |v.states| ==> Terminals.CursorLimit(v.states[k]) == v.limits[k])
  }

  /** The VT100 cursor of a view, as the nested cursor's getter reads it. */
  function VtOf(v: View): IntegerPosition
    requires ViewValid(v)
  {
    VtPosition(v.screen, v.cursor)
  }

  /** The row under the terminal cursor, as `GetScreenRow` finds it. */
  function CursorRow(v: View): int
    requires ViewValid(v)
  {
    MonospaceRows.Min(v.first + v.cursor.Y, |v.states| - 1)
  }

  /** `Cursor.MaximalPosition` of a view: the last cursor cell of the last row, on the last screen line. */
  function MaximalOf(v: View): IntegerPosition
    requires ViewValid(v)
  {
    IntegerPosition(v.limits[|v.limits| - 1], |v.states| - v.first - 1)
  }

  /** The text a row's state holds, as `TextOf` reads it off the row. */
  function TextOfState(s: Terminals.RowState): Terminals.RowText
  {
    match s
    case TextState(content, minimal, _, _, _, _, foregrounds, backgrounds, selected, _) =>
      Terminals.RowText(content, minimal, foregrounds, backgrounds, selected)
    case ImageState(_, _, _) => Terminals.NoText
  }

  function TextsOfStates(states: seq<Terminals.RowState>): seq<Terminals.RowText>
  {
    seq(|states|, k requires 0 <= k < |states| => TextOfState(states[k]))
  }

  /** A terminal's row texts are the texts of its row states. */
  lemma TextsOfStatesOf(t: Terminal)
    requires t.RowsValid()
    ensures TextsOfStates(t.StatesOf(|t.rows|)) == t.TextsOf(|t.rows|)
  {
  }

  /** The rows kept as they were, every row after them an empty text row. */
  ghost predicate Grown(v0: View, v1: View)
  {
    Terminals.StatesGrown(v0.states, v1.states)
  }

  /** Only the row states may differ. */
  ghost predicate SameButStates(v0: View, v1: View)
  {
    |v1.states| == |v0.states| && v1.first == v0.first && v1.cursor == v0.cursor
    && v1.atEnd == v0.atEnd && v1.enabled == v0.enabled && v1.lastNonDummyRow == v0.lastNonDummyRow
    && v1.colours == v0.colours && v1.pen == v0.pen
  }

  /**
   * The VT100 cursor set to `value`: on a row of the screen the terminal
   * cursor lands on the cell `SetterTarget` names, reading back as the
   * clamped request, and nothing else changes; past the last row, empty
   * rows are appended and the cursor lands on the requested column of the
   * last screen line. The old rows are kept either way and the end-of-line
   * flag is cleared.
   */
  ghost predicate Moved(v0: View, value: IntegerPosition, v1: View)
    requires ViewValid(v0) && ViewValid(v1)
  {
    var s := v0.screen;
    Grown(v0, v1)
    && (OnScreen(s, value) ==>
          v1.states == v0.states && v1.first == v0.first && v1.screen == s
          && v1.cursor == SetterTarget(s, value) && VtPosition(s, v1.cursor) == Clamped(s, value))
    && (!OnScreen(s, value) ==>
          |v1.states| > |v0.states| && v1.cursor == IntegerPosition(Clamped(s, value).X - 1, |v1.states| - v1.first - 1))
    && !v1.atEnd && v1.enabled == v0.enabled && v1.lastNonDummyRow == v0.lastNonDummyRow
    && v1.colours == v0.colours && v1.pen == v0.pen
  }

  /** The place a view's cursor is at: the rows' texts, the row under the cursor, the cursor and the screen. */
  function PlaceOfView(v: View): Place
    requires ViewValid(v)
  {
    Place(TextsOfStates(v.states), CursorRow(v), v.cursor, |v.states| - v.first, v.first, v.screen)
  }

  /**
   * An element printed, as `PrintedAt` says, with the pen's effective
   * colours: the row under the cursor written, every other row's text
   * kept, the cursor and the end-of-line flag moved as `PrintStep` says,
   * and the cursor's screen line kept or, after a refresh, shifted with
   * the first screen row. Nothing else but the last row holding output
   * changes.
   */
  ghost predicate Printed(v0: View, element: MonospaceRows.Element, v1: View)
    requires ViewValid(v0)
  {
    |v1.states| == |v0.states|
    && PrintedAt(PlaceOfView(v0), v0.atEnd, element, v0.pen.effective.foreground, v0.pen.effective.background, v0.screen.chars,
                 TextsOfStates(v1.states), v1.cursor, v1.atEnd, v1.first, v1.screen, |v1.states| - v1.first)
    && v1.enabled == v0.enabled && v1.lastNonDummyRow >= v0.lastNonDummyRow && v1.colours == v0.colours && v1.pen == v0.pen
  }

  /** `Printed` from `PrintedAt` read off the two views. */
  lemma PrintedOfViews(v0: View, element: MonospaceRows.Element, v1: View, p: Place, atEnd0: bool, e: Effective, chars: int,
                        texts: seq<Terminals.RowText>, cursor: IntegerPosition, atEnd: bool, first: int, screen: Screen, count: int)
    requires ViewValid(v0) && p == PlaceOfView(v0) && atEnd0 == v0.atEnd && e == v0.pen.effective && chars == v0.screen.chars
    requires texts == TextsOfStates(v1.states) && cursor == v1.cursor && atEnd == v1.atEnd && first == v1.first
    requires screen == v1.screen && count == |v1.states| - v1.first && |v1.states| == |v0.states|
    requires PrintedAt(p, atEnd0, element, e.foreground, e.background, chars, texts, cursor, atEnd, first, screen, count)
    requires v1.enabled == v0.enabled && v1.lastNonDummyRow >= v0.lastNonDummyRow && v1.colours == v0.colours && v1.pen == v0.pen
    ensures Printed(v0, element, v1)
  {
  }

  /** `AppendRow(new MonospaceTextRow(""), true)`: one empty row more, holding output; the cursor stays. */
  ghost predicate OutputRowAppended(v0: View, v1: View)
  {
    Grown(v0, v1) && |v1.states| == |v0.states| + 1
    && v1.lastNonDummyRow == MonospaceRows.Max(v0.lastNonDummyRow, |v1.states|)
    && v1.cursor == v0.cursor && v1.atEnd == v0.atEnd && v1.enabled == v0.enabled
    && v1.colours == v0.colours && v1.pen == v0.pen
  }

  /**
   * Line feed: the VT100 cursor set one line lower; when it reads back on
   * the same line, an empty row holding output is appended and the cursor,
   * read again, is set one line lower once more.
   */
  ghost predicate LineFed(v0: View, v1: View)
    requires ViewValid(v0) && ViewValid(v1)
  {
    var p := VtOf(v0);
    exists m :: ViewValid(m) && Moved(v0, p.ShiftedByY(1), m)
                && (VtOf(m).Y != p.Y ==> v1 == m)
                && (VtOf(m).Y == p.Y ==>
                      exists n :: ViewValid(n) && OutputRowAppended(m, n) && Moved(n, VtOf(n).ShiftedByY(1), v1))
  }

  /** Rows grown twice over are rows grown once. */
  lemma GrownTwice(v0: View, v: View, v1: View)
    requires Grown(v0, v) && Grown(v, v1)
    ensures Grown(v0, v1)
  {
  }

  /**
   * A line feed above the last line: the request one line down reads back
   * on another line, so only the cursor moves, to the clamped request.
   */
  lemma LineFeedAboveLastLine(v0: View, v1: View)
    requires ViewValid(v0) && ViewValid(v1) && LineFed(v0, v1)
    requires var down := VtOf(v0).ShiftedByY(1);
             OnScreen(v0.screen, down) && Clamped(v0.screen, down).Y != VtOf(v0).Y
    ensures v1.states == v0.states && v1.screen == v0.screen && v1.lastNonDummyRow == v0.lastNonDummyRow
    ensures VtOf(v1) == Clamped(v0.screen, VtOf(v0).ShiftedByY(1))
  {
    var p := VtOf(v0);
    var m :| ViewValid(m) && Moved(v0, p.ShiftedByY(1), m) && (VtOf(m).Y != p.Y ==> v1 == m);
    assert VtOf(m) == Clamped(v0.screen, p.ShiftedByY(1));
  }

  /**
   * A line feed on the last line: the request one line down reads back on
   * the same line. The old rows are kept, the next row is an empty text
   * row holding output, every row after it is an empty text row the setter
   * appended, and the cursor is where the setter puts a request one line
   * below the position read after the append: the clamped request when it
   * lands on a row of the screen, the requested column of the last screen
   * row otherwise.
   */
  lemma LineFeedOnLastLine(v0: View, v1: View)
    requires ViewValid(v0) && ViewValid(v1) && LineFed(v0, v1)
    requires var down := VtOf(v0).ShiftedByY(1);
             OnScreen(v0.screen, down) && Clamped(v0.screen, down).Y == VtOf(v0).Y
    ensures |v1.states| > |v0.states| && forall k :: 0 <= k < |v0.states| ==> v1.states[k] == v0.states[k]
    ensures v1.states[|v0.states|].TextState? && v1.states[|v0.states|].content == []
    ensures forall k :: |v0.states| < k < |v1.states| ==> v1.states[k].TextState? && v1.states[k].content == []
    ensures v1.lastNonDummyRow == MonospaceRows.Max(v0.lastNonDummyRow, |v0.states| + 1)
    ensures exists n :: ViewValid(n) && n.states == v1.states[..|v0.states| + 1]
                        && Moved(n, VtOf(n).ShiftedByY(1), v1)
                        && (OnScreen(n.screen, VtOf(n).ShiftedByY(1)) ==>
                              v1.screen == n.screen && VtOf(v1) == Clamped(n.screen, VtOf(n).ShiftedByY(1)))
  {
    var p := VtOf(v0);
    var m :| ViewValid(m) && Moved(v0, p.ShiftedByY(1), m)
             && (VtOf(m).Y != p.Y ==> v1 == m)
             && (VtOf(m).Y == p.Y ==>
                   exists n :: ViewValid(n) && OutputRowAppended(m, n) && Moved(n, VtOf(n).ShiftedByY(1), v1));
    StayedOnLine(v0, m);
    AppendedAfterFeed(v0, m, v1);
  }

  /** The first move of a line feed on the last line: the rows are kept and the cursor reads back on its line. */
  lemma StayedOnLine(v0: View, m: View)
    requires ViewValid(v0) && ViewValid(m) && Moved(v0, VtOf(v0).ShiftedByY(1), m)
    requires var down := VtOf(v0).ShiftedByY(1);
             OnScreen(v0.screen, down) && Clamped(v0.screen, down).Y == VtOf(v0).Y
    ensures m.states == v0.states && m.lastNonDummyRow == v0.lastNonDummyRow && VtOf(m).Y == VtOf(v0).Y
  {
    assert VtOf(m) == Clamped(v0.screen, VtOf(v0).ShiftedByY(1));
  }

  /** The rest of a line feed on the last line, after the first move `m` kept the rows of `v0`. */
  lemma AppendedAfterFeed(v0: View, m: View, v1: View)
    requires ViewValid(m) && ViewValid(v1) && m.states == v0.states && m.lastNonDummyRow == v0.lastNonDummyRow
    requires exists n :: ViewValid(n) && OutputRowAppended(m, n) && Moved(n, VtOf(n).ShiftedByY(1), v1)
    ensures |v1.states| > |v0.states| && forall k :: 0 <= k < |v0.states| ==> v1.states[k] == v0.states[k]
    ensures v1.states[|v0.states|].TextState? && v1.states[|v0.states|].content == []
    ensures forall k :: |v0.states| < k < |v1.states| ==> v1.states[k].TextState? && v1.states[k].content == []
    ensures v1.lastNonDummyRow == MonospaceRows.Max(v0.lastNonDummyRow, |v0.states| + 1)
    ensures exists n :: ViewValid(n) && n.states == v1.states[..|v0.states| + 1]
                        && Moved(n, VtOf(n).ShiftedByY(1), v1)
                        && (OnScreen(n.screen, VtOf(n).ShiftedByY(1)) ==>
                              v1.screen == n.screen && VtOf(v1) == Clamped(n.screen, VtOf(n).ShiftedByY(1)))
  {
    var n :| ViewValid(n) && OutputRowAppended(m, n) && Moved(n, VtOf(n).ShiftedByY(1), v1);
    RowAppendedThenMoved(m, n, v1);
  }

  /** An empty row holding output appended, then the cursor moved: the rows as the line feed leaves them. */
  lemma RowAppendedThenMoved(m: View, n: View, v1: View)
    requires ViewValid(m) && ViewValid(n) && ViewValid(v1)
    requires OutputRowAppended(m, n) && Moved(n, VtOf(n).ShiftedByY(1), v1)
    ensures |v1.states| > |m.states| && forall k :: 0 <= k < |m.states| ==> v1.states[k] == m.states[k]
    ensures v1.states[|m.states|].TextState? && v1.states[|m.states|].content == []
    ensures forall k :: |m.states| < k < |v1.states| ==> v1.states[k].TextState? && v1.states[k].content == []
    ensures v1.lastNonDummyRow == MonospaceRows.Max(m.lastNonDummyRow, |m.states| + 1)
    ensures n.states == v1.states[..|m.states| + 1]
    ensures OnScreen(n.screen, VtOf(n).ShiftedByY(1)) ==>
              v1.screen == n.screen && VtOf(v1) == Clamped(n.screen, VtOf(n).ShiftedByY(1))
  {
    GrownTwice(m, n, v1);
  }

  /** The screen from `from` to `to` erased with the rendition's own background, as `EraseScreen` does. */
  ghost predicate ScreenErased(v0: View, from: IntegerPosition, to: IntegerPosition, v1: View)
    requires ViewValid(v0) && to.X >= 0
  {
    SameButStates(v0, v1)
    && Terminals.StatesErasedUpTo(v1.states, v0.limits, v0.states, v0.first, from, to, v0.pen.rendition.background, to.Y)
  }

  /** Cells `from` to `to` of the row under the cursor erased with the rendition's own background. */
  ghost predicate LineErased(v0: View, from: int, to: nat, v1: View)
    requires ViewValid(v0)
  {
    var i := CursorRow(v0);
    SameButStates(v0, v1) && v1.states == v0.states[i := Terminals.ErasedState(v0.states[i], from, to, v0.pen.rendition.background)]
  }

  /**
   * `EraseDisplay` with `mode`: 0 and 1 erase the screen between the
   * cursor and its maximal position, or the origin and the cursor; 2 sends
   * the VT100 cursor home first and then erases up to the old maximal
   * position; any other mode changes nothing.
   */
  ghost predicate DisplayErased(v0: View, mode: int, v1: View)
    requires ViewValid(v0) && ViewValid(v1)
  {
    (!(0 <= mode <= 2) ==> v1 == v0)
    && ((mode == 0 || mode == 1) ==>
          var range := EraseDisplayRange(mode, v0.cursor, MaximalOf(v0)).value;
          range.1.X >= 0 && ScreenErased(v0, range.0, range.1, v1))
    && (mode == 2 ==>
          exists m :: ViewValid(m) && Moved(v0, IntegerPosition(0, 0), m) && ScreenErased(m, Origin, MaximalOf(v0), v1))
  }

  /** `EraseInLine` with `mode`: the range `EraseInLineRange` names erased on the cursor's row, or nothing for another mode. */
  ghost predicate InLineErased(v0: View, mode: int, v1: View)
    requires ViewValid(v0)
  {
    var range := EraseInLineRange(mode, v0.cursor.X, v0.screen.chars - 1);
    (range.None? ==> v1 == v0) && (range.Some? ==> range.value.1 >= 0 && LineErased(v0, range.value.0, range.value.1, v1))
  }

  /** `EraseCharacter`: the cells `EraseCharacterRange` names erased on the cursor's row, nothing when its end is negative. */
  ghost predicate CharactersErased(v0: View, params: seq<Option<int>>, v1: View)
    requires ViewValid(v0)
  {
    var range := EraseCharacterRange(v0.cursor.X, params);
    (range.1 < 0 ==> v1 == v0) && (range.1 >= 0 ==> LineErased(v0, range.0, range.1, v1))
  }

  /** The defaults a view's rendition falls back on. */
  function DefaultsIn(v: View): Defaults
  {
    Defaults(v.colours.0, v.colours.1)
  }

  /** `HandleTerminalReset`: a screenful of empty rows appended, the cursor home and shown, a plain rendition. */
  ghost predicate WasReset(v0: View, v1: View)
    requires ViewValid(v0)
  {
    Grown(v0, v1) && |v1.states| == |v0.states| + (|v0.states| - v0.first)
    && v1.cursor == Origin && v1.enabled && v1.atEnd == v0.atEnd && v1.lastNonDummyRow == v0.lastNonDummyRow
    && v1.colours == v0.colours && v1.pen == v0.pen.(rendition := Plain, effective := Refreshed(Plain, DefaultsIn(v0)))
  }

  /** `SaveCursorPosition`: the rendition, its colours and the VT100 cursor put aside. */
  function Saved(v0: View): View
    requires ViewValid(v0)
  {
    v0.(pen := v0.pen.(savedRendition := v0.pen.rendition, savedEffective := v0.pen.effective, savedPosition := VtOf(v0)))
  }

  /** A move does not depend on the pen, nor change it. */
  lemma MovedWithPen(v0: View, value: IntegerPosition, v1: View, pen: Pen)
    requires ViewValid(v0) && ViewValid(v1) && Moved(v0.(pen := pen), value, v1)
    ensures Moved(v0, value, v1.(pen := v0.pen)) && v1.pen == pen
  {
  }

  /** `RestoreCursorPosition`: the VT100 cursor set to the saved position, the saved rendition made current. */
  ghost predicate Restored(v0: View, v1: View)
    requires ViewValid(v0) && ViewValid(v1)
  {
    Moved(v0, v0.pen.savedPosition, v1.(pen := v0.pen))
    && v1.pen == v0.pen.(rendition := v0.pen.savedRendition, effective := v0.pen.savedEffective)
  }

  /** A mode set or reset: reverse video on the rendition, or the cursor shown or hidden. */
  function ModeChanged(v0: View, effect: ModeEffect): View
  {
    match effect
    case Negative(on) =>
      var r := v0.pen.rendition.(negative := on);
      v0.(pen := v0.pen.(rendition := r, effective := Refreshed(r, DefaultsIn(v0))))
    case CursorEnabled(on) => v0.(enabled := on)
    case _ => v0
  }

  /** `SGR`: the rendition `SgrFrom` gives, the effective colours refreshed when a code asks for it. */
  function SgrApplied(v0: View, params: seq<Option<int>>): View
  {
    var o := SgrFrom(params, 0, v0.pen.rendition);
    v0.(pen := v0.pen.(rendition := o.rendition,
                       effective := if o.sets then Refreshed(o.rendition, DefaultsIn(v0)) else v0.pen.effective))
  }

  /** What the non-CSI escape codes do. */
  ghost predicate NonCsiEffect(v0: View, k: NonCsiCode, v1: View)
    requires ViewValid(v0) && ViewValid(v1)
  {
    match k
    case TerminalReset => WasReset(v0, v1)
    case SaveCursor => v1 == Saved(v0)
    case RestoreCursor => Restored(v0, v1)
    case _ => v1 == v0
  }

  /** What a dispatched command does, per handler; queries and unknown modes change nothing. */
  ghost predicate CommandEffect(v0: View, h: Handler, params: seq<Option<int>>, privateMode: bool, v1: View)
    requires ViewValid(v0) && ViewValid(v1)
  {
    match h
    case EraseDisplay => DisplayErased(v0, ParamOrDefault(params, 0, 0), v1)
    case EraseInLine => InLineErased(v0, ParamOrDefault(params, 0, 0), v1)
    case EraseCharacter => CharactersErased(v0, params, v1)
    case SelectGraphicRendition => v1 == SgrApplied(v0, params)
    case SetMode => v1 == ModeChanged(v0, SetModeEffect(params, privateMode))
    case ResetMode => v1 == ModeChanged(v0, ResetModeEffect(params, privateMode))
    case SaveCursorPosition => v1 == Saved(v0)
    case RestoreCursorPosition => Restored(v0, v1)
    case DeviceStatusReport => v1 == v0
    case DeviceAttributes => v1 == v0
    case _ => Moved(v0, MoveTarget(h, params, VtOf(v0), v0.atEnd), v1)
  }

  /** What the decoder's state holds besides the parser fields: the log, the replies, the bells, `currentParams`, the blinking and the view. */
  datatype Trace = Trace(log: seq<LogEntry>, responses: seq<byte>, bells: int, current: seq<Option<int>>,
                         blink: TerminalCursor.Blink, view: View)

  /**
   * What running the command `h` left behind: the throw exactly when
   * `EraseCharacter` is handed a negative range, the command's log lines
   * and replies appended, the bells, `currentParams` and the blinking
   * kept, and its effect on the view.
   */
  ghost predicate CommandRan(h: Handler, params: seq<Option<int>>, privateMode: bool, thrown: bool, t0: Trace, t1: Trace)
  {
    ViewValid(t0.view) && ViewValid(t1.view)
    && (thrown <==> Throws(Dispatch(h, params, privateMode), t0.view.cursor.X))
    && t1.log == t0.log + CommandLogs(h, params, privateMode, t0.view.pen.rendition)
    && t1.responses == t0.responses + CommandResponse(h, params, privateMode, VtOf(t0.view))
    && t1.bells == t0.bells && t1.current == t0.current && t1.blink == t0.blink
    && CommandEffect(t0.view, h, params, privateMode, t1.view)
  }

  /**
   * What a fed element's action does to the view: printing (a tab prints a
   * space, a control in caret notation `^` and then the character 64
   * above it), the cursor moves of backspace, line feed and carriage
   * return, the escape codes and the dispatched commands; everything else
   * leaves the view as it was.
   */
  ghost predicate ActionEffect(v0: View, a: Action, v1: View)
    requires ViewValid(v0) && ViewValid(v1)
  {
    match a
    case Print(element) => Printed(v0, element, v1)
    case TabSpace => Printed(v0, " ", v1)
    case CaretNotation(c) =>
      0 < c as int < 32
      && exists m :: ViewValid(m) && Printed(v0, "^", m) && Printed(m, [(c as int + 64) as char], v1)
    case BackspaceLeft => Moved(v0, MoveTarget(CursorLeft, [Some(1)], VtOf(v0), v0.atEnd), v1)
    case LineFeedDown => LineFed(v0, v1)
    case ReturnToColumnOne => Moved(v0, VtOf(v0).WithX(0), v1)
    case NonCsi(k) => NonCsiEffect(v0, k, v1)
    case Dispatch(h, params, privateMode) => CommandEffect(v0, h, params, privateMode, v1)
    case _ => v1 == v0
  }

  /** The bells, `currentParams` and the blinking are as they were. */
  predicate Kept(t0: Trace, t1: Trace)
  {
    t1.bells == t0.bells && t1.current == t0.current && t1.blink == t0.blink
  }

  /** A cursor move read as a dispatched command: it neither logs nor answers. */
  lemma MoveRan(h: Handler, params: seq<Option<int>>, privateMode: bool, t0: Trace, t1: Trace)
    requires IsCursorMove(h) && ViewValid(t0.view) && ViewValid(t1.view) && Kept(t0, t1)
    requires t1.log == t0.log && t1.responses == t0.responses
    requires Moved(t0.view, MoveTarget(h, params, VtOf(t0.view), t0.view.atEnd), t1.view)
    ensures CommandRan(h, params, privateMode, false, t0, t1)
  {
  }

  /** `DSR` read as a dispatched command. */
  lemma StatusReportRan(params: seq<Option<int>>, privateMode: bool, t0: Trace, t1: Trace)
    requires ViewValid(t0.view) && t1.view == t0.view && Kept(t0, t1)
    requires t1.log == t0.log + (if ReportsPosition(params) then [] else [UnsupportedStatusReport(params)])
    requires t1.responses == t0.responses + StatusReply(params, VtOf(t0.view))
    ensures CommandRan(DeviceStatusReport, params, privateMode, false, t0, t1)
  {
  }

  /** `DA` read as a dispatched command. */
  lemma AttributesRan(params: seq<Option<int>>, privateMode: bool, t0: Trace, t1: Trace)
    requires ViewValid(t0.view) && t1.view == t0.view && Kept(t0, t1)
    requires t1.log == t0.log + (if ReportsAttributes(params, privateMode) then [] else [UnsupportedAttributes(params)])
    requires t1.responses == t0.responses + AttributesReply(params, privateMode)
    ensures CommandRan(DeviceAttributes, params, privateMode, false, t0, t1)
  {
  }

  /** `ED` read as a dispatched command. */
  lemma DisplayRan(params: seq<Option<int>>, privateMode: bool, t0: Trace, t1: Trace)
    requires ViewValid(t0.view) && ViewValid(t1.view) && Kept(t0, t1) && t1.responses == t0.responses
    requires var mode := ParamOrDefault(params, 0, 0);
             t1.log == t0.log + (if 0 <= mode <= 2 then [] else [UnimplementedEraseDisplay])
             && DisplayErased(t0.view, mode, t1.view)
    ensures CommandRan(EraseDisplay, params, privateMode, false, t0, t1)
  {
  }

  /** `EL` read as a dispatched command. */
  lemma InLineRan(params: seq<Option<int>>, privateMode: bool, t0: Trace, t1: Trace)
    requires ViewValid(t0.view) && ViewValid(t1.view) && Kept(t0, t1) && t1.responses == t0.responses
    requires var mode := ParamOrDefault(params, 0, 0);
             t1.log == t0.log + (if 0 <= mode <= 2 then [] else [UnimplementedEraseLine])
             && InLineErased(t0.view, mode, t1.view)
    ensures CommandRan(EraseInLine, params, privateMode, false, t0, t1)
  {
  }

  /** `ECH` read as a dispatched command: it throws exactly when its range ends below column 0. */
  lemma CharactersRan(params: seq<Option<int>>, privateMode: bool, t0: Trace, t1: Trace)
    requires ViewValid(t0.view) && ViewValid(t1.view) && Kept(t0, t1)
    requires t1.log == t0.log && t1.responses == t0.responses && CharactersErased(t0.view, params, t1.view)
    ensures CommandRan(EraseCharacter, params, privateMode, EraseCharacterRange(t0.view.cursor.X, params).1 < 0, t0, t1)
  {
  }

  /** `SGR` read as a dispatched command. */
  lemma SgrRan(params: seq<Option<int>>, privateMode: bool, t0: Trace, t1: Trace)
    requires ViewValid(t0.view) && Kept(t0, t1) && t1.responses == t0.responses
    requires t1.log == t0.log + SgrFrom(params, 0, t0.view.pen.rendition).logs && t1.view == SgrApplied(t0.view, params)
    ensures CommandRan(SelectGraphicRendition, params, privateMode, false, t0, t1)
  {
  }

  /** `SM` and `RM` read as dispatched commands. */
  lemma ModeRan(h: Handler, params: seq<Option<int>>, privateMode: bool, t0: Trace, t1: Trace)
    requires (h.SetMode? || h.ResetMode?) && ViewValid(t0.view) && Kept(t0, t1) && t1.responses == t0.responses
    requires var effect := if h.SetMode? then SetModeEffect(params, privateMode) else ResetModeEffect(params, privateMode);
             var entry := if h.SetMode? then UnimplementedModeSet(params) else UnimplementedModeReset(params);
             t1.log == t0.log + (if effect.Unimplemented? then [entry] else []) && t1.view == ModeChanged(t0.view, effect)
    ensures CommandRan(h, params, privateMode, false, t0, t1)
  {
  }

  /** `SaveCursorPosition` read as a dispatched command. */
  lemma SaveRan(params: seq<Option<int>>, privateMode: bool, t0: Trace, t1: Trace)
    requires ViewValid(t0.view) && Kept(t0, t1) && t1.log == t0.log && t1.responses == t0.responses
    requires t1.view == Saved(t0.view)
    ensures CommandRan(SaveCursorPosition, params, privateMode, false, t0, t1)
  {
  }

  /** `RestoreCursorPosition` read as a dispatched command. */
  lemma RestoreRan(params: seq<Option<int>>, privateMode: bool, t0: Trace, t1: Trace)
    requires ViewValid(t0.view) && ViewValid(t1.view) && Kept(t0, t1) && t1.log == t0.log && t1.responses == t0.responses
    requires Restored(t0.view, t1.view)
    ensures CommandRan(RestoreCursorPosition, params, privateMode, false, t0, t1)
  {
  }

  /**
   * What carrying out the action `a` left behind: the throw exactly when
   * `ECH` is handed a negative range, the action's log lines and replies
   * appended, a bell counted for `BEL`, `currentParams` as `ParamsAfter`
   * says, the blinking kept, and the action's effect on the view.
   */
  ghost predicate ActionRan(a: Action, thrown: bool, t0: Trace, t1: Trace)
  {
    ViewValid(t0.view) && ViewValid(t1.view)
    && (thrown <==> Throws(a, t0.view.cursor.X))
    && t1.log == t0.log + ActionLogs(a, t0.view.pen.rendition)
    && t1.responses == t0.responses + ActionResponse(a, VtOf(t0.view))
    && t1.bells == t0.bells + (if a.BellRung? then 1 else 0)
    && t1.current == ParamsAfter(a, t0.current) && t1.blink == t0.blink
    && ActionEffect(t0.view, a, t1.view)
  }

  /** `ESC c` read as a fed element's action. */
  lemma ResetCodeRan(t0: Trace, t1: Trace)
    requires ViewValid(t0.view) && ViewValid(t1.view) && Kept(t0, t1) && t1.log == t0.log && t1.responses == t0.responses
    requires WasReset(t0.view, t1.view)
    ensures ActionRan(NonCsi(NonCsiCode.TerminalReset), false, t0, t1)
  {
  }

  /** `ESC 7` read as a fed element's action. */
  lemma SaveCodeRan(t0: Trace, t1: Trace)
    requires ViewValid(t0.view) && Kept(t0, t1) && t1.log == t0.log && t1.responses == t0.responses
    requires t1.view == Saved(t0.view)
    ensures ActionRan(NonCsi(SaveCursor), false, t0, t1)
  {
  }

  /** `ESC 8` read as a fed element's action. */
  lemma RestoreCodeRan(t0: Trace, t1: Trace)
    requires ViewValid(t0.view) && ViewValid(t1.view) && Kept(t0, t1) && t1.log == t0.log && t1.responses == t0.responses
    requires Restored(t0.view, t1.view)
    ensures ActionRan(NonCsi(RestoreCursor), false, t0, t1)
  {
  }

  /** A character set designation or an unknown code read as a fed element's action: only the latter logs. */
  lemma OtherCodeRan(k: NonCsiCode, t0: Trace, t1: Trace)
    requires k.CharacterSet? || k.UnknownNonCsi?
    requires ViewValid(t0.view) && t1.view == t0.view && Kept(t0, t1) && t1.responses == t0.responses
    requires t1.log == t0.log + (if k.UnknownNonCsi? then [UnimplementedNonCsiCode(k.c)] else [])
    ensures ActionRan(NonCsi(k), false, t0, t1)
  {
  }

  /** A dispatched command, its parameters first kept as `currentParams`. */
  lemma DispatchRan(a: Action, thrown: bool, t0: Trace, t1: Trace)
    requires a.Dispatch? && CommandRan(a.handler, a.params, a.privateMode, thrown, t0.(current := a.params), t1)
    ensures ActionRan(a, thrown, t0, t1)
  {
  }

  /** `element` printed: only the view changes, as `Printed` says. */
  ghost predicate PrintTraced(t0: Trace, element: MonospaceRows.Element, t1: Trace)
  {
    ViewValid(t0.view) && ViewValid(t1.view) && Kept(t0, t1) && t1.log == t0.log && t1.responses == t0.responses
    && Printed(t0.view, element, t1.view)
  }

  /** Printing an element, or a space for a tab, read as a fed element's action. */
  lemma PrintRan(a: Action, t0: Trace, t1: Trace)
    requires a.Print? || a.TabSpace?
    requires PrintTraced(t0, if a.Print? then a.element else " ", t1)
    ensures ActionRan(a, false, t0, t1)
  {
  }

  /** A control in caret notation read as a fed element's action: `^` printed, giving `t`, then the character 64 above `c`. */
  lemma CaretRan(c: char, t0: Trace, t: Trace, t1: Trace)
    requires 0 < c as int < 32
    requires PrintTraced(t0, "^", t) && PrintTraced(t, [(c as int + 64) as char], t1)
    ensures ActionRan(CaretNotation(c), false, t0, t1)
  {
  }

  /** Backspace read as a fed element's action: `{ 1 }` set as `currentParams`, then `CursorLeft` run with it. */
  lemma BackspaceRan(t0: Trace, t1: Trace)
    requires CommandRan(CursorLeft, [Some(1)], false, false, t0.(current := [Some(1)]), t1)
    ensures ActionRan(BackspaceLeft, false, t0, t1)
  {
  }

  /** Line feed read as a fed element's action. */
  lemma LineFeedRan(t0: Trace, t1: Trace)
    requires ViewValid(t0.view) && ViewValid(t1.view) && Kept(t0, t1) && t1.log == t0.log && t1.responses == t0.responses
    requires LineFed(t0.view, t1.view)
    ensures ActionRan(LineFeedDown, false, t0, t1)
  {
  }

  /** Carriage return read as a fed element's action. */
  lemma ReturnRan(t0: Trace, t1: Trace)
    requires ViewValid(t0.view) && ViewValid(t1.view) && Kept(t0, t1) && t1.log == t0.log && t1.responses == t0.responses
    requires Moved(t0.view, VtOf(t0.view).WithX(0), t1.view)
    ensures ActionRan(ReturnToColumnOne, false, t0, t1)
  {
  }

  /** `BEL` read as a fed element's action: one more bell and nothing else. */
  lemma BellRan(t0: Trace, t1: Trace)
    requires ViewValid(t0.view) && t1.view == t0.view && t1.log == t0.log && t1.responses == t0.responses
    requires t1.bells == t0.bells + 1 && t1.current == t0.current && t1.blink == t0.blink
    ensures ActionRan(BellRung, false, t0, t1)
  {
  }

  /** The actions that leave the terminal alone, writing at most the line `LogsOf` gives. */
  predicate Quiet(a: Action)
  {
    a.Swallowed? || a.EscapeStarted? || a.ShiftIgnored? || a.NothingDone? || a.UnknownControl?
    || a.CsiStarted? || a.Collected? || a.EscapeInCsi? || a.BrokenData? || a.UnknownCommand?
  }

  /** A quiet action read as a fed element's action. */
  lemma QuietRan(a: Action, t0: Trace, t1: Trace)
    requires Quiet(a)
    requires ViewValid(t0.view) && t1.view == t0.view && Kept(t0, t1)
    requires t1.log == t0.log + LogsOf(a) && t1.responses == t0.responses
    ensures ActionRan(a, false, t0, t1)
  {
  }
}
