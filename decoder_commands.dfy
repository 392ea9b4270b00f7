/**
 * The pure part of the VT100 command handlers (Vt100/DecoderCommands.cs):
 * the table of command letters, where each cursor command asks the cursor
 * to go, which cells the erase commands cover, the replies to the status
 * and attribute queries, and what the private modes switch.
 */
module Vt100Commands {
  import opened Wrappers
  import opened Strings
  import opened Positions
  import opened Vt100Params
  import MonospaceRows
  import Colors
  import Encoder

  type byte = Encoder.byte

  /** The handlers `InitializeCommands` registers. */
  datatype Handler =
    | CursorUp | CursorDown | CursorRight | CursorLeft | CursorNextLine | CursorPreviousLine
    | CursorHorizontalAbsolute | CursorPosition | CursorVerticalAbsolute
    | EraseDisplay | EraseInLine | EraseCharacter
    | SelectGraphicRendition | DeviceStatusReport | SaveCursorPosition | RestoreCursorPosition
    | SetMode | ResetMode | DeviceAttributes

  /** The `commands` dictionary: the handler registered for a final character. */
  function HandlerOf(c: char): (h: Option<Handler>)
  {
    match c
    case 'A' => Some(CursorUp)
    case 'B' => Some(CursorDown)
    case 'C' => Some(CursorRight)
    case 'D' => Some(CursorLeft)
    case 'E' => Some(CursorNextLine)
    case 'F' => Some(CursorPreviousLine)
    case 'G' => Some(CursorHorizontalAbsolute)
    case 'H' => Some(CursorPosition)
    case 'f' => Some(CursorPosition)
    case 'J' => Some(EraseDisplay)
    case 'K' => Some(EraseInLine)
    case 'X' => Some(EraseCharacter)
    case 'm' => Some(SelectGraphicRendition)
    case 'n' => Some(DeviceStatusReport)
    case 's' => Some(SaveCursorPosition)
    case 'u' => Some(RestoreCursorPosition)
    case 'h' => Some(SetMode)
    case 'l' => Some(ResetMode)
    case 'c' => Some(DeviceAttributes)
    case 'd' => Some(CursorVerticalAbsolute)
    case '`' => Some(CursorHorizontalAbsolute)
    case _ => None
  }

  /** The final characters with a handler. */
  const CommandCharacters := "ABCDEFGHfJKXmnsuhlcd`"

  /**
   * Exactly the twenty-one registered characters have a handler; `H`/`f`
   * and `G`/`` ` `` share one, and every handler has a character.
   */
  lemma CommandTable(c: char)
    ensures HandlerOf(c).Some? <==> c in CommandCharacters
    ensures HandlerOf('H') == HandlerOf('f') && HandlerOf('G') == HandlerOf('`')
    ensures forall h: Handler :: exists k :: 0 <= k < |CommandCharacters| && HandlerOf(CommandCharacters[k]) == Some(h)
  {
    forall h: Handler
      ensures exists k :: 0 <= k < |CommandCharacters| && HandlerOf(CommandCharacters[k]) == Some(h)
    {
      var k := match h
        case CursorUp => 0 case CursorDown => 1 case CursorRight => 2 case CursorLeft => 3
        case CursorNextLine => 4 case CursorPreviousLine => 5 case CursorHorizontalAbsolute => 6
        case CursorPosition => 7 case EraseDisplay => 9 case EraseInLine => 10 case EraseCharacter => 11
        case SelectGraphicRendition => 12 case DeviceStatusReport => 13 case SaveCursorPosition => 14
        case RestoreCursorPosition => 15 case SetMode => 16 case ResetMode => 17 case DeviceAttributes => 18
        case CursorVerticalAbsolute => 19;
      assert HandlerOf(CommandCharacters[k]) == Some(h);
    }
  }

  predicate IsCursorMove(h: Handler)
  {
    h.CursorUp? || h.CursorDown? || h.CursorRight? || h.CursorLeft? || h.CursorNextLine? || h.CursorPreviousLine?
    || h.CursorHorizontalAbsolute? || h.CursorPosition? || h.CursorVerticalAbsolute?
  }

  /**
   * Where a cursor command sends the VT100 cursor, standing at `p` (1-based
   * column and row); counts and coordinates default to 1. A cursor left
   * of the deferred end-of-line position ignores one step.
   */
  function MoveTarget(h: Handler, params: seq<Option<int>>, p: IntegerPosition, atEndOfLine: bool): IntegerPosition
    requires IsCursorMove(h)
  {
    var first := ParamOrDefault(params, 0, 1);
    match h
    case CursorUp => p.ShiftedByY(-first)
    case CursorDown => p.ShiftedByY(first)
    case CursorLeft => p.ShiftedByX(-(if atEndOfLine then first - 1 else first))
    case CursorRight => p.ShiftedByX(first)
    case CursorNextLine => p.ShiftedByY(first).WithX(1)
    case CursorPreviousLine => p.ShiftedByY(-first).WithX(1)
    case CursorHorizontalAbsolute => p.WithX(first)
    case CursorVerticalAbsolute => p.WithY(first)
    case CursorPosition => IntegerPosition(ParamOrDefault(params, 1, 1), first)
  }

  /**
   * The relative moves undo each other: up then down by the same count
   * returns to the start, and so do left then right away from the end of
   * the line; at the end of the line a left move is one step shorter.
   */
  lemma RelativeMovesInvert(params: seq<Option<int>>, p: IntegerPosition)
    ensures MoveTarget(CursorDown, params, MoveTarget(CursorUp, params, p, false), false) == p
    ensures MoveTarget(CursorRight, params, MoveTarget(CursorLeft, params, p, false), false) == p
    ensures MoveTarget(CursorLeft, params, p, true) == MoveTarget(CursorLeft, params, p, false).ShiftedByX(1)
    ensures MoveTarget(CursorNextLine, params, p, false).Y == MoveTarget(CursorDown, params, p, false).Y
    ensures MoveTarget(CursorPreviousLine, params, p, false) == MoveTarget(CursorUp, params, p, false).WithX(1)
  {
  }

  /**
   * `CSI r ; c H` written in decimal sends the cursor to column `c` of row
   * `r`.
   */
  lemma CursorPositionFromText(row: nat, column: nat, p: IntegerPosition)
    requires row <= 0x7FFF_FFFF && column <= 0x7FFF_FFFF
    ensures var data := Decimal(row) + ";" + Decimal(column);
            ParsedParams(data).Some?
            && MoveTarget(CursorPosition, ParsedParams(data).value, p, false) == IntegerPosition(column, row)
  {
    var data := Decimal(row) + ";" + Decimal(column);
    TwoParamsFromText(row, column);
    var ps := ParsedParams(data).value;
    assert ps == [Some(row), Some(column)];
    CursorPositionTarget(ps, row, column, p);
  }

  lemma CursorPositionTarget(ps: seq<Option<int>>, row: int, column: int, p: IntegerPosition)
    requires ps == [Some(row), Some(column)]
    ensures MoveTarget(CursorPosition, ps, p, false) == IntegerPosition(column, row)
  {
    assert ParamOrDefault(ps, 0, 1) == row && ParamOrDefault(ps, 1, 1) == column;
  }

  /** Two numbers joined by `;` parse back to themselves. */
  lemma TwoParamsFromText(first: nat, second: nat)
    requires first <= 0x7FFF_FFFF && second <= 0x7FFF_FFFF
    ensures ParsedParams(Decimal(first) + ";" + Decimal(second)) == Some([Some(first), Some(second)])
  {
    var ps: seq<Option<nat>> := [Some(first), Some(second)];
    var texts := ParamTexts(ps);
    assert texts == [Decimal(first), Decimal(second)];
    assert AsParams(ps) == [Some(first), Some(second)];
    assert Join(texts, ";") == Decimal(first) + ";" + Decimal(second) by {
      assert texts[1..] == [Decimal(second)];
    }
    ParamsRoundTrip(ps);
  }

  /** With no coordinates, or two empty ones, `CSI H` and `CSI ; H` go home. */
  lemma CursorPositionDefaults(p: IntegerPosition)
    ensures ParsedParams("").Some? && MoveTarget(CursorPosition, ParsedParams("").value, p, false) == IntegerPosition(1, 1)
    ensures ParsedParams(";").Some? && MoveTarget(CursorPosition, ParsedParams(";").value, p, false) == IntegerPosition(1, 1)
  {
    NoParamsFromText();
  }

  lemma NoParamsFromText()
    ensures ParsedParams("") == Some([None]) && ParsedParams(";") == Some([None, None])
  {
    OneEmptyParam();
    TwoEmptyParams();
  }

  lemma OneEmptyParam()
    ensures ParsedParams("") == Some([None])
  {
    ParsedSingle("");
  }

  lemma TwoEmptyParams()
    ensures ParsedParams(";") == Some([None, None])
  {
    var two: seq<Option<nat>> := [None, None];
    var texts := ParamTexts(two);
    assert texts == ["", ""] && AsParams(two) == [None, None];
    assert Join(texts, ";") == ";" by {
      assert texts[1..] == [""];
    }
    ParamsRoundTrip(two);
  }

  /**
   * The screen line of a wrapped row that holds cell `x`, at `maximalColumn
   * + 1` cells per line: `[begin, end)`.
   */
  function LineAround(x: int, maximalColumn: int): (r: (int, int))
    requires x >= 0 && maximalColumn >= 0
  {
    var begin := (x / (maximalColumn + 1)) * (maximalColumn + 1);
    (begin, begin + maximalColumn + 1)
  }

  /** That line is one full line of cells, starts at a line boundary and holds `x`. */
  lemma LineAroundHoldsCell(x: int, maximalColumn: int)
    requires x >= 0 && maximalColumn >= 0
    ensures var (begin, end) := LineAround(x, maximalColumn);
            begin <= x < end && end - begin == maximalColumn + 1
            && begin % (maximalColumn + 1) == 0 && begin / (maximalColumn + 1) == x / (maximalColumn + 1)
  {
    var d := maximalColumn + 1;
    var q := x / d;
    MonospaceRows.DivisionUnique(q * d, d, q, 0);
  }

  /**
   * `EraseInLine`: the `(from, to)` handed to the row's `Erase` for modes
   * 0 (cursor to end of line), 1 (start of line to cursor) and 2 (the
   * whole line); no range for any other mode.
   */
  function EraseInLineRange(mode: int, x: int, maximalColumn: int): (r: Option<(int, int)>)
    requires x >= 0 && maximalColumn >= 0
    ensures r.Some? <==> 0 <= mode <= 2
  {
    var (begin, end) := LineAround(x, maximalColumn);
    match mode
    case 0 => Some((x, end))
    case 1 => Some((begin, x))
    case 2 => Some((begin, end))
    case _ => None
  }

  /** Every range of `EraseInLine` lies within the cursor's screen line and reaches the cursor. */
  lemma EraseInLineWithinLine(mode: int, x: int, maximalColumn: int)
    requires x >= 0 && maximalColumn >= 0 && 0 <= mode <= 2
    ensures var (begin, end) := LineAround(x, maximalColumn);
            var (from, to) := EraseInLineRange(mode, x, maximalColumn).value;
            begin <= from <= to <= end && from <= x <= to
            && (mode == 0 ==> from == x && to == end)
            && (mode == 1 ==> from == begin && to == x)
            && (mode == 2 ==> from == begin && to == end)
  {
    LineAroundHoldsCell(x, maximalColumn);
  }

  /**
   * `EraseDisplay`: `(clearBegin, clearEnd)` for modes 0 (cursor to the
   * last cell), 1 (origin to cursor) and 2 (origin to the last cell); no
   * range for any other mode.
   */
  function EraseDisplayRange(mode: int, current: IntegerPosition, maximal: IntegerPosition): (r: Option<(IntegerPosition, IntegerPosition)>)
    ensures r.Some? <==> 0 <= mode <= 2
    ensures r.Some? ==> (r.value.0 == current <==> mode == 0 || current == Origin)
    ensures r.Some? ==> (r.value.1 == current <==> mode == 1 || current == maximal)
  {
    match mode
    case 0 => Some((current, maximal))
    case 1 => Some((Origin, current))
    case 2 => Some((Origin, maximal))
    case _ => None
  }

  /** The count of `ECH`: parameter 0 with a default of 1, and 0 also meaning 1. */
  function EraseCount(params: seq<Option<int>>): (n: int)
    ensures n != 0
    ensures n == (if ParamOrDefault(params, 0, 1) == 0 then 1 else ParamOrDefault(params, 0, 1))
  {
    var amount := ParamOrDefault(params, 0, 1);
    if amount == 0 then 1 else amount
  }

  /** `EraseCharacter` as written: `Erase(X, X + amount - 1)`. */
  function EraseCharacterRangeAsWritten(x: int, params: seq<Option<int>>): (int, int)
  {
    (x, x + EraseCount(params) - 1)
  }

  /** `EraseCharacter` as intended: `amount` cells from the cursor, `Erase`'s end being exclusive. */
  function EraseCharacterRange(x: int, params: seq<Option<int>>): (r: (int, int))
    ensures r.1 - r.0 == EraseCount(params)
  {
    (x, x + EraseCount(params))
  }

  /**
   * As written, `CSI X` (one cell) with the cursor on the last element of
   * the row `ab` leaves the row as it was; the intended range blanks that
   * cell, which the row's trimming then drops.
   */
  lemma EraseCharacterMissesACell()
    ensures var (from, to) := EraseCharacterRangeAsWritten(1, []);
            to >= 0 && MonospaceRows.ErasedContent(["a", "b"], from, to) == ["a", "b"]
    ensures var (from, to) := EraseCharacterRange(1, []);
            to >= 0 && MonospaceRows.ErasedContent(["a", "b"], from, to) == ["a"]
  {
    var c: seq<MonospaceRows.Element> := ["a", "b"];
    assert MonospaceRows.ErasedCells(c, 1, 1) == c;
    assert !MonospaceRows.IsBlank(c[1]) by { assert !IsWhiteSpace(c[1][0]); }
    TrimEndKept(c, MonospaceRows.IsBlank);
    MonospaceRows.ErasedCellsAt(c, 1, 2);
    var blanked := MonospaceRows.ErasedCells(c, 1, 2);
    assert blanked == ["a", " "];
    assert MonospaceRows.IsBlank(blanked[1]);
    assert !MonospaceRows.IsBlank(blanked[0]) by { assert !IsWhiteSpace(blanked[0][0]); }
    assert blanked[..1] == ["a"];
    TrimEndKept(blanked[..1], MonospaceRows.IsBlank);
    assert TrimEndWhere(blanked, MonospaceRows.IsBlank) == TrimEndWhere(blanked[..1], MonospaceRows.IsBlank);
  }

  /**
   * With the intended range every one of the `n` cells from the cursor
   * that the row still holds is blank, and every other cell keeps its
   * element (a blank one may become a space). The colour loop of `Erase`
   * runs to its end inclusively, so the colour overrides of `n + 1` cells
   * are erased: the `n` cells and the one after them lose their
   * foreground and get the erasing background; all others keep theirs.
   */
  lemma EraseCharacterBlanksCount(c: seq<MonospaceRows.Element>, x: nat, params: seq<Option<int>>,
                                  fg: map<int, Colors.Color>, bg: map<int, Colors.Color>, background: Option<Colors.Color>)
    requires x <= |c| && EraseCount(params) > 0
    ensures var (from, to) := EraseCharacterRange(x, params);
            var r := MonospaceRows.ErasedContent(c, from, to);
            (forall i :: x <= i < x + EraseCount(params) && i < |r| ==> MonospaceRows.IsBlank(r[i]))
            && (forall i :: 0 <= i < |r| && i < |c| && !(x <= i < x + EraseCount(params)) ==>
                  r[i] == c[i] || (MonospaceRows.IsBlank(c[i]) && r[i] == " "))
    ensures var (from, to) := EraseCharacterRange(x, params);
            var f := MonospaceRows.ClampFrom(from, |c|);
            var fg1 := fg - MonospaceRows.Span(f, to);
            var bg1 := MonospaceRows.ErasedBackgrounds(bg, f, to, background);
            (forall k :: x <= k <= x + EraseCount(params) ==>
               k !in fg1 && (background.Some? ==> k in bg1 && bg1[k] == background.value) && (background.None? ==> k !in bg1))
            && (forall k :: !(x <= k <= x + EraseCount(params)) ==>
                  (k in fg1 <==> k in fg) && (k in bg1 <==> k in bg) && (k in bg ==> bg1[k] == bg[k]))
  {
    var (from, to) := EraseCharacterRange(x, params);
    MonospaceRows.ErasedContentShape(c, from, to);
    var f := MonospaceRows.ClampFrom(from, |c|);
    forall k {
      MonospaceRows.ErasedOverridesInRange(fg, bg, f, to, background, k);
    }
  }

  /** `Encoding.ASCII.GetBytes`: a character below 128 is its own code, any other one becomes `?`. */
  function Ascii(s: string): (r: seq<byte>)
    ensures |r| == |s|
    ensures forall i :: 0 <= i < |s| ==> r[i] == if s[i] as int < 0x80 then s[i] as int else '?' as int
  {
    if |s| == 0 then [] else Ascii(s[..|s| - 1]) + [if s[|s| - 1] as int < 0x80 then s[|s| - 1] as int else '?' as int]
  }

  const ESC: byte := 0x1B
  const CSI_CHAR: byte := 0x5B
  const LF: byte := 0x0A

  /** The text of a cursor position report between `ESC [` and `R`: row, `;`, column. */
  function ReportText(p: IntegerPosition): string
    requires p.X >= 0 && p.Y >= 0
  {
    Decimal(p.Y) + ";" + Decimal(p.X)
  }

  /** The `DeviceStatusReport` reply: `ESC [ row ; column R`. */
  function CursorPositionReport(p: IntegerPosition): (r: seq<byte>)
    requires p.X >= 0 && p.Y >= 0
    ensures |r| >= 6 && r[..2] == [ESC, CSI_CHAR] && r[|r| - 1] == 'R' as int
  {
    [ESC, CSI_CHAR] + Ascii(ReportText(p) + "R")
  }

  /**
   * The reply is a CSI sequence whose parameters, read back as the decoder
   * reads them, are exactly the row and the column.
   */
  lemma CursorPositionReportReadsBack(p: IntegerPosition)
    requires 0 <= p.X <= 0x7FFF_FFFF && 0 <= p.Y <= 0x7FFF_FFFF
    ensures var text := ReportText(p);
            CursorPositionReport(p) == [ESC, CSI_CHAR] + Ascii(text) + ['R' as int]
            && (forall i :: 0 <= i < |text| ==> Ascii(text)[i] == text[i] as int)
            && ParsedParams(text) == Some([Some(p.Y), Some(p.X)])
  {
    var text := ReportText(p);
    assert Ascii(text + "R") == Ascii(text) + ['R' as int];
    ReportTextIsAscii(p);
    TwoParamsFromText(p.Y, p.X);
  }

  /** The report's text is all digits and `;`, so ASCII encoding keeps every character. */
  lemma ReportTextIsAscii(p: IntegerPosition)
    requires p.X >= 0 && p.Y >= 0
    ensures forall i :: 0 <= i < |ReportText(p)| ==> ReportText(p)[i] as int < 0x80
  {
    var text := ReportText(p);
    var row, column := Decimal(p.Y), Decimal(p.X);
    assert text == row + ";" + column;
    forall i | 0 <= i < |text|
      ensures text[i] as int < 0x80
    {
      if i < |row| {
        assert text[i] == row[i] && IsDigit(row[i]);
      } else if i > |row| {
        assert text[i] == column[i - |row| - 1] && IsDigit(column[i - |row| - 1]);
      }
    }
  }

  /** `Enumerable.Union`: the elements of `a` then those of `b`, each first occurrence only. */
  function Union(a: seq<byte>, b: seq<byte>): (r: seq<byte>)
    decreases |b|
  {
    if |b| == 0 then Distinct(a)
    else
      var r := Union(a, b[..|b| - 1]);
      if b[|b| - 1] in r then r else r + [b[|b| - 1]]
  }

  /** The first occurrence of each element, in order. */
  function Distinct(a: seq<byte>): (r: seq<byte>)
  {
    if |a| == 0 then []
    else
      var r := Distinct(a[..|a| - 1]);
      if a[|a| - 1] in r then r else r + [a[|a| - 1]]
  }

  /** `Union` keeps every element it was given and never repeats one. */
  lemma {:induction false} UnionMeaning(a: seq<byte>, b: seq<byte>)
    ensures forall x :: x in Union(a, b) <==> x in a || x in b
    ensures forall i, j :: 0 <= i < j < |Union(a, b)| ==> Union(a, b)[i] != Union(a, b)[j]
    decreases |b|
  {
    if |b| == 0 {
      DistinctMeaning(a);
    } else {
      UnionMeaning(a, b[..|b| - 1]);
      assert b == b[..|b| - 1] + [b[|b| - 1]];
    }
  }

  lemma {:induction false} DistinctMeaning(a: seq<byte>)
    ensures forall x :: x in Distinct(a) <==> x in a
    ensures forall i, j :: 0 <= i < j < |Distinct(a)| ==> Distinct(a)[i] != Distinct(a)[j]
  {
    if |a| > 0 {
      DistinctMeaning(a[..|a| - 1]);
      assert a == a[..|a| - 1] + [a[|a| - 1]];
    }
  }

  /** The `DeviceAttributes` reply: line feed, `ESC [`, then `?1;2c`, merged with `Union`. */
  function DeviceAttributesReply(): seq<byte>
  {
    Union([LF, ESC, CSI_CHAR], Ascii("?1;2c"))
  }

  /** No byte repeats, so the union is the plain concatenation: eight bytes. */
  lemma DeviceAttributesReplyBytes()
    ensures DeviceAttributesReply() == [0x0A, 0x1B, 0x5B, 0x3F, 0x31, 0x3B, 0x32, 0x63]
  {
    var front: seq<byte> := [LF, ESC, CSI_CHAR];
    FrontDistinct();
    var tail := Ascii("?1;2c");
    assert tail == [0x3F, 0x31, 0x3B, 0x32, 0x63];
    UnionOfNew(front, tail);
  }

  /** The three bytes that open the reply are distinct. */
  lemma FrontDistinct()
    ensures Distinct([LF, ESC, CSI_CHAR]) == [LF, ESC, CSI_CHAR]
  {
    var front: seq<byte> := [LF, ESC, CSI_CHAR];
    assert Distinct(front[..0]) == [];
    assert front[..1][..0] == front[..0] && front[..2][..1] == front[..1] && front[..3] == front;
    assert Distinct(front[..1]) == [LF];
    assert Distinct(front[..2]) == [LF, ESC];
  }

  /** Bytes that are new and distinct are appended by `Union` as they come. */
  lemma {:induction false} UnionOfNew(a: seq<byte>, b: seq<byte>)
    requires Distinct(a) == a
    requires forall i :: 0 <= i < |b| ==> b[i] !in a
    requires forall i, j :: 0 <= i < j < |b| ==> b[i] != b[j]
    ensures Union(a, b) == a + b
  {
    if |b| > 0 {
      var front := b[..|b| - 1];
      UnionOfNew(a, front);
      assert b[|b| - 1] !in a + front;
      assert a + front + [b[|b| - 1]] == a + b;
    }
  }

  /** `DeviceStatusReport` answers only parameter 6, the cursor position request. */
  predicate ReportsPosition(params: seq<Option<int>>)
  {
    ParamOrDefault(params, 0, 0) == 6
  }

  /** `DeviceAttributes` answers only the plain (not private) query with parameter 0 or none. */
  predicate ReportsAttributes(params: seq<Option<int>>, privateMode: bool)
  {
    !privateMode && ParamOrDefault(params, 0, 0) == 0
  }

  /**
   * The two queries as they arrive: `CSI n n` with one digit is answered
   * exactly for 6; `CSI c` is answered and `CSI ? c` is not.
   */
  lemma QueriesAnswered(n: nat)
    requires n <= 9
    ensures ParsedParams([('0' as int + n) as char]) == Some([Some(n)]) && (ReportsPosition([Some(n)]) <==> n == 6)
    ensures ParsedParams("") == Some([None]) && ReportsAttributes([None], false) && !ReportsAttributes([None], true)
  {
    OneParamFromText(n);
    OneEmptyParam();
  }

  lemma OneParamFromText(n: nat)
    requires n <= 9
    ensures ParsedParams([('0' as int + n) as char]) == Some([Some(n)])
  {
    var d := [('0' as int + n) as char];
    assert Decimal(n) == d;
    DecimalRoundTrip(n);
    ParsedSingle(d);
  }

  /** What a mode set or reset changes. */
  datatype ModeEffect = Negative(on: bool) | CursorEnabled(on: bool) | NoEffect | Unimplemented

  /** `SetMode`: private modes 5 (reverse video), 7 (wraparound, always on) and 25 (cursor shown). */
  function SetModeEffect(params: seq<Option<int>>, privateMode: bool): ModeEffect
  {
    if !privateMode then Unimplemented
    else
      match ParamOrDefault(params, 0, 0)
      case 5 => Negative(true)
      case 7 => NoEffect
      case 25 => CursorEnabled(true)
      case _ => Unimplemented
  }

  /** `ResetMode`: private modes 4 (insert mode, never on), 5 and 25. */
  function ResetModeEffect(params: seq<Option<int>>, privateMode: bool): ModeEffect
  {
    if !privateMode then Unimplemented
    else
      match ParamOrDefault(params, 0, 0)
      case 4 => NoEffect
      case 5 => Negative(false)
      case 25 => CursorEnabled(false)
      case _ => Unimplemented
  }

  /**
   * Set and reset are opposite switches of the same setting for private
   * modes 5 and 25; without `?` neither does anything but log.
   */
  lemma ModesToggle(params: seq<Option<int>>, privateMode: bool)
    ensures !privateMode ==> SetModeEffect(params, false) == Unimplemented == ResetModeEffect(params, false)
    ensures privateMode && ParamOrDefault(params, 0, 0) in {5, 25} ==>
              var s := SetModeEffect(params, true);
              var r := ResetModeEffect(params, true);
              s.on && !r.on && (s.Negative? <==> r.Negative?) && (s.CursorEnabled? <==> r.CursorEnabled?)
    ensures SetModeEffect(params, privateMode).Unimplemented?
            <==> !privateMode || ParamOrDefault(params, 0, 0) !in {5, 7, 25}
    ensures ResetModeEffect(params, privateMode).Unimplemented?
            <==> !privateMode || ParamOrDefault(params, 0, 0) !in {4, 5, 25}
  {
  }
}
