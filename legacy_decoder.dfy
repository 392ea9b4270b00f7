/**
 * `Vt100Decoder` of the older `Terminal` namespace (Vt100Decoder.cs and
 * Vt100DecoderCommands.cs): it is fed one character at a time, collects
 * `ESC [` sequences and runs the ten commands of its table through the
 * terminal.
 *
 * The terminal this decoder was written against is not part of this
 * model. The decoder reads only its cursor position, so that position is
 * kept here as `cursor`, zero-based as the terminal holds it. Every call
 * the decoder makes into the terminal, or writes to the console, is
 * appended to `calls`, in order. The terminal's own cursor limits are
 * unseen, so the position is stored as it is set.
 */
module LegacyVt100Decoders {
  import opened Wrappers
  import opened LegacyPositions
  import Vt100Params
  import Vt100Parser

  /** One end of the range `EraseScreen` is asked to clear: a position, or the terminal cursor's `MaximalPosition`. */
  datatype Bound = At(position: IntegerPosition) | MaximalPosition

  /** A call into the terminal or a line written to the console. */
  datatype Call =
    | AppendTextRow
    | SetCursorPosition(position: IntegerPosition)
    | StayOnForNBlinks(n: int)
    | InsertCharacterAt(screenRow: int, x: int, what: char)
    | EraseScreen(from: Bound, to: Bound)
    | Redraw
    | ConsoleLine(text: string)

  /**
   * The exceptions the decoder throws: `NotImplementedException`,
   * `IndexOutOfRangeException` on a missing parameter, and the
   * `FormatException` or `OverflowException` of `int.Parse`.
   */
  datatype Fault = NotImplemented | IndexOutOfRange | UnparsableParameter

  datatype Command =
    | CursorUp | CursorDown | CursorRight | CursorLeft | CursorNextLine | CursorPreviousLine
    | CursorHorizontalAbsolute | CursorPosition | SelectGraphicRendition | EraseDisplay

  /** The command table of `InitializeCommands` (Vt100DecoderCommands.cs:94-108). */
  function CommandFor(c: char): Option<Command>
  {
    match c
    case 'A' => Some(CursorUp)
    case 'B' => Some(CursorDown)
    case 'C' => Some(CursorRight)
    case 'D' => Some(CursorLeft)
    case 'E' => Some(CursorNextLine)
    case 'F' => Some(CursorPreviousLine)
    case 'G' => Some(CursorHorizontalAbsolute)
    case 'H' => Some(CursorPosition)
    case 'f' => Some(CursorPosition)
    case 'J' => Some(EraseDisplay)
    case 'm' => Some(SelectGraphicRendition)
    case _ => None
  }

  /** Every key of the table is a letter, so the letter test comes first and the table decides which letters run. */
  lemma CommandsAreLetters(c: char)
    ensures CommandFor(c).Some? ==> Vt100Parser.IsLetter(c) && Vt100Parser.ConvertAsWritten(c).None?
  {
  }

  /** The decoder's fields and the terminal's zero-based cursor position. */
  datatype State = State(inAnsiCode: bool, csiCodeData: Option<string>, currentParams: seq<Option<int>>, cursor: IntegerPosition)

  /** The state after a step, the calls it made, and the exception it ended with, if any. */
  datatype Outcome = Outcome(state: State, calls: seq<Call>, fault: Option<Fault>)

  /** The decoder's `Cursor.Position`: one-based, the terminal's position shifted by one on each axis. */
  function VtPosition(s: State): IntegerPosition
  {
    s.cursor.ShiftedBy(1, 1)
  }

  /**
   * The `Cursor.Position` setter (Vt100Decoder.cs:154-162): the terminal's
   * position and one blink of visibility are set only when the position
   * changes.
   */
  function PositionSet(s: State, value: IntegerPosition): (State, seq<Call>)
  {
    var target := value.ShiftedBy(-1, -1);
    if target != s.cursor then (s.(cursor := target), [SetCursorPosition(target), StayOnForNBlinks(1)])
    else (s, [])
  }

  /**
   * Setting the position and reading it back gives the position set; the
   * terminal is called exactly when it moves; nothing but the cursor
   * changes.
   */
  lemma SetThenGet(s: State, value: IntegerPosition)
    ensures var (s', calls) := PositionSet(s, value);
            VtPosition(s') == value
            && (calls == [] <==> VtPosition(s) == value)
            && s'.(cursor := s.cursor) == s
  {
    ShiftedByComposes(value, -1, -1);
  }

  /** `currentParams[k] ?? defaultValue`; `None` where `k` is past the end and the access throws. */
  function ParamAt(params: seq<Option<int>>, k: nat, defaultValue: int): Option<int>
  {
    if k >= |params| then None
    else if params[k].Some? then Some(params[k].value)
    else Some(defaultValue)
  }

  /** The commands that only move the cursor. */
  predicate Moves(cmd: Command)
  {
    cmd != SelectGraphicRendition && cmd != EraseDisplay
  }

  /**
   * Where a cursor command puts the one-based position `p`
   * (Vt100DecoderCommands.cs:15-62); a missing parameter defaults to 1,
   * and `None` is the `IndexOutOfRangeException` of reading a parameter
   * past the end. `CursorPosition` reads two parameters.
   */
  function Target(cmd: Command, params: seq<Option<int>>, p: IntegerPosition): Option<IntegerPosition>
    requires Moves(cmd)
  {
    var delta := ParamAt(params, 0, 1);
    if delta.None? then None
    else
      var d := delta.value;
      match cmd
      case CursorUp => Some(p.ShiftedByY(-d))
      case CursorDown => Some(p.ShiftedByY(d))
      case CursorLeft => Some(p.ShiftedByX(-d))
      case CursorRight => Some(p.ShiftedByX(d))
      case CursorNextLine => Some(p.ShiftedByY(d).WithX(1))
      case CursorPreviousLine => Some(p.ShiftedByY(-d).WithX(1))
      case CursorHorizontalAbsolute => Some(p.WithX(d))
      case CursorPosition =>
        var column := ParamAt(params, 1, 1);
        if column.None? then None else Some(p.WithY(d).WithX(column.value))
  }

  /**
   * The range `EraseDisplay` clears for a mode (Vt100DecoderCommands.cs:69-92),
   * from the terminal's zero-based `current` position: 0 from the cursor to
   * the end, 1 from the start to the cursor, 2 everything; any other mode
   * throws.
   */
  function EraseRange(mode: int, current: IntegerPosition): Option<(Bound, Bound)>
  {
    if mode == 0 then Some((At(current), MaximalPosition))
    else if mode == 1 then Some((At(Origin), At(current)))
    else if mode == 2 then Some((At(Origin), MaximalPosition))
    else None
  }

  /**
   * A command run with the parameters already in `s.currentParams`
   * (the handlers of Vt100DecoderCommands.cs). Commands change nothing but
   * the cursor, and only the cursor commands change it.
   */
  function CommandStep(cmd: Command, s: State): (r: Outcome)
    ensures r.state.(cursor := s.cursor) == s
    ensures !Moves(cmd) ==> r.state == s
  {
    if cmd == SelectGraphicRendition then Outcome(s, [ConsoleLine("SGR")], None)
    else if cmd == EraseDisplay then
      var mode := ParamAt(s.currentParams, 0, 0);
      if mode.None? then Outcome(s, [], Some(IndexOutOfRange))
      else
        match EraseRange(mode.value, s.cursor)
        case None => Outcome(s, [], Some(NotImplemented))
        case Some(range) => Outcome(s, [EraseScreen(range.0, range.1)], None)
    else
      match Target(cmd, s.currentParams, VtPosition(s))
      case None => Outcome(s, [], Some(IndexOutOfRange))
      case Some(t) =>
        var (s', calls) := PositionSet(s, t);
        Outcome(s', calls, None)
  }

  /**
   * `HandleAnsiCode` (Vt100Decoder.cs:90-125): after `ESC` only `[` is
   * accepted; within the sequence `ESC` throws, a letter ends it (its
   * command runs with the parsed parameters, and the decoder leaves the
   * sequence), and anything else is collected. A throw leaves the decoder
   * inside the sequence.
   */
  function AnsiStep(s: State, c: char): Outcome
  {
    if s.csiCodeData.None? then
      if Vt100Parser.ConvertAsWritten(c) != Some(Vt100Parser.ControlSequenceIntroducer) then Outcome(s, [], Some(NotImplemented))
      else Outcome(s.(csiCodeData := Some("")), [], None)
    else if Vt100Parser.ConvertAsWritten(c) == Some(Vt100Parser.Escape) then Outcome(s, [], Some(NotImplemented))
    else if Vt100Parser.IsLetter(c) then
      match CommandFor(c)
      case None => Outcome(s, [], Some(NotImplemented))
      case Some(cmd) =>
        match Vt100Params.ParsedParams(s.csiCodeData.value)
        case None => Outcome(s, [], Some(UnparsableParameter))
        case Some(params) =>
          var o := CommandStep(cmd, s.(currentParams := params));
          if o.fault.Some? then o
          else Outcome(o.state.(inAnsiCode := false, csiCodeData := None), o.calls, None)
    else Outcome(s.(csiCodeData := Some(s.csiCodeData.value + [c])), [], None)
  }

  /**
   * `HandleRegularCharacter` (Vt100Decoder.cs:72-88): the character goes
   * into the screen row under the cursor, the cursor moves one to the
   * right, and the terminal cursor stays on for a blink and is redrawn.
   */
  function Printed(s: State, c: char): Outcome
  {
    var p := VtPosition(s);
    var (s', moved) := PositionSet(s, p.ShiftedByX(1));
    Outcome(s', [InsertCharacterAt(p.Y - 1, p.X - 1, c)] + moved + [StayOnForNBlinks(1), Redraw], None)
  }

  /**
   * `Feed(char)` (Vt100Decoder.cs:24-62): inside a sequence the character
   * goes to `HandleAnsiCode`; otherwise it is compared, by its low byte,
   * with backspace, escape, line feed, carriage return and bell; another
   * control character throws, and anything else is printed. The terminal
   * is redrawn unless something threw.
   */
  function Step(s: State, c: char): Outcome
  {
    var b := Vt100Parser.ConvertAsWritten(c);
    var o :=
      if s.inAnsiCode then AnsiStep(s, c)
      else if b == Some(Vt100Parser.Backspace) then
        var (s', calls) := PositionSet(s, VtPosition(s).ShiftedByX(-1));
        Outcome(s', calls, None)
      else if b == Some(Vt100Parser.Escape) then Outcome(s.(inAnsiCode := true), [], None)
      else if b == Some(Vt100Parser.LineFeed) then
        var (s', calls) := PositionSet(s, VtPosition(s).WithX(1).ShiftedByY(1));
        Outcome(s', [AppendTextRow] + calls, None)
      else if b == Some(Vt100Parser.CarriageReturn) then
        var (s', calls) := PositionSet(s, VtPosition(s).WithX(1));
        Outcome(s', calls, None)
      else if b == Some(Vt100Parser.Bell) then Outcome(s, [ConsoleLine("Bell")], None)
      else if Vt100Parser.IsControl(c) then Outcome(s, [], Some(NotImplemented))
      else Printed(s, c);
    if o.fault.Some? then o else o.(calls := o.calls + [Redraw])
  }

  /** `Feed(string)`: the characters fed in order, up to the first that throws. */
  function Run(s: State, text: string): Outcome
    decreases |text|
  {
    if |text| == 0 then Outcome(s, [], None)
    else
      var o := Step(s, text[0]);
      if o.fault.Some? then o
      else
        var rest := Run(o.state, text[1..]);
        Outcome(rest.state, o.calls + rest.calls, rest.fault)
  }

  /** Feeding two texts one after the other is feeding them joined, when the first does not throw. */
  lemma {:induction false} RunAppend(s: State, a: string, b: string)
    requires Run(s, a).fault.None?
    ensures var first := Run(s, a);
            var second := Run(first.state, b);
            Run(s, a + b) == Outcome(second.state, first.calls + second.calls, second.fault)
    decreases |a|
  {
    if |a| > 0 {
      assert (a + b)[0] == a[0] && (a + b)[1..] == a[1..] + b;
      var o := Step(s, a[0]);
      RunAppend(o.state, a[1..], b);
      var rest := Run(o.state, a[1..]);
      Associative(o.calls, rest.calls, Run(rest.state, b).calls);
    } else {
      assert a + b == b;
    }
  }

  lemma Associative(a: seq<Call>, b: seq<Call>, c: seq<Call>)
    ensures a + b + c == a + (b + c)
  {
  }

  /** Feeding one character is one step. */
  lemma RunOne(s: State, c: char)
    ensures Run(s, [c]) == Step(s, c)
  {
    assert [c][1..] == [];
    var o := Step(s, c);
    assert o.calls + [] == o.calls;
  }

  /** Feeding one more character after a text that did not throw is one more step. */
  lemma RunSnoc(s: State, a: string, c: char)
    requires Run(s, a).fault.None?
    ensures var first := Run(s, a);
            var o := Step(first.state, c);
            Run(s, a + [c]) == Outcome(o.state, first.calls + o.calls, o.fault)
  {
    RunAppend(s, a, [c]);
    RunOne(Run(s, a).state, c);
  }

  /** Once a character throws, nothing after it is fed. */
  lemma {:induction false} RunStopsAtFault(s: State, a: string, b: string)
    requires Run(s, a).fault.Some?
    ensures Run(s, a + b) == Run(s, a)
    decreases |a|
  {
    assert |a| > 0;
    assert (a + b)[0] == a[0] && (a + b)[1..] == a[1..] + b;
    var o := Step(s, a[0]);
    if o.fault.None? {
      RunStopsAtFault(o.state, a[1..], b);
    }
  }

  /** A character collected inside a sequence: not a letter and not, by its low byte, escape. */
  predicate Collectable(c: char)
  {
    !Vt100Parser.IsLetter(c) && Vt100Parser.ConvertAsWritten(c) != Some(Vt100Parser.Escape)
  }

  /** Inside `ESC [`, collectable characters are appended to the sequence's data, with one redraw each. */
  lemma {:induction false} CollectsData(s: State, data: string)
    requires s.inAnsiCode && s.csiCodeData.Some?
    requires forall i :: 0 <= i < |data| ==> Collectable(data[i])
    ensures Run(s, data) == Outcome(s.(csiCodeData := Some(s.csiCodeData.value + data)), seq(|data|, _ => Redraw), None)
    decreases |data|
  {
    if |data| > 0 {
      var s1 := s.(csiCodeData := Some(s.csiCodeData.value + [data[0]]));
      assert Step(s, data[0]) == Outcome(s1, [Redraw], None);
      CollectsData(s1, data[1..]);
      assert s1.csiCodeData.value + data[1..] == s.csiCodeData.value + data;
      assert [Redraw] + seq(|data| - 1, _ => Redraw) == seq(|data|, _ => Redraw);
    } else {
      assert s.csiCodeData.value + data == s.csiCodeData.value;
    }
  }

  /** The decoder outside any sequence. */
  predicate Idle(s: State)
  {
    !s.inAnsiCode && s.csiCodeData.None?
  }

  /** A command reads only the cursor and the parameters: the parser fields it is run with make no difference. */
  lemma CommandIgnoresParser(cmd: Command, s: State, t: State)
    requires s.cursor == t.cursor && s.currentParams == t.currentParams
    ensures CommandStep(cmd, s).calls == CommandStep(cmd, t).calls
    ensures CommandStep(cmd, s).fault == CommandStep(cmd, t).fault
    ensures CommandStep(cmd, s).state.cursor == CommandStep(cmd, t).state.cursor
  {
  }

  /**
   * Inside `ESC [`, a command letter whose data parses runs its command
   * and, unless that throws, leaves the sequence.
   */
  lemma LetterEndsSequence(s: State, c: char)
    requires s.inAnsiCode && s.csiCodeData.Some?
    requires CommandFor(c).Some? && Vt100Params.ParsedParams(s.csiCodeData.value).Some?
    ensures var o := CommandStep(CommandFor(c).value, s.(currentParams := Vt100Params.ParsedParams(s.csiCodeData.value).value));
            var r := Step(s, c);
            r.fault == o.fault
            && r.state == (if o.fault.None? then o.state.(inAnsiCode := false, csiCodeData := None) else o.state)
  {
    CommandsAreLetters(c);
    var o := AnsiStep(s, c);
    assert Step(s, c).state == o.state && Step(s, c).fault == o.fault;
  }

  /** `ESC [` outside any sequence opens one with empty data, redrawing twice. */
  lemma OpenSequence(s: State)
    requires Idle(s)
    ensures Run(s, "\U{1B}[") == Outcome(s.(inAnsiCode := true, csiCodeData := Some("")), [Redraw, Redraw], None)
  {
    EscapeEntersSequence(s);
    BracketOpensData(s.(inAnsiCode := true));
    RunTwo(s, '\U{1B}', '[');
  }

  /** `ESC` outside any sequence enters one. */
  lemma EscapeEntersSequence(s: State)
    requires !s.inAnsiCode
    ensures Step(s, '\U{1B}') == Outcome(s.(inAnsiCode := true), [Redraw], None)
  {
    assert Vt100Parser.ConvertAsWritten('\U{1B}') == Some(Vt100Parser.Escape);
  }

  /** `[` right after `ESC` opens the sequence's data. */
  lemma BracketOpensData(s: State)
    requires s.inAnsiCode && s.csiCodeData.None?
    ensures Step(s, '[') == Outcome(s.(csiCodeData := Some("")), [Redraw], None)
  {
    assert Vt100Parser.ConvertAsWritten('[') == Some(Vt100Parser.ControlSequenceIntroducer);
  }

  /** Feeding two characters, the first of which does not throw. */
  lemma RunTwo(s: State, a: char, b: char)
    requires Step(s, a).fault.None?
    ensures var o1 := Step(s, a);
            var o2 := Step(o1.state, b);
            Run(s, [a, b]) == Outcome(o2.state, o1.calls + o2.calls, o2.fault)
  {
    RunOne(s, a);
    RunSnoc(s, [a], b);
    assert [a] + [b] == [a, b];
  }

  /**
   * A whole sequence `ESC [ data c`, fed outside any sequence with `c` a
   * command letter and the data parsed, runs that command on those
   * parameters; when the command does not throw the decoder is outside any
   * sequence again.
   */
  lemma SequenceRunsCommand(s: State, data: string, c: char)
    requires Idle(s)
    requires forall i :: 0 <= i < |data| ==> Collectable(data[i])
    requires CommandFor(c).Some? && Vt100Params.ParsedParams(data).Some?
    ensures var o := CommandStep(CommandFor(c).value, s.(currentParams := Vt100Params.ParsedParams(data).value));
            var r := Run(s, "\U{1B}[" + data + [c]);
            r.state == (if o.fault.None? then o.state else o.state.(inAnsiCode := true, csiCodeData := Some(data)))
            && r.fault == o.fault
  {
    var s2 := s.(inAnsiCode := true, csiCodeData := Some(""));
    OpenSequence(s);
    CollectsData(s2, data);
    assert "" + data == data;
    RunAppend(s, "\U{1B}[", data);
    var s3 := s2.(csiCodeData := Some(data));
    LetterEndsSequence(s3, c);
    var params := Vt100Params.ParsedParams(data).value;
    CommandIgnoresParser(CommandFor(c).value, s.(currentParams := params), s3.(currentParams := params));
    RunSnoc(s, "\U{1B}[" + data, c);
  }

  /**
   * As written, `ESC [ H` and any `H` or `f` with at most one parameter throw
   * `IndexOutOfRangeException`: `CursorPosition` reads a second parameter
   * the split data does not have.
   */
  lemma CursorPositionNeedsTwoParameters(s: State, data: string, c: char)
    requires Idle(s) && ';' !in data && CommandFor(c) == Some(CursorPosition)
    requires forall i :: 0 <= i < |data| ==> Collectable(data[i])
    requires Vt100Params.ParsedParams(data).Some?
    ensures Run(s, "\U{1B}[" + data + [c]).fault == Some(IndexOutOfRange)
  {
    Vt100Params.ParsedSingle(data);
    var params := Vt100Params.ParsedParams(data).value;
    assert |params| == 1;
    var o := CommandStep(CursorPosition, s.(currentParams := params));
    assert o.fault == Some(IndexOutOfRange);
    SequenceRunsCommand(s, data, c);
  }

  /** The cursor-home sequence `ESC [ H` throws. */
  lemma HomeThrows(s: State)
    requires Idle(s)
    ensures Run(s, "\U{1B}[H").fault == Some(IndexOutOfRange)
  {
    Vt100Params.ParsedSingle("");
    CursorPositionNeedsTwoParameters(s, "", 'H');
    assert "\U{1B}[" + "" + ['H'] == "\U{1B}[H";
  }

  /**
   * After `ESC` anything but `[` throws and leaves the decoder as it was,
   * so every later character but `[` throws again.
   */
  lemma EscapeWithoutBracketSticks(s: State, c: char)
    requires s.inAnsiCode && s.csiCodeData.None?
    requires Vt100Parser.ConvertAsWritten(c) != Some(Vt100Parser.ControlSequenceIntroducer)
    ensures Step(s, c) == Outcome(s, [], Some(NotImplemented))
  {
  }

  /**
   * A printable character fed outside a sequence lands in the terminal
   * row under the cursor, at the cursor's column, and the cursor moves
   * one column to the right.
   */
  lemma PrintAdvances(s: State, c: char)
    requires !s.inAnsiCode && Vt100Parser.ConvertAsWritten(c).None? && !Vt100Parser.IsControl(c)
    ensures var o := Step(s, c);
            o.fault.None? && o.state == s.(cursor := s.cursor.ShiftedByX(1))
            && o.calls == [InsertCharacterAt(s.cursor.Y, s.cursor.X, c), SetCursorPosition(o.state.cursor),
                           StayOnForNBlinks(1), StayOnForNBlinks(1), Redraw, Redraw]
  {
  }

  /** Moving down by `n` undoes moving up by `n`, and moving left by `n` undoes moving right by `n`. */
  lemma MovesUndo(p: IntegerPosition, n: int)
    ensures Target(CursorDown, [Some(n)], Target(CursorUp, [Some(n)], p).value) == Some(p)
    ensures Target(CursorLeft, [Some(n)], Target(CursorRight, [Some(n)], p).value) == Some(p)
  {
  }

  /**
   * A line feed appends a row and puts the cursor at the first column of
   * the next line, whatever column it was in.
   */
  lemma LineFeedStartsNextLine(s: State)
    requires !s.inAnsiCode
    ensures var o := Step(s, '\n');
            o.fault.None? && o.calls[0] == AppendTextRow
            && o.state.cursor == IntegerPosition(0, s.cursor.Y + 1)
  {
  }

  /**
   * A backspace outside a sequence moves the cursor one column to the
   * left, with no lower bound, and the terminal is told of the move.
   */
  lemma BackspaceMovesLeft(s: State, c: char)
    requires !s.inAnsiCode && Vt100Parser.ConvertAsWritten(c) == Some(Vt100Parser.Backspace)
    ensures var o := Step(s, c);
            var left := IntegerPosition(s.cursor.X - 1, s.cursor.Y);
            o == Outcome(s.(cursor := left), [SetCursorPosition(left), StayOnForNBlinks(1), Redraw], None)
  {
  }

  /**
   * A carriage return outside a sequence puts the cursor in the first
   * column of its line; the terminal hears of it only when the cursor
   * was elsewhere.
   */
  lemma CarriageReturnGoesToFirstColumn(s: State, c: char)
    requires !s.inAnsiCode && Vt100Parser.ConvertAsWritten(c) == Some(Vt100Parser.CarriageReturn)
    ensures var o := Step(s, c);
            var home := IntegerPosition(0, s.cursor.Y);
            o.fault.None? && o.state == s.(cursor := home)
            && o.calls == (if s.cursor.X == 0 then [] else [SetCursorPosition(home), StayOnForNBlinks(1)]) + [Redraw]
  {
  }

  /**
   * Outside a sequence, a control character that is none of backspace,
   * escape, line feed, carriage return and bell throws, and changes
   * nothing; the five it knows never throw.
   */
  lemma UnhandledControlThrows(s: State, c: char)
    requires !s.inAnsiCode && Vt100Parser.IsControl(c)
    ensures var b := Vt100Parser.ConvertAsWritten(c);
            var known := b in {Some(Vt100Parser.Backspace), Some(Vt100Parser.Escape), Some(Vt100Parser.LineFeed),
                                Some(Vt100Parser.CarriageReturn), Some(Vt100Parser.Bell)};
            (Step(s, c).fault.Some? <==> !known)
            && (!known ==> Step(s, c) == Outcome(s, [], Some(NotImplemented)))
  {
  }

  /** Inside a sequence, `ESC` throws and leaves the decoder as it was. */
  lemma EscapeInSequenceThrows(s: State, c: char)
    requires s.inAnsiCode && s.csiCodeData.Some? && Vt100Parser.ConvertAsWritten(c) == Some(Vt100Parser.Escape)
    ensures Step(s, c) == Outcome(s, [], Some(NotImplemented))
  {
  }

  /**
   * Inside a sequence, a letter with no command throws and leaves the
   * decoder as it was, so the sequence stays open.
   */
  lemma UnknownLetterThrows(s: State, c: char)
    requires s.inAnsiCode && s.csiCodeData.Some? && Vt100Parser.IsLetter(c) && CommandFor(c).None?
    requires Vt100Parser.ConvertAsWritten(c) != Some(Vt100Parser.Escape)
    ensures Step(s, c) == Outcome(s, [], Some(NotImplemented))
  {
  }

  class Vt100Decoder {
    var inAnsiCode: bool
    var csiCodeData: Option<string>
    var currentParams: seq<Option<int>>
    /** The terminal's zero-based cursor position. */
    var cursor: IntegerPosition
    /** Every call made into the terminal or written to the console, in order. */
    var calls: seq<Call>

    function StateOf(): State
      reads this
    {
      State(inAnsiCode, csiCodeData, currentParams, cursor)
    }

    /** The decoder starts outside any sequence and appends an empty text row (Vt100Decoder.cs:15-22). */
    constructor (terminalCursor: IntegerPosition)
      ensures StateOf() == State(false, None, [], terminalCursor) && calls == [AppendTextRow]
    {
      inAnsiCode := false;
      csiCodeData := None;
      currentParams := [];
      cursor := terminalCursor;
      calls := [AppendTextRow];
    }

    /** The `Cursor.Position` getter (Vt100Decoder.cs:148-153). */
    function Position(): (p: IntegerPosition)
      reads this
      ensures p == VtPosition(StateOf())
    {
      cursor.ShiftedBy(1, 1)
    }

    /** The `Cursor.Position` setter (Vt100Decoder.cs:154-162). */
    method SetPosition(value: IntegerPosition)
      modifies this
      ensures var (s, made) := PositionSet(old(StateOf()), value);
              StateOf() == s && calls == old(calls) + made
    {
      var valueToSet := value.ShiftedBy(-1, -1);
      if valueToSet != cursor {
        cursor := valueToSet;
        calls := calls + [SetCursorPosition(valueToSet), StayOnForNBlinks(1)];
      }
    }

    /** `Feed(char)` (Vt100Decoder.cs:24-62). */
    method Feed(c: char) returns (fault: Option<Fault>)
      modifies this
      ensures var o := Step(old(StateOf()), c);
              StateOf() == o.state && calls == old(calls) + o.calls && fault == o.fault
    {
      var b := Vt100Parser.ConvertAsWritten(c);
      fault := None;
      if inAnsiCode {
        fault := HandleAnsiCode(c);
        if fault.Some? {
          return;
        }
      } else if b == Some(Vt100Parser.Backspace) {
        SetPosition(Position().ShiftedByX(-1));
      } else if b == Some(Vt100Parser.Escape) {
        inAnsiCode := true;
      } else if b == Some(Vt100Parser.LineFeed) {
        calls := calls + [AppendTextRow];
        var newPosition := Position().WithX(1);
        newPosition := newPosition.ShiftedByY(1);
        SetPosition(newPosition);
      } else if b == Some(Vt100Parser.CarriageReturn) {
        SetPosition(Position().WithX(1));
      } else if b == Some(Vt100Parser.Bell) {
        calls := calls + [ConsoleLine("Bell")];
      } else {
        if Vt100Parser.IsControl(c) {
          return Some(NotImplemented);
        }
        HandleRegularCharacter(c);
      }
      calls := calls + [Redraw];
    }

    /** `Feed(string)` (Vt100Decoder.cs:64-70): each character in turn, until one throws. */
    method FeedText(text: string) returns (fault: Option<Fault>)
      modifies this
      ensures var o := Run(old(StateOf()), text);
              StateOf() == o.state && calls == old(calls) + o.calls && fault == o.fault
    {
      ghost var start := StateOf();
      ghost var startCalls := calls;
      var i := 0;
      fault := None;
      while i < |text|
        invariant 0 <= i <= |text|
        invariant Run(start, text[..i]).fault.None? && fault.None?
        invariant StateOf() == Run(start, text[..i]).state && calls == startCalls + Run(start, text[..i]).calls
      {
        fault := FeedNext(start, startCalls, text[..i], text[i]);
        PrefixSnoc(text, i);
        if fault.Some? {
          RunStopsAtPrefix(start, text, i + 1);
          return;
        }
        i := i + 1;
      }
      assert text[..i] == text;
    }

    /** The first i characters and then character i are the first i + 1. */
    lemma PrefixSnoc(text: string, i: int)
      requires 0 <= i < |text|
      ensures text[..i] + [text[i]] == text[..i + 1]
    {
    }

    /** A prefix of `text` that throws is all of `text` that is fed. */
    lemma RunStopsAtPrefix(start: State, text: string, n: int)
      requires 0 <= n <= |text| && Run(start, text[..n]).fault.Some?
      ensures Run(start, text) == Run(start, text[..n])
    {
      RunStopsAtFault(start, text[..n], text[n..]);
      assert text[..n] + text[n..] == text;
    }

    /** One more character of a text whose characters so far have been fed from `start` without a throw. */
    method FeedNext(ghost start: State, ghost startCalls: seq<Call>, ghost done: string, c: char) returns (fault: Option<Fault>)
      requires Run(start, done).fault.None?
      requires StateOf() == Run(start, done).state && calls == startCalls + Run(start, done).calls
      modifies this
      ensures var o := Run(start, done + [c]);
              StateOf() == o.state && calls == startCalls + o.calls && fault == o.fault
    {
      ghost var first := Run(start, done).calls;
      ghost var step := Step(StateOf(), c).calls;
      RunSnoc(start, done, c);
      fault := Feed(c);
      Associative(startCalls, first, step);
    }

    /** `HandleRegularCharacter` (Vt100Decoder.cs:72-88). */
    method HandleRegularCharacter(c: char)
      modifies this
      ensures var o := Printed(old(StateOf()), c);
              StateOf() == o.state && calls == old(calls) + o.calls
    {
      var where := Position();
      calls := calls + [InsertCharacterAt(where.Y - 1, where.X - 1, c)];
      SetPosition(Position().ShiftedByX(1));
      calls := calls + [StayOnForNBlinks(1), Redraw];
    }

    /** `HandleAnsiCode` (Vt100Decoder.cs:90-125). */
    method HandleAnsiCode(c: char) returns (fault: Option<Fault>)
      modifies this
      ensures var o := AnsiStep(old(StateOf()), c);
              StateOf() == o.state && calls == old(calls) + o.calls && fault == o.fault
    {
      var b := Vt100Parser.ConvertAsWritten(c);
      if csiCodeData.None? {
        if b != Some(Vt100Parser.ControlSequenceIntroducer) {
          return Some(NotImplemented);
        }
        csiCodeData := Some("");
        return None;
      }
      if b == Some(Vt100Parser.Escape) {
        return Some(NotImplemented);
      }
      if Vt100Parser.IsLetter(c) {
        var command := CommandFor(c);
        if command.Some? {
          var parsed := Vt100Params.ParseParameters(csiCodeData.value);
          if parsed.None? {
            return Some(UnparsableParameter);
          }
          currentParams := parsed.value;
          fault := RunCommand(command.value);
          if fault.Some? {
            return;
          }
          inAnsiCode := false;
          csiCodeData := None;
        } else {
          return Some(NotImplemented);
        }
      } else {
        csiCodeData := Some(csiCodeData.value + [c]);
        fault := None;
      }
    }

    /** `commands[c]()`: the handler the table names. */
    method RunCommand(command: Command) returns (fault: Option<Fault>)
      modifies this
      ensures var o := CommandStep(command, old(StateOf()));
              StateOf() == o.state && calls == old(calls) + o.calls && fault == o.fault
    {
      if command == SelectGraphicRendition {
        calls := calls + [ConsoleLine("SGR")];
        fault := None;
      } else if command == Command.EraseDisplay {
        fault := EraseDisplay();
      } else {
        fault := MoveCursor(command);
      }
    }

    /** The cursor handlers (Vt100DecoderCommands.cs:15-62). */
    method MoveCursor(command: Command) returns (fault: Option<Fault>)
      requires Moves(command)
      modifies this
      ensures var o := CommandStep(command, old(StateOf()));
              StateOf() == o.state && calls == old(calls) + o.calls && fault == o.fault
    {
      var target := Target(command, currentParams, Position());
      if target.None? {
        return Some(IndexOutOfRange);
      }
      SetPosition(target.value);
      fault := None;
    }

    /** `EraseDisplay` (Vt100DecoderCommands.cs:69-92). */
    method EraseDisplay() returns (fault: Option<Fault>)
      modifies this
      ensures var o := CommandStep(Command.EraseDisplay, old(StateOf()));
              StateOf() == o.state && calls == old(calls) + o.calls && fault == o.fault
    {
      if |currentParams| == 0 {
        return Some(IndexOutOfRange);
      }
      var mode := if currentParams[0].Some? then currentParams[0].value else 0;
      var currentPosition := cursor;
      var clearBegin, clearEnd;
      if mode == 0 {
        clearBegin, clearEnd := At(currentPosition), MaximalPosition;
      } else if mode == 1 {
        clearBegin, clearEnd := At(Origin), At(currentPosition);
      } else if mode == 2 {
        clearBegin, clearEnd := At(Origin), MaximalPosition;
      } else {
        return Some(NotImplemented);
      }
      calls := calls + [EraseScreen(clearBegin, clearEnd)];
      fault := None;
    }
  }
}
