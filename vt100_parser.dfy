/**
 * The escape-sequence state machine of the VT100 decoder
 * (Vt100/Decoder.cs:30-106, 145-246): the four parser fields
 * `ignoreNextChar`, `inAnsiCode`, `privateModeCode` and `csiCodeData`, and
 * what one fed text element does to them and asks the decoder to do.
 *
 * The source classifies a character by converting it to the byte-sized
 * `ControlByte` enumeration and by `char.IsLetter`; both are written out
 * here, once as written and once as evidently intended (the decoder uses
 * the latter).
 */
module Vt100Parser {
  import opened Wrappers
  import opened DecoderLogs
  import opened Vt100Params
  import opened Vt100Commands

  /** `ControlByte` (Vt100/ControlByte.cs), an enumeration over `byte`. */
  datatype ControlByte =
    | Bell | Backspace | LineFeed | HorizontalTab | CarriageReturn | LockShiftG1 | LockShiftG0
    | Escape | ControlSequenceIntroducer | Delete

  function ValueOf(b: ControlByte): (v: int)
    ensures 0 <= v < 0x100
  {
    match b
    case Bell => 0x07
    case Backspace => 0x08
    case LineFeed => 0x0A
    case HorizontalTab => 0x09
    case CarriageReturn => 0x0D
    case LockShiftG1 => 0x0E
    case LockShiftG0 => 0x0F
    case Escape => 0x1B
    case ControlSequenceIntroducer => '[' as int
    case Delete => 0x7F
  }

  /** The member of the enumeration with value `v`, if there is one. */
  function ControlByteOf(v: int): (r: Option<ControlByte>)
    ensures r.Some? ==> ValueOf(r.value) == v
  {
    match v
    case 0x07 => Some(Bell)
    case 0x08 => Some(Backspace)
    case 0x0A => Some(LineFeed)
    case 0x09 => Some(HorizontalTab)
    case 0x0D => Some(CarriageReturn)
    case 0x0E => Some(LockShiftG1)
    case 0x0F => Some(LockShiftG0)
    case 0x1B => Some(Escape)
    case 0x5B => Some(ControlSequenceIntroducer)
    case 0x7F => Some(Delete)
    case _ => None
  }

  /**
   * `(ControlByte)c`: the cast keeps the low byte of the character, so
   * `'č'` compares equal to `CarriageReturn`.
   */
  function ConvertAsWritten(c: char): Option<ControlByte>
  {
    ControlByteOf(c as int % 0x100)
  }

  /** The comparison as intended: a character is a control byte only when it has that byte's value. */
  function Convert(c: char): Option<ControlByte>
  {
    ControlByteOf(c as int)
  }

  /** The decoder compares with the intended conversion, the source with the truncating one. */
  function ConvertWith(c: char, asWritten: bool): Option<ControlByte>
  {
    if asWritten then ConvertAsWritten(c) else Convert(c)
  }

  /** A character matches a control byte exactly when its code is that byte's value. */
  lemma ConvertExact(c: char, b: ControlByte)
    ensures Convert(c) == Some(b) <==> c as int == ValueOf(b)
  {
  }

  /** The two conversions differ only above U+00FF. */
  lemma ConversionsAgreeOnLatin1(c: char)
    requires c as int < 0x100
    ensures ConvertAsWritten(c) == Convert(c)
  {
  }

  /** `'č'` (č) and `'ě'` (ě) pass for carriage return and escape as written, and for nothing once corrected. */
  lemma LowByteConversion()
    ensures ConvertAsWritten('č') == Some(CarriageReturn) && Convert('č') == None
    ensures ConvertAsWritten('ě') == Some(Escape) && Convert('ě') == None
  {
  }

  /** `char.IsControl`: the C0 controls, DEL and the C1 controls. */
  predicate IsControl(c: char)
  {
    c as int < 0x20 || 0x7F <= c as int <= 0x9F
  }

  /**
   * `char.IsLetter`, exact up to U+00FF (ASCII and Latin-1 letters); every
   * character above U+00FF is taken to be a letter.
   */
  predicate IsLetter(c: char)
  {
    ('A' <= c <= 'Z') || ('a' <= c <= 'z') || c == 'ª' || c == 'µ' || c == 'º'
    || ('À' <= c <= 'ÿ' && c != '×' && c != '÷') || c as int > 0xFF
  }

  /** As written, only a letter ends a CSI sequence. */
  predicate EndsSequenceAsWritten(c: char)
  {
    IsLetter(c)
  }

  /** As intended, a letter or any character with a registered command ends a CSI sequence. */
  predicate EndsSequence(c: char)
  {
    IsLetter(c) || HandlerOf(c).Some?
  }

  predicate EndsSequenceWith(c: char, asWritten: bool)
  {
    if asWritten then EndsSequenceAsWritten(c) else EndsSequence(c)
  }

  /** With the intended test every registered command can be reached; as written `` ` `` cannot. */
  lemma EveryCommandEnds(c: char)
    ensures HandlerOf(c).Some? ==> EndsSequence(c)
    ensures HandlerOf('`').Some? && !EndsSequenceAsWritten('`')
  {
  }

  /** The characters after ESC that `HandleNonCsiCode` knows. */
  datatype NonCsiCode = TerminalReset | CharacterSet | SaveCursor | RestoreCursor | UnknownNonCsi(c: char)

  function NonCsiOf(c: char): (k: NonCsiCode)
    ensures k.UnknownNonCsi? <==> c !in "c()*+78"
  {
    match c
    case 'c' => TerminalReset
    case '(' => CharacterSet
    case ')' => CharacterSet
    case '*' => CharacterSet
    case '+' => CharacterSet
    case '7' => SaveCursor
    case '8' => RestoreCursor
    case _ => UnknownNonCsi(c)
  }

  datatype ParserState = ParserState(ignoreNextChar: bool, inAnsiCode: bool, privateModeCode: bool, csiCodeData: Option<string>)

  /** A fresh decoder, and one between sequences. */
  const Idle := ParserState(false, false, false, None)

  /** What a fed element asks the decoder to do, besides changing the parser fields. */
  datatype Action =
      /** Dropped: it followed a character set designation. */
    | Swallowed
      /** `HandleRegularCharacter` with the element. */
    | Print(element: string)
      /** Backspace: `CursorLeft` with the parameters `{ 1 }`. */
    | BackspaceLeft
    | EscapeStarted
      /** Line feed: the VT100 cursor one row down, adding a row at the bottom. */
    | LineFeedDown
      /** Carriage return: the terminal cursor to column 0. */
    | ReturnToColumnOne
    | BellRung
      /** Horizontal tab: a space is printed. */
    | TabSpace
      /** Locking shift G0/G1: character sets are not supported. */
    | ShiftIgnored
      /** Another C0 control: `^` and the character 64 above it are fed. */
    | CaretNotation(c: char)
      /** NUL and DEL. */
    | NothingDone
      /** A C1 control. */
    | UnknownControl(code: int)
    | NonCsi(nonCsi: NonCsiCode)
    | CsiStarted
    | Collected
    | EscapeInCsi
      /** A registered command with its parameters and whether `?` was seen. */
    | Dispatch(handler: Handler, params: seq<Option<int>>, privateMode: bool)
    | BrokenData(command: char, data: string)
    | UnknownCommand(command: char, data: string)

  /** The log entries an action writes by itself (commands write their own). */
  function LogsOf(a: Action): (logs: seq<LogEntry>)
    ensures |logs| <= 1
  {
    match a
    case UnknownControl(code) => [UnimplementedControl(code)]
    case NonCsi(UnknownNonCsi(c)) => [UnimplementedNonCsiCode(c)]
    case EscapeInCsi => [EscapeWithinAnsiCode]
    case BrokenData(c, data) => [BrokenAnsiCodeData(c, data)]
    case UnknownCommand(c, data) => [UnimplementedAnsiCode(c, data)]
    case _ => []
  }

  datatype Step = Step(state: ParserState, action: Action)

  /** `Feed`: the element's effect on the parser fields and the action it asks for. */
  function NextWith(s: ParserState, element: string, asWritten: bool): Step
  {
    if s.ignoreNextChar then Step(s.(ignoreNextChar := false), Swallowed)
    else if |element| != 1 then Step(s, Print(element))
    else if s.inAnsiCode then AnsiNext(s, element[0], asWritten)
    else OutsideNext(s, element[0], asWritten)
  }

  /** The decoder's step. */
  function Next(s: ParserState, element: string): Step
  {
    NextWith(s, element, false)
  }

  /** The step as the source writes it. */
  function NextAsWritten(s: ParserState, element: string): Step
  {
    NextWith(s, element, true)
  }

  /** A single character outside an escape sequence: the control characters, then printing. */
  function OutsideNext(s: ParserState, c: char, asWritten: bool): Step
  {
    var b := ConvertWith(c, asWritten);
    if b == Some(Backspace) then Step(s, BackspaceLeft)
    else if b == Some(Escape) then Step(s.(inAnsiCode := true), EscapeStarted)
    else if b == Some(LineFeed) then Step(s, LineFeedDown)
    else if b == Some(CarriageReturn) then Step(s, ReturnToColumnOne)
    else if b == Some(Bell) then Step(s, BellRung)
    else if b == Some(HorizontalTab) then Step(s, TabSpace)
    else if b == Some(LockShiftG0) || b == Some(LockShiftG1) then Step(s, ShiftIgnored)
    else if IsControl(c) then
      if 0 < c as int < 32 then Step(s, CaretNotation(c))
      else if c as int != 0 && c as int != 127 then Step(s, UnknownControl(c as int))
      else Step(s, NothingDone)
    else Step(s, Print([c]))
  }

  /** `HandleAnsiCode`: a character inside an escape sequence. */
  function AnsiNext(s: ParserState, c: char, asWritten: bool): Step
  {
    var b := ConvertWith(c, asWritten);
    match s.csiCodeData
    case None =>
      if b != Some(ControlSequenceIntroducer) then
        Step(s.(ignoreNextChar := NonCsiOf(c) == CharacterSet, inAnsiCode := false, privateModeCode := false), NonCsi(NonCsiOf(c)))
      else Step(s.(csiCodeData := Some("")), CsiStarted)
    case Some(data) =>
      if b == Some(Escape) then Step(Closed(s), EscapeInCsi)
      else if EndsSequenceWith(c, asWritten) then Step(Closed(s), Finished(HandlerOf(c), c, data, s.privateModeCode))
      else if c != '?' then Step(s.(csiCodeData := Some(data + [c])), Collected)
      else Step(s.(privateModeCode := true), Collected)
  }

  /** The parser fields once a sequence is over. */
  function Closed(s: ParserState): ParserState
  {
    s.(inAnsiCode := false, privateModeCode := false, csiCodeData := None)
  }

  /** The final character of a CSI sequence: its command with the parsed data, or a broken or unknown code. */
  function Finished(handler: Option<Handler>, c: char, data: string, privateMode: bool): Action
  {
    match handler
    case Some(h) =>
      (match ParsedParams(data)
       case Some(p) => Dispatch(h, p, privateMode)
       case None => BrokenData(c, data))
    case None => UnknownCommand(c, data)
  }

  /**
   * The parser fields stay coherent: collected data only inside an escape
   * sequence, `?` only inside a CSI sequence, and a skipped character only
   * outside one.
   */
  predicate Consistent(s: ParserState)
  {
    (s.csiCodeData.Some? ==> s.inAnsiCode)
    && (s.privateModeCode ==> s.csiCodeData.Some?)
    && (s.ignoreNextChar ==> !s.inAnsiCode)
  }

  lemma StepKeepsConsistent(s: ParserState, element: string, asWritten: bool)
    requires Consistent(s)
    ensures Consistent(NextWith(s, element, asWritten).state)
  {
  }

  /** While `ignoreNextChar` is set, the element is dropped, the flag cleared and nothing else changes. */
  lemma IgnoredElement(s: ParserState, element: string)
    requires s.ignoreNextChar
    ensures Next(s, element) == Step(s.(ignoreNextChar := false), Swallowed) && LogsOf(Swallowed) == []
  {
  }

  /**
   * After ESC, any character but `[` is dispatched as a non-CSI code and
   * leaves the escape sequence: `c` resets, `(`, `)`, `*` and `+` skip the
   * next element, `7`/`8` save and restore, anything else logs once.
   */
  lemma AfterEscape(s: ParserState, c: char)
    requires Consistent(s) && !s.ignoreNextChar && s.inAnsiCode && s.csiCodeData.None? && c != '['
    ensures Next(s, [c]) == Step(ParserState(c in "()*+", false, false, None), NonCsi(NonCsiOf(c)))
    ensures LogsOf(Next(s, [c]).action) == if c in "c()*+78" then [] else [UnimplementedNonCsiCode(c)]
  {
  }

  /** Inside a CSI sequence an ESC ends it with exactly one log entry and every parser field cleared. */
  lemma EscapeAborts(s: ParserState)
    requires Consistent(s) && s.csiCodeData.Some?
    ensures Next(s, "\U{1B}") == Step(Idle, EscapeInCsi)
    ensures LogsOf(EscapeInCsi) == [EscapeWithinAnsiCode]
  {
  }

  /** A final character ends the sequence, clears every parser field and acts as `Finished` says. */
  lemma FinalCharacter(s: ParserState, c: char)
    requires Consistent(s) && s.csiCodeData.Some? && EndsSequence(c) && c != '\U{1B}'
    ensures Next(s, [c]) == Step(Idle, Finished(HandlerOf(c), c, s.csiCodeData.value, s.privateModeCode))
  {
    ConvertExact(c, Escape);
    assert [c][0] == c;
  }

  /**
   * A registered final character whose data parses runs its command with
   * the parameters and logs nothing itself; broken data or an unregistered
   * character logs once and runs nothing.
   */
  lemma FinishedMeaning(h: Option<Handler>, c: char, data: string, privateMode: bool)
    ensures var a := Finished(h, c, data, privateMode);
            (h.Some? && ParsedParams(data).Some? ==>
               a == Dispatch(h.value, ParsedParams(data).value, privateMode) && LogsOf(a) == [])
            && (h.Some? && ParsedParams(data).None? ==> a.BrokenData? && LogsOf(a) == [BrokenAnsiCodeData(c, data)])
            && (h.None? ==> a.UnknownCommand? && LogsOf(a) == [UnimplementedAnsiCode(c, data)])
  {
    var p := ParsedParams(data);
    if h.Some? && p.Some? {
      DispatchLogsNothing(h.value, p.value, privateMode);
    } else if h.Some? {
      BrokenLogsOnce(c, data);
    } else {
      UnknownLogsOnce(c, data);
    }
  }

  lemma DispatchLogsNothing(h: Handler, p: seq<Option<int>>, privateMode: bool)
    ensures LogsOf(Dispatch(h, p, privateMode)) == []
  {
  }

  lemma BrokenLogsOnce(c: char, data: string)
    ensures LogsOf(BrokenData(c, data)) == [BrokenAnsiCodeData(c, data)]
  {
  }

  lemma UnknownLogsOnce(c: char, data: string)
    ensures LogsOf(UnknownCommand(c, data)) == [UnimplementedAnsiCode(c, data)]
  {
  }

  /** Outside a sequence, every character from U+00A0 up is printed as it is. */
  lemma PrintableCharacters(s: ParserState, c: char)
    requires !s.ignoreNextChar && !s.inAnsiCode && c as int >= 0xA0
    ensures Next(s, [c]) == Step(s, Print([c]))
  {
  }

  /** `'č'` (č) prints once corrected, but returns the carriage as written; `'ě'` (ě) starts an escape sequence. */
  lemma LowByteMisreadsLetters()
    ensures NextAsWritten(Idle, "č").action == ReturnToColumnOne
    ensures Next(Idle, "č") == Step(Idle, Print("č"))
    ensures NextAsWritten(Idle, "ě") == Step(Idle.(inAnsiCode := true), EscapeStarted)
  {
    LowByteConversion();
  }

  /**
   * As written, `` ` `` (horizontal position absolute) after `ESC [ 5` is
   * collected as data and the sequence goes on.
   */
  lemma GraveAccentCollected()
    ensures var s := ParserState(false, true, false, Some("5"));
            NextAsWritten(s, "`") == Step(s.(csiCodeData := Some("5`")), Collected)
  {
    assert "5" + ['`'] == "5`";
  }

  /** As intended, `` ` `` after `ESC [` and a digit runs the registered command with that digit as its parameter. */
  lemma GraveAccentRuns(n: nat)
    requires n <= 9
    ensures var s := ParserState(false, true, false, Some([('0' as int + n) as char]));
            Next(s, "`") == Step(Idle, Dispatch(CursorHorizontalAbsolute, [Some(n)], false))
  {
    var s := ParserState(false, true, false, Some([('0' as int + n) as char]));
    OneParamFromText(n);
    assert HandlerOf('`') == Some(CursorHorizontalAbsolute) && "`" == ['`'];
    FinalStep(s, '`');
  }

  /** The decoder fed the elements in order: the final parser state and the actions, one per element. */
  function Feed(s: ParserState, elements: seq<string>): (r: (ParserState, seq<Action>))
    ensures |r.1| == |elements|
    decreases |elements|
  {
    if |elements| == 0 then (s, [])
    else
      var before := Feed(s, elements[..|elements| - 1]);
      var step := Next(before.0, elements[|elements| - 1]);
      (step.state, before.1 + [step.action])
  }

  /** Each character of a text as an element of its own. */
  function Elements(text: string): (r: seq<string>)
    ensures |r| == |text| && forall i :: 0 <= i < |text| ==> r[i] == [text[i]]
  {
    seq(|text|, i requires 0 <= i < |text| => [text[i]])
  }

  /** The text without its `?` characters. */
  function WithoutMarks(text: string): (r: string)
  {
    if |text| == 0 then ""
    else WithoutMarks(text[..|text| - 1]) + (if text[|text| - 1] == '?' then "" else [text[|text| - 1]])
  }

  /** Data characters: neither ESC nor a character that ends the sequence. */
  predicate IsData(text: string)
  {
    forall i :: 0 <= i < |text| ==> text[i] != '\U{1B}' && !EndsSequence(text[i])
  }

  /**
   * Inside a CSI sequence, data characters are collected one by one (the
   * `?` ones only setting `privateModeCode`); the sequence stays open.
   */
  lemma {:induction false} Collects(s: ParserState, data: string, text: string)
    requires Consistent(s) && s.csiCodeData == Some(data) && IsData(text)
    ensures Feed(s, Elements(text))
            == (s.(csiCodeData := Some(data + WithoutMarks(text)), privateModeCode := s.privateModeCode || '?' in text),
                seq(|text|, _ => Collected))
    decreases |text|
  {
    if |text| > 0 {
      var front := text[..|text| - 1];
      var last := text[|text| - 1];
      assert IsData(front) by {
        assert forall i :: 0 <= i < |front| ==> front[i] == text[i];
      }
      Collects(s, data, front);
      var mid := s.(csiCodeData := Some(data + WithoutMarks(front)), privateModeCode := s.privateModeCode || '?' in front);
      assert Elements(text)[..|text| - 1] == Elements(front);
      assert Elements(text)[|text| - 1] == [last];
      CollectOne(mid, data + WithoutMarks(front), last);
      assert text == front + [last];
      assert '?' in text <==> '?' in front || last == '?';
      assert data + WithoutMarks(front) + (if last == '?' then "" else [last]) == data + WithoutMarks(text);
      assert seq(|front|, _ => Collected) + [Collected] == seq(|text|, _ => Collected);
    } else {
      assert data + WithoutMarks(text) == data;
      assert seq(|text|, _ => Collected) == [];
      assert Feed(s, Elements(text)) == (s, []);
    }
  }

  /** One data character inside a CSI sequence. */
  lemma CollectOne(s: ParserState, data: string, c: char)
    requires Consistent(s) && s.csiCodeData == Some(data) && c != '\U{1B}' && !EndsSequence(c)
    ensures Next(s, [c])
            == Step(s.(csiCodeData := Some(data + if c == '?' then "" else [c]), privateModeCode := s.privateModeCode || c == '?'),
                    Collected)
  {
    ConvertExact(c, Escape);
    assert [c][0] == c;
    assert Next(s, [c]) == AnsiNext(s, c, false);
    if c == '?' {
      assert data + "" == data;
    }
  }

  /** Feeding a single element is taking one step. */
  lemma FeedOne(s: ParserState, element: string)
    ensures Feed(s, [element]) == (Next(s, element).state, [Next(s, element).action])
  {
    assert [element][..0] == [];
    assert Feed(s, []) == (s, []);
    assert [] + [Next(s, element).action] == [Next(s, element).action];
  }

  /** Feeding two lists of elements one after the other. */
  lemma {:induction false} FeedConcat(s: ParserState, a: seq<string>, b: seq<string>)
    ensures Feed(s, a + b) == (Feed(Feed(s, a).0, b).0, Feed(s, a).1 + Feed(Feed(s, a).0, b).1)
    decreases |b|
  {
    var middle := Feed(s, a);
    if |b| > 0 {
      var front := b[..|b| - 1];
      assert (a + b)[..|a + b| - 1] == a + front;
      assert (a + b)[|a + b| - 1] == b[|b| - 1];
      FeedConcat(s, a, front);
      var before := Feed(middle.0, front);
      var step := Next(before.0, b[|b| - 1]);
      assert Feed(s, a + b) == (step.state, (middle.1 + before.1) + [step.action]);
      assert Feed(middle.0, b) == (step.state, before.1 + [step.action]);
      assert (middle.1 + before.1) + [step.action] == middle.1 + (before.1 + [step.action]);
    } else {
      assert a + b == a;
      assert Feed(middle.0, b) == (middle.0, []);
      assert middle.1 + [] == middle.1;
    }
  }

  /**
   * A whole control sequence `ESC [ text c` from an idle decoder: the
   * characters of `text` are collected (a `?` marking a private mode), and
   * the registered final character `c` runs its command with the
   * parameters of the collected data, leaving the decoder idle.
   */
  lemma ControlSequence(text: string, c: char)
    requires IsData(text) && HandlerOf(c).Some? && ParsedParams(WithoutMarks(text)).Some?
    ensures var elements := ["\U{1B}", "["] + Elements(text) + [[c]];
            Feed(Idle, elements)
            == (Idle, [EscapeStarted, CsiStarted] + seq(|text|, _ => Collected)
                      + [Dispatch(HandlerOf(c).value, ParsedParams(WithoutMarks(text)).value, '?' in text)])
  {
    var middle := ["\U{1B}", "["] + Elements(text);
    Opening(text);
    FinalStep(ParserState(false, true, '?' in text, Some(WithoutMarks(text))), c);
    assert (middle + [[c]])[..|middle|] == middle;
    assert (middle + [[c]])[|middle|] == [c];
  }

  /** `ESC [` and data characters leave the sequence open with the data collected. */
  lemma Opening(text: string)
    requires IsData(text)
    ensures Feed(Idle, ["\U{1B}", "["] + Elements(text))
            == (ParserState(false, true, '?' in text, Some(WithoutMarks(text))), [EscapeStarted, CsiStarted] + seq(|text|, _ => Collected))
  {
    var open := ParserState(false, true, false, Some(""));
    Introducer();
    Collects(open, "", text);
    assert "" + WithoutMarks(text) == WithoutMarks(text);
    FeedConcat(Idle, ["\U{1B}", "["], Elements(text));
  }

  /** `ESC [` opens a CSI sequence with no data. */
  lemma Introducer()
    ensures Feed(Idle, ["\U{1B}", "["]) == (ParserState(false, true, false, Some("")), [EscapeStarted, CsiStarted])
  {
    var start: seq<string> := ["\U{1B}", "["];
    var esc := Idle.(inAnsiCode := true);
    assert Next(Idle, "\U{1B}") == Step(esc, EscapeStarted);
    assert Next(esc, "[") == Step(ParserState(false, true, false, Some("")), CsiStarted);
    FeedOne(Idle, "\U{1B}");
    assert start[..1] == ["\U{1B}"];
    assert start[1] == "[";
    assert [EscapeStarted] + [CsiStarted] == [EscapeStarted, CsiStarted];
  }

  /** A registered final character after data that parses: the command runs and the decoder is idle again. */
  lemma FinalStep(s: ParserState, c: char)
    requires Consistent(s) && s.csiCodeData.Some? && HandlerOf(c).Some? && ParsedParams(s.csiCodeData.value).Some?
    ensures Next(s, [c]) == Step(Idle, Dispatch(HandlerOf(c).value, ParsedParams(s.csiCodeData.value).value, s.privateModeCode))
  {
    EveryCommandEnds(c);
    assert c != '\U{1B}';
    FinalCharacter(s, c);
    FinishedMeaning(HandlerOf(c), c, s.csiCodeData.value, s.privateModeCode);
  }
}
