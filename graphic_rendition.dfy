/**
 * `Decoder.GraphicRendition` (Vt100/DecoderCommands.cs:271-522): the
 * colours and attributes that SGR (`ESC [ ... m`) selects, and the
 * effective colours characters are printed with. The terminal's default
 * colours, which the source reads through the decoder, are a parameter.
 */
module GraphicRenditions {
  import opened Wrappers
  import opened Colors
  import opened DecoderLogs
  import opened Vt100Params
  import CSharpInt
  import MonospaceRows

  /** The terminal's `DefaultForeground` and `DefaultBackground`. */
  datatype Defaults = Defaults(foreground: Color, background: Color)

  /** The four settable properties; `None` is a colour left at the default. */
  datatype Rendition = Rendition(foreground: Option<Color>, background: Option<Color>, bright: bool, negative: bool)

  /** `EffectiveForeground` and `EffectiveBackground`; `None` is "draw with the default". */
  datatype Effective = Effective(foreground: Option<Color>, background: Option<Color>)

  /** What `Reset` leaves: both colours at the default, neither bright nor negative. */
  const Plain := Rendition(None, None, false, false)

  /** The colours a rendition asks for: the field or the default, the foreground brightened, then swapped when negative. */
  function Intended(r: Rendition, d: Defaults): (Color, Color)
  {
    var fg := if r.foreground.Some? then r.foreground.value else d.foreground;
    var bg := if r.background.Some? then r.background.value else d.background;
    var fg' := if r.bright then Brighten(fg) else fg;
    if r.negative then (bg, fg') else (fg', bg)
  }

  /** An effective colour: `None` when it is the default. */
  function Stored(c: Color, default: Color): Option<Color>
  {
    if c == default then None else Some(c)
  }

  /** `Refresh` (lines 454-470). */
  function Refreshed(r: Rendition, d: Defaults): Effective
  {
    var (fg, bg) := Intended(r, d);
    Effective(Stored(fg, d.foreground), Stored(bg, d.background))
  }

  /** What an effective pair draws: a stored colour, or the default in its place. */
  function Shown(e: Effective, d: Defaults): (Color, Color)
  {
    (if e.foreground.Some? then e.foreground.value else d.foreground,
     if e.background.Some? then e.background.value else d.background)
  }

  /**
   * The effective colours draw exactly the intended ones, and a colour is
   * left out precisely when it is the default.
   */
  lemma RefreshedShowsIntended(r: Rendition, d: Defaults)
    ensures Shown(Refreshed(r, d), d) == Intended(r, d)
    ensures Refreshed(r, d).foreground.None? <==> Intended(r, d).0 == d.foreground
    ensures Refreshed(r, d).background.None? <==> Intended(r, d).1 == d.background
  {
  }

  /** Negative swaps the two drawn colours, whatever else is set. */
  lemma NegativeSwaps(r: Rendition, d: Defaults)
    ensures var on, off := Intended(r.(negative := true), d), Intended(r.(negative := false), d);
            on == (off.1, off.0)
  {
  }

  /** After a reset nothing is overridden: both colours are drawn with the defaults. */
  lemma PlainShowsDefaults(d: Defaults)
    ensures Refreshed(Plain, d) == Effective(None, None)
    ensures Shown(Refreshed(Plain, d), d) == (d.foreground, d.background)
  {
  }

  /**
   * `GetConsolePaletteColor` (lines 390-413): the eight console colours,
   * entry 7 being the terminal's default grey; any other number gives
   * black.
   */
  function PaletteColor(n: int): Color
  {
    if n == 0 then Black
    else if n == 1 then DarkRed
    else if n == 2 then DarkGreen
    else if n == 3 then Brown
    else if n == 4 then DarkBlue
    else if n == 5 then DarkMagenta
    else if n == 6 then DarkCyan
    else if n == 7 then DefaultGray
    else Black
  }

  /** The eight entries differ, and each has its own bright form in the table, so brightening never falls back to `WithIncreasedLight`. */
  lemma PaletteDistinctAndBright(m: int, n: int)
    requires 0 <= m < 8 && 0 <= n < 8
    ensures PaletteColor(m) == PaletteColor(n) <==> m == n
    ensures BrightOf(PaletteColor(n)).Some? && Brighten(PaletteColor(n)) != PaletteColor(m)
  {
  }

  /** `ToColorTable` (lines 482-489): a cube coordinate as a channel value, 0 for 0 and `0x5F + 0x28 (k - 1)` above. */
  function ToColorTable(index: int): int
  {
    if index > 0 then 0x5F + (index - 1) * 0x28 else index
  }

  /** The six cube levels are the channel values 0, 95, 135, 175, 215 and 255, in increasing order. */
  lemma ColorTableLevels(j: int, k: int)
    requires 0 <= j < k < 6
    ensures 0 <= ToColorTable(j) < ToColorTable(k) <= 255
    ensures ToColorTable(0) == 0 && ToColorTable(5) == 255
  {
  }

  /** Entry `index` of the 6x6x6 colour cube, `index` counted from 16; C# `/` and `%` truncate. */
  function CubeColor(index: int): Color
  {
    var k := index - 16;
    Rgb(ToColorTable(CSharpInt.Mod(CSharpInt.Div(k, 36), 6)),
        ToColorTable(CSharpInt.Mod(CSharpInt.Div(k, 6), 6)),
        ToColorTable(CSharpInt.Mod(k, 6)))
  }

  /** Entry `index` of the grey ramp, 8 for 232 and ten more per step. */
  function GreyColor(index: int): Color
  {
    var intensity := 0x8 + (index - 0xE8) * 0xA;
    Rgb(intensity, intensity, intensity)
  }

  /** The 256-colour index of `38;5;n` as the source writes it: the cube ends below 0xE7, so 231 falls into the grey ramp. */
  function Color256AsWritten(index: int): Color
  {
    if 0 <= index <= 15 then
      if index > 7 then Brighten(PaletteColor(index % 8)) else PaletteColor(index % 8)
    else if index < 0xE7 then CubeColor(index)
    else GreyColor(index)
  }

  /** The 256-colour index with the whole cube, 16 to 231, before the grey ramp. */
  function Color256(index: int): Color
  {
    if 0 <= index <= 15 then
      if index > 7 then Brighten(PaletteColor(index % 8)) else PaletteColor(index % 8)
    else if index < 0xE8 then CubeColor(index)
    else GreyColor(index)
  }

  /** As written, index 231, the last cube entry (white), gives the channel value -2. */
  lemma Color231AsWritten()
    ensures Color256AsWritten(231) == Rgb(-2, -2, -2)
    ensures Color256(231) == Rgb(255, 255, 255)
  {
  }

  /** The cube entry of `(r, g, b)` sits at `16 + 36 r + 6 g + b`. */
  lemma CubeCoordinates(r: int, g: int, b: int)
    requires 0 <= r < 6 && 0 <= g < 6 && 0 <= b < 6
    ensures Color256(16 + 36 * r + 6 * g + b) == Rgb(ToColorTable(r), ToColorTable(g), ToColorTable(b))
  {
    var k := 36 * r + 6 * g + b;
    MonospaceRows.DivisionUnique(k, 36, r, 6 * g + b);
    MonospaceRows.DivisionUnique(k, 6, 6 * r + g, b);
    MonospaceRows.DivisionUnique(6 * r + g, 6, r, g);
    MonospaceRows.DivisionUnique(r, 6, 0, r);
    assert CSharpInt.Div(k, 36) == r && CSharpInt.Div(k, 6) == 6 * r + g && CSharpInt.Mod(k, 6) == b;
  }

  /** Every index from 0 to 255 gives a colour whose channels, when it has them, lie in `[0, 255]`. */
  lemma Color256InRange(index: int)
    requires 0 <= index <= 255
    ensures Color256(index).Rgb? ==> 0 <= Color256(index).r <= 255 && 0 <= Color256(index).g <= 255 && 0 <= Color256(index).b <= 255
    ensures 0 <= index <= 15 ==> !Color256(index).Rgb?
  {
    if 16 <= index < 0xE8 {
      var k := index - 16;
      var r, t := k / 36, k % 36;
      var g, b := t / 6, t % 6;
      assert k == 36 * r + 6 * g + b && 0 <= r < 6;
      CubeCoordinates(r, g, b);
    }
  }

  /** `38;5;n` for `n` in 0..15: the console palette, brightened from 8 on. */
  lemma Color256Palette(n: int)
    requires 0 <= n < 8
    ensures Color256(n) == PaletteColor(n) && Color256(n + 8) == Brighten(PaletteColor(n))
  {
  }

  /** The grey ramp: 232 to 255 give equal channels from 8 to 238, ten apart. */
  lemma Color256Grey(n: int)
    requires 0 <= n < 24
    ensures Color256(232 + n) == Rgb(8 + 10 * n, 8 + 10 * n, 8 + 10 * n)
  {
  }

  /** An extended colour and how many parameters after the 38 or 48 it used. */
  datatype Extended = Extended(color: Color, used: nat, logs: seq<LogEntry>)

  /**
   * `GetExtendedColor` once its parameters are read: mode 2 takes three
   * channel values, mode 5 a 256-colour index; any other mode gives black
   * and a log entry and uses only the mode.
   */
  function ExtendedOf(mode: int, first: int, second: int, third: int): (x: Extended)
    ensures 1 <= x.used <= 4
  {
    if mode == 2 then Extended(Rgb(first, second, third), 4, [])
    else if mode == 5 then Extended(Color256(first), 2, [])
    else Extended(Black, 1, [UnimplementedExtendedColor])
  }

  /**
   * `GetExtendedColor(ref i)` (lines 415-452), `modeIndex` being the
   * parameter after 38 or 48, a default parameter read as 0.
   */
  function ExtendedColorAt(params: seq<Option<int>>, modeIndex: nat): Extended
  {
    ExtendedOf(ParamOrDefault(params, modeIndex, 0), ParamOrDefault(params, modeIndex + 1, 0),
               ParamOrDefault(params, modeIndex + 2, 0), ParamOrDefault(params, modeIndex + 3, 0))
  }

  /**
   * One SGR code as read from the parameters: a plain code, or 38/48 with
   * its mode and the arguments that mode takes (0 for those it does not).
   */
  datatype Command = Code(value: int) | ExtendedColor(value: int, mode: int, first: int, second: int, third: int)

  /** How many parameters a command takes beyond its code. */
  function Width(c: Command): nat
  {
    match c
    case Code(_) => 0
    case ExtendedColor(_, mode, _, _, _) => if mode == 2 then 4 else if mode == 5 then 2 else 1
  }

  /** Parameter `i` read as a command, a null parameter being 0 (lines 296-302, 319-328). */
  function CommandAt(params: seq<Option<int>>, i: nat): Command
  {
    var value := ParamOrDefault(params, i, 0);
    if value == 38 || value == 48 then
      var mode := ParamOrDefault(params, i + 1, 0);
      if mode == 2 then
        ExtendedColor(value, mode, ParamOrDefault(params, i + 2, 0), ParamOrDefault(params, i + 3, 0), ParamOrDefault(params, i + 4, 0))
      else if mode == 5 then ExtendedColor(value, mode, ParamOrDefault(params, i + 2, 0), 0, 0)
      else ExtendedColor(value, mode, 0, 0, 0)
    else Code(value)
  }

  /** The colour of an extended command is what `GetExtendedColor` reads at that place, and it uses `Width` parameters. */
  lemma CommandColor(params: seq<Option<int>>, i: nat)
    requires CommandAt(params, i).ExtendedColor?
    ensures var c := CommandAt(params, i);
            ExtendedOf(c.mode, c.first, c.second, c.third) == ExtendedColorAt(params, i + 1)
            && ExtendedColorAt(params, i + 1).used == Width(c)
  {
  }

  /** The commands of the parameters from `i` on, each starting after the arguments of the one before. */
  function Commands(params: seq<Option<int>>, i: nat): seq<Command>
    decreases |params| - i
  {
    if i >= |params| then []
    else
      var c := CommandAt(params, i);
      [c] + Commands(params, i + Width(c) + 1)
  }

  /** What a code without arguments does: sets properties, does nothing, or is not known. */
  datatype Effect = Sets(rendition: Rendition) | NoOp | Unknown

  /** The `SgrHandlers` table (lines 510-521), then the palette codes 30-37 and 40-47 (lines 311-318). */
  function CodeEffect(value: int, r: Rendition): Effect
  {
    if value == 0 then Sets(Plain)
    else if value == 1 then Sets(r.(bright := true))
    else if value == 7 then Sets(r.(negative := true))
    else if value == 10 || value == 24 then NoOp
    else if value == 21 then Sets(r.(bright := false))
    else if value == 27 then Sets(r.(negative := false))
    else if value == 39 then Sets(r.(foreground := None))
    else if value == 49 then Sets(r.(background := None))
    else if 30 <= value <= 37 then Sets(r.(foreground := Some(PaletteColor(value - 30))))
    else if 40 <= value <= 47 then Sets(r.(background := Some(PaletteColor(value - 40))))
    else Unknown
  }

  /** What `HandleSgr` does: the rendition, the log, and whether any property was set. */
  datatype Outcome = Outcome(rendition: Rendition, logs: seq<LogEntry>, sets: bool)

  /** `o` after steps that logged `logs` and set a property if `sets`. */
  function After(logs: seq<LogEntry>, sets: bool, o: Outcome): Outcome
  {
    Outcome(o.rendition, logs + o.logs, sets || o.sets)
  }

  /** One command: 38 sets the foreground, 48 the background, a code has its effect, an unknown code is logged. */
  function Apply(c: Command, r: Rendition): Outcome
  {
    match c
    case ExtendedColor(value, mode, first, second, third) =>
      var x := ExtendedOf(mode, first, second, third);
      Outcome(if value == 38 then r.(foreground := Some(x.color)) else r.(background := Some(x.color)), x.logs, true)
    case Code(value) =>
      match CodeEffect(value, r)
      case Sets(r') => Outcome(r', [], true)
      case NoOp => Outcome(r, [], false)
      case Unknown => Outcome(r, [UnimplementedSgr(value)], false)
  }

  /** The commands in order. */
  function ApplyAll(cs: seq<Command>, r: Rendition): Outcome
  {
    if |cs| == 0 then Outcome(r, [], false)
    else
      var first := Apply(cs[0], r);
      After(first.logs, first.sets, ApplyAll(cs[1..], first.rendition))
  }

  /** `HandleSgr` over `params` from parameter `i` on. */
  function SgrFrom(params: seq<Option<int>>, i: nat, r: Rendition): Outcome
  {
    ApplyAll(Commands(params, i), r)
  }

  /** From a parameter, the walk applies the command there, then goes on after its arguments. */
  lemma SgrFromStep(params: seq<Option<int>>, i: nat, r: Rendition)
    requires i < |params|
    ensures var c := CommandAt(params, i);
            var o := Apply(c, r);
            SgrFrom(params, i, r) == After(o.logs, o.sets, SgrFrom(params, i + Width(c) + 1, o.rendition))
  {
    var c := CommandAt(params, i);
    assert Commands(params, i) == [c] + Commands(params, i + Width(c) + 1);
    assert ([c] + Commands(params, i + Width(c) + 1))[1..] == Commands(params, i + Width(c) + 1);
  }

  /** Logs of successive steps add up, in order. */
  lemma AfterAfter(first: seq<LogEntry>, firstSets: bool, second: seq<LogEntry>, secondSets: bool, o: Outcome)
    ensures After(first, firstSets, After(second, secondSets, o)) == After(first + second, firstSets || secondSets, o)
  {
    assert first + (second + o.logs) == (first + second) + o.logs;
  }

  /** Applying two runs of commands is applying the first, then the second from where it left off. */
  lemma {:induction false} ApplyAllConcat(a: seq<Command>, b: seq<Command>, r: Rendition)
    ensures var first := ApplyAll(a, r);
            ApplyAll(a + b, r) == After(first.logs, first.sets, ApplyAll(b, first.rendition))
  {
    if |a| > 0 {
      assert (a + b)[1..] == a[1..] + b;
      var c := Apply(a[0], r);
      ApplyAllConcat(a[1..], b, c.rendition);
      var rest := ApplyAll(a[1..], c.rendition);
      assert c.logs + (rest.logs + ApplyAll(b, rest.rendition).logs) == (c.logs + rest.logs) + ApplyAll(b, rest.rendition).logs;
    } else {
      assert a + b == b;
    }
  }

  /** Two parameter lists read alike over `n + 1` places from `i` and from `j`. */
  ghost predicate Agree(ps: seq<Option<int>>, i: nat, qs: seq<Option<int>>, j: nat, n: int)
  {
    forall a: nat :: i <= a <= i + n ==> ParamOrDefault(ps, a, 0) == ParamOrDefault(qs, a - i + j, 0)
  }

  /** The same list read from the same place agrees with itself after the place `k` is zeroed, when `k` is null. */
  lemma ZeroedAgrees(params: seq<Option<int>>, k: nat, i: nat, n: nat)
    requires k < |params| && params[k].None?
    ensures Agree(params, i, params[k := Some(0)], i, n)
  {
  }

  /** A list read from `j` agrees with the same list behind a prefix. */
  lemma ShiftAgrees(prefix: seq<Option<int>>, rest: seq<Option<int>>, j: nat, n: nat)
    ensures Agree(rest, j, prefix + rest, |prefix| + j, n)
  {
  }

  /** A list agrees with itself followed by more, over places inside it. */
  lemma PrefixAgrees(front: seq<Option<int>>, back: seq<Option<int>>, i: nat, n: nat)
    requires i + n < |front|
    ensures Agree(front, i, front + back, i, n)
  {
  }

  /** A command reads only its code and its arguments. */
  lemma CommandReadsItsParameters(ps: seq<Option<int>>, i: nat, qs: seq<Option<int>>, j: nat)
    requires Agree(ps, i, qs, j, Width(CommandAt(ps, i)))
    ensures CommandAt(qs, j) == CommandAt(ps, i)
  {
    assert ParamOrDefault(ps, i + 0, 0) == ParamOrDefault(qs, i + 0 - i + j, 0);
    var value := ParamOrDefault(ps, i, 0);
    if value == 38 || value == 48 {
      assert ParamOrDefault(ps, i + 1, 0) == ParamOrDefault(qs, i + 1 - i + j, 0);
      var mode := ParamOrDefault(ps, i + 1, 0);
      if mode == 2 {
        assert ParamOrDefault(ps, i + 2, 0) == ParamOrDefault(qs, i + 2 - i + j, 0);
        assert ParamOrDefault(ps, i + 3, 0) == ParamOrDefault(qs, i + 3 - i + j, 0);
        assert ParamOrDefault(ps, i + 4, 0) == ParamOrDefault(qs, i + 4 - i + j, 0);
      } else if mode == 5 {
        assert ParamOrDefault(ps, i + 2, 0) == ParamOrDefault(qs, i + 2 - i + j, 0);
      }
    }
  }

  /** A null parameter is read exactly as an explicit 0, wherever it stands. */
  lemma {:induction false} NullIsZero(params: seq<Option<int>>, k: nat, i: nat)
    requires k < |params| && params[k].None?
    ensures Commands(params[k := Some(0)], i) == Commands(params, i)
    ensures forall r :: SgrFrom(params[k := Some(0)], i, r) == SgrFrom(params, i, r)
    decreases |params| - i
  {
    var zeroed := params[k := Some(0)];
    if i < |params| {
      var c := CommandAt(params, i);
      ZeroedAgrees(params, k, i, Width(c));
      CommandReadsItsParameters(params, i, zeroed, i);
      NullIsZero(params, k, i + Width(c) + 1);
    }
  }

  /** The commands from a parameter: the one there, then those after its arguments. */
  lemma CommandsStep(params: seq<Option<int>>, i: nat, c: Command, next: nat)
    requires i < |params| && c == CommandAt(params, i) && next == i + Width(c) + 1
    ensures Commands(params, i) == [c] + Commands(params, next)
  {
  }

  /** Parameters after a prefix are read as if they stood alone. */
  lemma {:induction false} ShiftedCommands(prefix: seq<Option<int>>, rest: seq<Option<int>>, j: nat)
    ensures Commands(prefix + rest, |prefix| + j) == Commands(rest, j)
    decreases |rest| - j
  {
    var ps := prefix + rest;
    if j < |rest| {
      var c := CommandAt(rest, j);
      ShiftAgrees(prefix, rest, j, Width(c));
      CommandReadsItsParameters(rest, j, ps, |prefix| + j);
      var next := j + Width(c) + 1;
      ShiftedCommands(prefix, rest, next);
      CommandsStep(rest, j, c, next);
      CommandsStep(ps, |prefix| + j, c, |prefix| + next);
      assert Commands(ps, |prefix| + j) == [c] + Commands(rest, next);
    } else {
      assert Commands(ps, |prefix| + j) == [];
    }
  }

  /** The walk over `params` from `i` never reads past its end: every 38/48 has all its arguments. */
  predicate WalkFits(params: seq<Option<int>>, i: nat)
    decreases |params| - i
  {
    if i >= |params| then i == |params|
    else
      var c := CommandAt(params, i);
      i + Width(c) < |params| && WalkFits(params, i + Width(c) + 1)
  }

  /** The commands of a front part that the walk fits, followed by those of the back part. */
  lemma {:induction false} CommandsSplit(front: seq<Option<int>>, back: seq<Option<int>>, i: nat)
    requires WalkFits(front, i)
    ensures Commands(front + back, i) == Commands(front, i) + Commands(back, 0)
    decreases |front| - i
  {
    var ps := front + back;
    if i < |front| {
      var c := CommandAt(front, i);
      PrefixAgrees(front, back, i, Width(c));
      CommandReadsItsParameters(front, i, ps, i);
      CommandsSplit(front, back, i + Width(c) + 1);
      assert [c] + (Commands(front, i + Width(c) + 1) + Commands(back, 0))
          == ([c] + Commands(front, i + Width(c) + 1)) + Commands(back, 0);
    } else {
      ShiftedCommands(front, back, 0);
    }
  }

  /**
   * Splitting an SGR sequence after a parameter the walk stops at gives
   * the same rendition and the same log: `ESC[1;31m` is `ESC[1m ESC[31m`.
   */
  lemma SgrSplit(front: seq<Option<int>>, back: seq<Option<int>>, r: Rendition)
    requires WalkFits(front, 0)
    ensures var f := SgrFrom(front, 0, r);
            SgrFrom(front + back, 0, r) == After(f.logs, f.sets, SgrFrom(back, 0, f.rendition))
  {
    CommandsSplit(front, back, 0);
    ApplyAllConcat(Commands(front, 0), Commands(back, 0), r);
  }

  /** A sequence that starts with 0 forgets the rendition it started from. */
  lemma ResetForgets(rest: seq<Option<int>>, r: Rendition, r': Rendition)
    ensures SgrFrom([Some(0)] + rest, 0, r) == SgrFrom([Some(0)] + rest, 0, r')
  {
    var ps := [Some(0)] + rest;
    assert ParamOrDefault(ps, 0, 0) == 0;
    assert Commands(ps, 0) == [Code(0)] + Commands(ps, 1);
  }

  /**
   * A code that is neither in the table, nor a palette colour, nor 38/48,
   * writes one log entry and leaves the rendition to the codes after it.
   */
  lemma UnknownCodeContinues(params: seq<Option<int>>, i: nat, r: Rendition)
    requires i < |params|
    requires var v := ParamOrDefault(params, i, 0);
             v !in {0, 1, 7, 10, 21, 24, 27, 38, 39, 48, 49} && !(30 <= v <= 37) && !(40 <= v <= 47)
    ensures SgrFrom(params, i, r) == After([UnimplementedSgr(ParamOrDefault(params, i, 0))], false, SgrFrom(params, i + 1, r))
  {
    assert Commands(params, i) == [Code(ParamOrDefault(params, i, 0))] + Commands(params, i + 1);
  }

  /** `38;2;r;g;b` sets the foreground to that colour; the parameters after it are read as codes again. */
  lemma TrueColorForeground(rest: seq<Option<int>>, r: Rendition, red: int, green: int, blue: int)
    ensures var ps := [Some(38), Some(2), Some(red), Some(green), Some(blue)] + rest;
            SgrFrom(ps, 0, r) == After([], true, SgrFrom(rest, 0, r.(foreground := Some(Rgb(red, green, blue)))))
  {
    var prefix := [Some(38), Some(2), Some(red), Some(green), Some(blue)];
    var ps := prefix + rest;
    assert ParamOrDefault(ps, 0, 0) == 38 && ParamOrDefault(ps, 1, 0) == 2;
    assert ParamOrDefault(ps, 2, 0) == red && ParamOrDefault(ps, 3, 0) == green && ParamOrDefault(ps, 4, 0) == blue;
    var c := ExtendedColor(38, 2, red, green, blue);
    assert CommandAt(ps, 0) == c;
    ShiftedCommands(prefix, rest, 0);
    assert Commands(ps, 0) == [c] + Commands(rest, 0);
  }

  /** `48;5;n` sets the background to entry `n` of the 256 colours; the parameters after it are read as codes again. */
  lemma IndexedBackground(rest: seq<Option<int>>, r: Rendition, n: int)
    ensures var ps := [Some(48), Some(5), Some(n)] + rest;
            SgrFrom(ps, 0, r) == After([], true, SgrFrom(rest, 0, r.(background := Some(Color256(n)))))
  {
    var prefix := [Some(48), Some(5), Some(n)];
    var ps := prefix + rest;
    assert ParamOrDefault(ps, 0, 0) == 48 && ParamOrDefault(ps, 1, 0) == 5 && ParamOrDefault(ps, 2, 0) == n;
    var c := ExtendedColor(48, 5, n, 0, 0);
    assert CommandAt(ps, 0) == c;
    ShiftedCommands(prefix, rest, 0);
    assert Commands(ps, 0) == [c] + Commands(rest, 0);
  }

  /**
   * The rendition state of the source's `GraphicRendition` object: the
   * four property backing fields and the two effective colours. Each
   * setter stores its value and recomputes the effective colours.
   */
  class GraphicRendition {
    var foreground: Option<Color>
    var background: Option<Color>
    var bright: bool
    var negative: bool
    var effectiveForeground: Option<Color>
    var effectiveBackground: Option<Color>

    function State(): Rendition
      reads this
    {
      Rendition(foreground, background, bright, negative)
    }

    function EffectiveOf(): Effective
      reads this
    {
      Effective(effectiveForeground, effectiveBackground)
    }

    /** A new rendition: nothing set, no effective colour yet. */
    constructor ()
      ensures State() == Plain && EffectiveOf() == Effective(None, None)
    {
      foreground, background, bright, negative := None, None, false, false;
      effectiveForeground, effectiveBackground := None, None;
    }

    /** `Refresh`. */
    method Refresh(d: Defaults)
      modifies this
      ensures State() == old(State()) && EffectiveOf() == Refreshed(State(), d)
    {
      var currentForeground := if foreground.Some? then foreground.value else d.foreground;
      var currentBackground := if background.Some? then background.value else d.background;
      if bright {
        currentForeground := Brighten(currentForeground);
      }
      if negative {
        currentForeground, currentBackground := currentBackground, currentForeground;
      }
      effectiveForeground := if currentForeground == d.foreground then None else Some(currentForeground);
      effectiveBackground := if currentBackground == d.background then None else Some(currentBackground);
    }

    /** The `Foreground` setter. */
    method SetForeground(value: Option<Color>, d: Defaults)
      modifies this
      ensures State() == old(State()).(foreground := value) && EffectiveOf() == Refreshed(State(), d)
    {
      foreground := value;
      Refresh(d);
    }

    /** The `Background` setter. */
    method SetBackground(value: Option<Color>, d: Defaults)
      modifies this
      ensures State() == old(State()).(background := value) && EffectiveOf() == Refreshed(State(), d)
    {
      background := value;
      Refresh(d);
    }

    /** The `Bright` setter. */
    method SetBright(value: bool, d: Defaults)
      modifies this
      ensures State() == old(State()).(bright := value) && EffectiveOf() == Refreshed(State(), d)
    {
      bright := value;
      Refresh(d);
    }

    /** The `Negative` setter. */
    method SetNegative(value: bool, d: Defaults)
      modifies this
      ensures State() == old(State()).(negative := value) && EffectiveOf() == Refreshed(State(), d)
    {
      negative := value;
      Refresh(d);
    }

    /** `Reset`: the four setters in turn. */
    method Reset(d: Defaults)
      modifies this
      ensures State() == Plain && EffectiveOf() == Refreshed(Plain, d)
    {
      SetForeground(None, d);
      SetBackground(None, d);
      SetNegative(false, d);
      SetBright(false, d);
    }

    /** `Clone`: a memberwise copy. */
    method Clone() returns (copy: GraphicRendition)
      ensures fresh(copy) && copy.State() == State() && copy.EffectiveOf() == EffectiveOf()
    {
      copy := new GraphicRendition();
      copy.foreground, copy.background, copy.bright, copy.negative := foreground, background, bright, negative;
      copy.effectiveForeground, copy.effectiveBackground := effectiveForeground, effectiveBackground;
    }

    /** One parameter of `HandleSgr`, through the setters; `last` is the last parameter it used. */
    method HandleSgrStep(params: seq<Option<int>>, i: nat, d: Defaults) returns (last: nat, logs: seq<LogEntry>)
      modifies this
      ensures var c := CommandAt(params, i);
              var o := Apply(c, old(State()));
              State() == o.rendition && last == i + Width(c) && logs == o.logs
              && EffectiveOf() == if o.sets then Refreshed(State(), d) else old(EffectiveOf())
    {
      var value := ParamOrDefault(params, i, 0);
      last, logs := i, [];
      if value == 0 {
        Reset(d);
      } else if value == 1 {
        SetBright(true, d);
      } else if value == 7 {
        SetNegative(true, d);
      } else if value == 10 || value == 24 {
      } else if value == 21 {
        SetBright(false, d);
      } else if value == 27 {
        SetNegative(false, d);
      } else if value == 39 {
        SetForeground(None, d);
      } else if value == 49 {
        SetBackground(None, d);
      } else if 30 <= value <= 37 {
        SetForeground(Some(PaletteColor(value - 30)), d);
      } else if 40 <= value <= 47 {
        SetBackground(Some(PaletteColor(value - 40)), d);
      } else if value == 38 {
        var x := ExtendedColorAt(params, i + 1);
        CommandColor(params, i);
        SetForeground(Some(x.color), d);
        last, logs := i + x.used, x.logs;
      } else if value == 48 {
        var x := ExtendedColorAt(params, i + 1);
        CommandColor(params, i);
        SetBackground(Some(x.color), d);
        last, logs := i + x.used, x.logs;
      } else {
        logs := [UnimplementedSgr(value)];
      }
    }

    /**
     * `HandleSgr`: every parameter in turn, 38 and 48 moving the index past
     * their arguments. The effective colours are recomputed whenever a
     * property is set.
     */
    method HandleSgr(params: seq<Option<int>>, d: Defaults) returns (logs: seq<LogEntry>)
      modifies this
      ensures var o := SgrFrom(params, 0, old(State()));
              State() == o.rendition && logs == o.logs
              && EffectiveOf() == if o.sets then Refreshed(State(), d) else old(EffectiveOf())
    {
      ghost var total := SgrFrom(params, 0, State());
      ghost var sets := false;
      logs := [];
      var i: nat := 0;
      while i < |params|
        invariant total == After(logs, sets, SgrFrom(params, i, State()))
        invariant EffectiveOf() == if sets then Refreshed(State(), d) else old(EffectiveOf())
        decreases |params| - i
      {
        ghost var before := State();
        ghost var c := CommandAt(params, i);
        var last, stepLogs := HandleSgrStep(params, i, d);
        ghost var o := Apply(c, before);
        SgrFromStep(params, i, before);
        AfterAfter(logs, sets, o.logs, o.sets, SgrFrom(params, last + 1, State()));
        sets := sets || o.sets;
        logs := logs + stepLogs;
        i := last + 1;
      }
    }
  }
}
