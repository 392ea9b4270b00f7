/**
 * `TextRow` of the older `Terminal` namespace (TextRow.cs): one line of
 * `char`s with sparse foreground and background overrides keyed by
 * character index. Unlike the later row it erases in place without
 * trimming, wraps its text with a `'\n'` only between sublines, and ends a
 * selection before its last index. A dictionary the source has not yet
 * allocated is the empty map here.
 */
module LegacyTextRows {
  import opened Wrappers
  import opened Colors
  import opened RowMetrics
  import CSharpInt
  import MonospaceRows
  import LegacyClipboard

  function Min(a: int, b: int): int { if a < b then a else b }
  function Max(a: int, b: int): int { if a < b then b else a }

  function Blanks(n: nat): (r: string)
    ensures |r| == n && forall i :: 0 <= i < n ==> r[i] == ' '
  {
    seq(n, _ => ' ')
  }

  /**
   * The characters `Erase` leaves when it does not throw: those from `from`
   * through `last` are spaces and every other one is kept.
   */
  function Blanked(c: string, from: int, last: int): (r: string)
    requires last < |c| && (0 <= from || last < from)
    ensures |r| == |c|
    ensures forall k :: 0 <= k < |c| ==> r[k] == if from <= k <= last then ' ' else c[k]
  {
    if last < from then c else c[..from] + Blanks(last - from + 1) + c[last + 1..]
  }

  /**
   * The characters `InsertCharacterAt` leaves: `what` at `x`, spaces
   * between the old end and `x`, and every other character kept.
   */
  function Inserted(c: string, x: nat, what: char): (r: string)
    ensures |r| == Max(|c|, x + 1)
    ensures r[x] == what
    ensures forall k :: 0 <= k < |c| && k != x ==> r[k] == c[k]
    ensures forall k :: |c| <= k < x ==> r[k] == ' '
  {
    if |c| <= x then c + Blanks(x - |c|) + [what] else c[x := what]
  }

  // ---------------------------------------------------------------------
  // Wrapping (Draw, lines 43-58)

  /** The text `Draw` lays out: sublines of `charsOnLine` characters with a `'\n'` between neighbours. */
  function Wrapped(text: string, charsOnLine: nat): string
    requires charsOnLine > 0
    decreases |text|
  {
    if |text| <= charsOnLine then text
    else text[..charsOnLine] + "\n" + Wrapped(text[charsOnLine..], charsOnLine)
  }

  /** The number of sublines: one for an empty text. */
  function Sublines(length: nat, charsOnLine: nat): (n: nat)
    requires charsOnLine > 0
    ensures n >= 1
  {
    if length == 0 then 1 else (length - 1) / charsOnLine + 1
  }

  /** Wrapping whole sublines and then a non-empty rest puts one `'\n'` between the two. */
  lemma {:induction false} WrappedAppend(x: string, y: string, charsOnLine: nat, lines: nat)
    requires charsOnLine > 0 && lines >= 1 && |x| == lines * charsOnLine && |y| >= 1
    ensures Wrapped(x + y, charsOnLine) == Wrapped(x, charsOnLine) + "\n" + Wrapped(y, charsOnLine)
    decreases lines
  {
    assert (x + y)[..charsOnLine] == x[..charsOnLine];
    assert (x + y)[charsOnLine..] == x[charsOnLine..] + y;
    if lines == 1 {
      assert x[..charsOnLine] == x && x[charsOnLine..] == [];
    } else {
      assert |x[charsOnLine..]| == (lines - 1) * charsOnLine;
      WrappedAppend(x[charsOnLine..], y, charsOnLine, lines - 1);
    }
  }

  /** `(n - d) / d` is one less than `n / d`. */
  lemma DivShift(n: int, d: int)
    requires n >= d > 0
    ensures (n - d) / d == n / d - 1
  {
    MonospaceRows.DivShift(n, d);
  }

  /** The wrapped text has one `'\n'` fewer than it has sublines. */
  lemma {:induction false} WrappedLength(text: string, charsOnLine: nat)
    requires charsOnLine > 0
    ensures |Wrapped(text, charsOnLine)| == |text| + Sublines(|text|, charsOnLine) - 1
    decreases |text|
  {
    if |text| > charsOnLine {
      WrappedLength(text[charsOnLine..], charsOnLine);
      DivShift(|text| - 1, charsOnLine);
    } else if |text| > 0 {
      MonospaceRows.DivisionUnique(|text| - 1, charsOnLine, 0, |text| - 1);
    }
  }

  /** A character of the first subline is shown at its own index. */
  lemma WrappedHead(text: string, charsOnLine: nat, i: int)
    requires charsOnLine > 0 && 0 <= i < charsOnLine && i < |text|
    ensures i < |Wrapped(text, charsOnLine)| && Wrapped(text, charsOnLine)[i] == text[i]
  {
    if |text| > charsOnLine {
      assert Wrapped(text, charsOnLine)[i] == text[..charsOnLine][i];
    }
  }

  /** After the first subline and its `'\n'`, the wrapped text is the wrapped rest. */
  lemma WrappedAfterHead(text: string, charsOnLine: nat, i: int)
    requires charsOnLine > 0 && |text| > charsOnLine
    requires 0 <= i < |Wrapped(text[charsOnLine..], charsOnLine)|
    ensures charsOnLine + 1 + i < |Wrapped(text, charsOnLine)|
    ensures Wrapped(text, charsOnLine)[charsOnLine + 1 + i] == Wrapped(text[charsOnLine..], charsOnLine)[i]
  {
    var head := text[..charsOnLine] + "\n";
    assert Wrapped(text, charsOnLine) == head + Wrapped(text[charsOnLine..], charsOnLine);
  }

  /**
   * Column r of subline q is shown at index `q * (charsOnLine + 1) + r`
   * of the wrapped text.
   */
  lemma {:induction false} WrappedShowsCell(text: string, charsOnLine: nat, q: nat, r: nat)
    requires charsOnLine > 0 && r < charsOnLine && q * charsOnLine + r < |text|
    ensures q * (charsOnLine + 1) + r < |Wrapped(text, charsOnLine)|
    ensures Wrapped(text, charsOnLine)[q * (charsOnLine + 1) + r] == text[q * charsOnLine + r]
    decreases q
  {
    if q == 0 {
      WrappedHead(text, charsOnLine, r);
    } else {
      var rest := text[charsOnLine..];
      ghost var below, shown := (q - 1) * charsOnLine, (q - 1) * (charsOnLine + 1);
      assert q * charsOnLine == below + charsOnLine by { MonospaceRows.MulStep(q, charsOnLine); }
      assert q * (charsOnLine + 1) == shown + charsOnLine + 1 by { MonospaceRows.MulStep(q, charsOnLine + 1); }
      assert below >= 0 by { MonospaceRows.MultipleMonotone(0, q - 1, charsOnLine); }
      WrappedShowsCell(rest, charsOnLine, q - 1, r);
      WrappedAfterHead(text, charsOnLine, shown + r);
      assert rest[below + r] == text[q * charsOnLine + r];
    }
  }

  /**
   * Character k is shown at index `k + k / charsOnLine` of the wrapped
   * text, the index `Draw` moves its overrides to.
   */
  lemma WrappedShows(text: string, charsOnLine: nat, k: int)
    requires charsOnLine > 0 && 0 <= k < |text|
    ensures k + k / charsOnLine < |Wrapped(text, charsOnLine)|
    ensures Wrapped(text, charsOnLine)[k + k / charsOnLine] == text[k]
  {
    var q, r := k / charsOnLine, k % charsOnLine;
    assert k == q * charsOnLine + r;
    MonospaceRows.MulSucc(q, charsOnLine);
    WrappedShowsCell(text, charsOnLine, q, r);
  }

  /** `j * d` as repeated addition, which keeps the proofs about sublines linear. */
  function Times(j: nat, d: nat): nat
  {
    if j == 0 then 0 else Times(j - 1, d) + d
  }

  lemma {:induction false} TimesIsProduct(j: nat, d: nat)
    ensures Times(j, d) == j * d
  {
    if j > 0 {
      TimesIsProduct(j - 1, d);
      MonospaceRows.MulStep(j, d);
    }
  }

  /** After j whole sublines the wrapped text holds a `'\n'`, at `Times(j, charsOnLine) + j - 1`. */
  lemma {:induction false} WrappedBreakAfter(text: string, charsOnLine: nat, j: nat)
    requires charsOnLine > 0 && 1 <= j && Times(j, charsOnLine) < |text|
    ensures Times(j, charsOnLine) + j - 1 < |Wrapped(text, charsOnLine)|
    ensures Wrapped(text, charsOnLine)[Times(j, charsOnLine) + j - 1] == '\n'
    decreases j
  {
    var rest := text[charsOnLine..];
    if j > 1 {
      WrappedBreakAfter(rest, charsOnLine, j - 1);
      WrappedAfterHead(text, charsOnLine, Times(j - 1, charsOnLine) + j - 2);
    } else {
      var head := text[..charsOnLine] + "\n";
      assert Wrapped(text, charsOnLine) == head + Wrapped(rest, charsOnLine);
      assert Wrapped(text, charsOnLine)[charsOnLine] == head[charsOnLine];
    }
  }

  /** Subline j (from 1) starts at `j * (charsOnLine + 1)`, right after a `'\n'`. */
  lemma WrappedBreak(text: string, charsOnLine: nat, j: nat)
    requires charsOnLine > 0 && 1 <= j && j * charsOnLine < |text|
    ensures j * (charsOnLine + 1) - 1 < |Wrapped(text, charsOnLine)|
    ensures Wrapped(text, charsOnLine)[j * (charsOnLine + 1) - 1] == '\n'
  {
    TimesIsProduct(j, charsOnLine);
    MonospaceRows.MulSucc(j, charsOnLine);
    WrappedBreakAfter(text, charsOnLine, j);
  }

  /** Where `Draw`'s `newLinesAt` says each subline starts: subline j at `j * (charsOnLine + 1)`. */
  function LineStarts(length: nat, charsOnLine: nat): (r: seq<int>)
    requires charsOnLine > 0
    ensures |r| == Sublines(length, charsOnLine)
    ensures forall j :: 0 <= j < |r| ==> r[j] == j * (charsOnLine + 1)
  {
    seq(Sublines(length, charsOnLine), j => j * (charsOnLine + 1))
  }

  /** Every subline start but the first follows a `'\n'` of the wrapped text. */
  lemma LineStartsFollowBreaks(text: string, charsOnLine: nat, j: nat)
    requires charsOnLine > 0 && 1 <= j < Sublines(|text|, charsOnLine)
    ensures var starts := LineStarts(|text|, charsOnLine);
            starts[j] - 1 < |Wrapped(text, charsOnLine)| && Wrapped(text, charsOnLine)[starts[j] - 1] == '\n'
  {
    var q := (|text| - 1) / charsOnLine;
    assert j <= q;
    assert q * charsOnLine <= |text| - 1;
    MonospaceRows.MultipleMonotone(j, q, charsOnLine);
    WrappedBreak(text, charsOnLine, j);
  }

  /** One more subline start, `j * (charsOnLine + 1)` for the j-th. */
  lemma StartsAppended(starts: seq<int>, next: int, charsOnLine: nat)
    requires forall j :: 0 <= j < |starts| ==> starts[j] == j * (charsOnLine + 1)
    requires next == (|starts| - 1) * (charsOnLine + 1) + charsOnLine + 1
    ensures forall j :: 0 <= j < |starts| + 1 ==> (starts + [next])[j] == j * (charsOnLine + 1)
  {
    MonospaceRows.MulStep(|starts|, charsOnLine + 1);
  }

  /** After `lines` whole sublines, the next (possibly partial) subline is wrapped after a `'\n'`. */
  lemma WrappedNextLine(text: string, charsOnLine: nat, lines: nat, consumed: nat, take: nat)
    requires charsOnLine > 0 && lines >= 1 && consumed == lines * charsOnLine
    requires take == Min(charsOnLine, |text| - consumed) && consumed < |text|
    ensures Wrapped(text[..consumed], charsOnLine) + "\n" + text[consumed..consumed + take]
            == Wrapped(text[..consumed + take], charsOnLine)
  {
    var chunk := text[consumed..consumed + take];
    WrappedAppend(text[..consumed], chunk, charsOnLine, lines);
    assert text[..consumed] + chunk == text[..consumed + take];
  }

  /**
   * The wrapping loop of `Draw` (lines 43-58): the laid-out text and
   * `newLinesAt`, the index at which each subline starts. The source loops
   * for ever when no character fits on a line and there are two or more.
   */
  method WrapText(text: string, charsOnLine: nat) returns (wrapped: string, newLinesAt: seq<int>)
    requires charsOnLine > 0
    ensures wrapped == Wrapped(text, charsOnLine)
    ensures |newLinesAt| == Sublines(|text|, charsOnLine)
    ensures forall j :: 0 <= j < |newLinesAt| ==> newLinesAt[j] == j * (charsOnLine + 1)
  {
    newLinesAt := [0];
    wrapped := text;
    if |text| > 1 {
      var result := text[..Min(charsOnLine, |text|)];
      var counter := 0;
      ghost var lineEnd := charsOnLine;
      while |result| - counter < |text|
        invariant 0 <= counter <= |result|
        invariant lineEnd == (counter + 1) * charsOnLine
        invariant lineEnd - charsOnLine < |text|
        invariant |result| - counter == Min(|text|, lineEnd)
        invariant result == Wrapped(text[..|result| - counter], charsOnLine)
        invariant |newLinesAt| == counter + 1
        invariant forall j :: 0 <= j < |newLinesAt| ==> newLinesAt[j] == j * (charsOnLine + 1)
        decreases |text| - (|result| - counter)
      {
        var consumed := |result| - counter;
        result := result + "\n";
        StartsAppended(newLinesAt, |result|, charsOnLine);
        newLinesAt := newLinesAt + [|result|];
        counter := counter + 1;
        var take := Min(charsOnLine, |text| - consumed);
        WrappedNextLine(text, charsOnLine, counter, consumed, take);
        result := result + text[consumed..consumed + take];
        lineEnd := lineEnd + charsOnLine;
        assert lineEnd == (counter + 1) * charsOnLine by { MonospaceRows.MulStep(counter + 1, charsOnLine); }
      }
      assert text[..|text|] == text;
      assert Sublines(|text|, charsOnLine) == counter + 1 by {
        assert counter * charsOnLine == lineEnd - charsOnLine by { MonospaceRows.MulStep(counter + 1, charsOnLine); }
        MonospaceRows.DivisionUnique(|text| - 1, charsOnLine, counter, |text| - 1 - counter * charsOnLine);
      }
      wrapped := result;
    } else {
      assert |text| <= charsOnLine;
    }
  }

  // ---------------------------------------------------------------------
  // Selection and colours (Draw, lines 60-98)

  /** `Math.Max(0, Math.Min(length, i))`: this row clamps to the text's length, not its last index. */
  function ClampIndex(i: int, length: nat): int
  {
    Max(0, Min(length, i))
  }

  /**
   * The selected range `[start, end)` of the wrapped text (lines 66-86):
   * rows capped at the last subline, both corners swapped for `NW`, the
   * indices ordered and clamped. The rows must not be negative: the source
   * indexes `newLinesAt` with them.
   */
  function SelectionRange(textLength: nat, newLinesAt: seq<int>, cells: MonospaceRows.SelectedCells,
                          direction: MonospaceRows.SelectionDirection): (r: (int, int))
    requires |newLinesAt| >= 1
    requires cells.firstSubrow >= 0 && cells.lastSubrow >= 0
    ensures 0 <= r.0 <= r.1 <= textLength
  {
    var lastSubline := |newLinesAt| - 1;
    var fs0, ls0 := Min(lastSubline, cells.firstSubrow), Min(lastSubline, cells.lastSubrow);
    var nw := direction == MonospaceRows.NW;
    var fs, ls := if nw then ls0 else fs0, if nw then fs0 else ls0;
    var fc, lc := if nw then cells.lastColumn else cells.firstColumn, if nw then cells.firstColumn else cells.lastColumn;
    var a, b := fc + newLinesAt[fs], lc + newLinesAt[ls];
    (ClampIndex(Min(a, b), textLength), ClampIndex(Max(a, b), textLength))
  }

  /**
   * The direction does not matter: the `NW` swap is undone by the ordering
   * of the two indices.
   */
  lemma SelectionRangeSymmetric(textLength: nat, newLinesAt: seq<int>, cells: MonospaceRows.SelectedCells,
                                d1: MonospaceRows.SelectionDirection, d2: MonospaceRows.SelectionDirection)
    requires |newLinesAt| >= 1
    requires cells.firstSubrow >= 0 && cells.lastSubrow >= 0
    ensures SelectionRange(textLength, newLinesAt, cells, d1) == SelectionRange(textLength, newLinesAt, cells, d2)
  {
  }

  /** What the selection loop writes into a cell: one colour, or the cell's foreground override lightened (black without one). */
  datatype Paint = Uniform(color: Color) | LightenedOverride(overrides: map<int, Color>)

  function PaintOf(p: Paint, cell: int): Color
  {
    match p
    case Uniform(c) => c
    case LightenedOverride(fg) => if cell in fg then SelectionLightened(fg[cell]) else Black
  }

  /** `m` after a loop that paints the cells `start` up to, but not including, `end` in turn. */
  function RangePainted(m: map<int, Color>, start: int, end: int, p: Paint): map<int, Color>
    decreases end - start
  {
    if end <= start then m else RangePainted(m, start, end - 1, p)[end - 1 := PaintOf(p, end - 1)]
  }

  /** Painting `[start, end)` writes every cell of it and leaves every other entry as it was. */
  lemma {:induction false} RangePaintedAt(m: map<int, Color>, start: int, end: int, p: Paint, k: int)
    decreases end - start
    ensures var r := RangePainted(m, start, end, p);
            (start <= k < end ==> k in r && r[k] == PaintOf(p, k))
            && (!(start <= k < end) ==> (k in r <==> k in m) && (k in m ==> r[k] == m[k]))
  {
    if start < end {
      RangePaintedAt(m, start, end - 1, p, k);
    }
  }

  /** The selection loop (lines 88-92) over the two colour maps. */
  method PaintSelection(foregrounds: map<int, Color>, backgrounds: map<int, Color>, fgPaint: Paint, bgPaint: Paint, start: int, end: int)
    returns (fg: map<int, Color>, bg: map<int, Color>)
    ensures fg == RangePainted(foregrounds, start, end, fgPaint)
    ensures bg == RangePainted(backgrounds, start, end, bgPaint)
  {
    fg, bg := foregrounds, backgrounds;
    var i := start;
    while i < end
      invariant start <= i <= Max(start, end)
      invariant fg == RangePainted(foregrounds, start, i, fgPaint)
      invariant bg == RangePainted(backgrounds, start, i, bgPaint)
    {
      fg := fg[i := PaintOf(fgPaint, i)];
      bg := bg[i := PaintOf(bgPaint, i)];
      i := i + 1;
    }
  }

  /**
   * The selected text and the two colour maps `Draw` computes (lines
   * 60-98): the overrides moved to their wrapped-text indices and, with a
   * selection, the range `[start, end)` painted.
   */
  function Drawn(content: string, fg: map<int, Color>, bg: map<int, Color>, charsOnLine: nat,
                 selection: Option<MonospaceRows.SelectedCells>, direction: MonospaceRows.SelectionDirection)
    : (r: (Option<string>, map<int, Color>, map<int, Color>))
    requires charsOnLine > 0
    requires (forall k :: k in fg ==> k >= 0) && (forall k :: k in bg ==> k >= 0)
    requires selection.Some? ==> selection.value.firstSubrow >= 0 && selection.value.lastSubrow >= 0
  {
    var shiftedFg, shiftedBg := MonospaceRows.WrappedKeys(fg, charsOnLine), MonospaceRows.WrappedKeys(bg, charsOnLine);
    if selection.None? then (None, shiftedFg, shiftedBg)
    else
      var text := Wrapped(content, charsOnLine);
      var range := SelectionRange(|text|, LineStarts(|content|, charsOnLine), selection.value, direction);
      (Some(text[range.0..range.1]),
       RangePainted(shiftedFg, range.0, range.1, LightenedOverride(fg)),
       RangePainted(shiftedBg, range.0, range.1, Uniform(LightSlateGray)))
  }

  /**
   * What `Draw` colours character k with: when its wrapped index is
   * selected, the selection colours, where the foreground override is
   * looked up by the wrapped index itself; otherwise its own overrides,
   * moved to that index.
   */
  lemma DrawnColorsOfCharacter(content: string, fg: map<int, Color>, bg: map<int, Color>, charsOnLine: nat,
                               selection: Option<MonospaceRows.SelectedCells>, direction: MonospaceRows.SelectionDirection, k: int)
    requires charsOnLine > 0 && k >= 0
    requires (forall k :: k in fg ==> k >= 0) && (forall k :: k in bg ==> k >= 0)
    requires selection.Some? ==> selection.value.firstSubrow >= 0 && selection.value.lastSubrow >= 0
    ensures var w := k + k / charsOnLine;
            var d := Drawn(content, fg, bg, charsOnLine, selection, direction);
            var selected := selection.Some? &&
              var range := SelectionRange(|Wrapped(content, charsOnLine)|, LineStarts(|content|, charsOnLine), selection.value, direction);
              range.0 <= w < range.1;
            (selected ==> w in d.1 && d.1[w] == (if w in fg then SelectionLightened(fg[w]) else Black)
                          && w in d.2 && d.2[w] == LightSlateGray)
            && (!selected ==> (w in d.1 <==> k in fg) && (k in fg ==> d.1[w] == fg[k])
                              && (w in d.2 <==> k in bg) && (k in bg ==> d.2[w] == bg[k]))
  {
    DrawnColorsAt(content, fg, bg, charsOnLine, selection, direction, k, MonospaceRows.WrappedIndex(k, charsOnLine));
  }

  /** `DrawnColorsOfCharacter` with the wrapped index `w` of character k named. */
  lemma DrawnColorsAt(content: string, fg: map<int, Color>, bg: map<int, Color>, charsOnLine: nat,
                      selection: Option<MonospaceRows.SelectedCells>, direction: MonospaceRows.SelectionDirection, k: int, w: int)
    requires charsOnLine > 0 && k >= 0 && w == MonospaceRows.WrappedIndex(k, charsOnLine)
    requires (forall k :: k in fg ==> k >= 0) && (forall k :: k in bg ==> k >= 0)
    requires selection.Some? ==> selection.value.firstSubrow >= 0 && selection.value.lastSubrow >= 0
    ensures var d := Drawn(content, fg, bg, charsOnLine, selection, direction);
            var selected := selection.Some? &&
              var range := SelectionRange(|Wrapped(content, charsOnLine)|, LineStarts(|content|, charsOnLine), selection.value, direction);
              range.0 <= w < range.1;
            (selected ==> w in d.1 && d.1[w] == (if w in fg then SelectionLightened(fg[w]) else Black)
                          && w in d.2 && d.2[w] == LightSlateGray)
            && (!selected ==> (w in d.1 <==> k in fg) && (k in fg ==> d.1[w] == fg[k])
                              && (w in d.2 <==> k in bg) && (k in bg ==> d.2[w] == bg[k]))
  {
    MonospaceRows.WrappedKeysAt(fg, charsOnLine, k);
    MonospaceRows.WrappedKeysAt(bg, charsOnLine, k);
    if selection.Some? {
      var text := Wrapped(content, charsOnLine);
      var range := SelectionRange(|text|, LineStarts(|content|, charsOnLine), selection.value, direction);
      var fgPainted := RangePainted(MonospaceRows.WrappedKeys(fg, charsOnLine), range.0, range.1, LightenedOverride(fg));
      var bgPainted := RangePainted(MonospaceRows.WrappedKeys(bg, charsOnLine), range.0, range.1, Uniform(LightSlateGray));
      assert Drawn(content, fg, bg, charsOnLine, selection, direction) == (Some(text[range.0..range.1]), fgPainted, bgPainted);
      RangePaintedAt(MonospaceRows.WrappedKeys(fg, charsOnLine), range.0, range.1, LightenedOverride(fg), w);
      RangePaintedAt(MonospaceRows.WrappedKeys(bg, charsOnLine), range.0, range.1, Uniform(LightSlateGray), w);
    }
  }

  /**
   * `DrawCursor`'s cell (lines 113-118): the column and the subline of
   * `offset` on lines of `maxOffset` characters, with C#'s truncating `%`
   * and `/`. A zero `MaxOffset` throws `DivideByZeroException`.
   */
  function CursorCell(offset: int, maxOffset: int): (cell: (int, int))
    requires maxOffset != 0
    ensures offset == cell.1 * maxOffset + cell.0
    ensures 0 <= offset && 0 < maxOffset ==> 0 <= cell.0 < maxOffset && 0 <= cell.1
  {
    var column := CSharpInt.Mod(offset, maxOffset);
    var row := CSharpInt.Div(offset, maxOffset);
    (column, row)
  }

  class TextRow {
    var content: string
    var specialForegrounds: map<int, Color>
    var specialBackgrounds: map<int, Color>
    var selectedContent: Option<string>
    var maxOffset: int
    var metrics: Metrics

    /** The newline check of DEBUG builds is not modelled. */
    constructor (content: string)
      ensures this.content == content && specialForegrounds == map[] && specialBackgrounds == map[]
      ensures selectedContent == None && maxOffset == 0 && metrics == Unmeasured
    {
      this.content := content;
      specialForegrounds, specialBackgrounds := map[], map[];
      selectedContent := None;
      maxOffset := 0;
      metrics := Unmeasured;
    }

    /**
     * `PrepareForDrawing` (lines 29-37): `MaxOffset` is the number of
     * characters a line holds, and the height is one line per
     * `lineWidth` of character width, at least one line.
     */
    method PrepareForDrawing(m: Metrics) returns (height: int)
      requires Measured(m) && m.lineWidth > 0
      modifies this
      ensures metrics == m && maxOffset == m.lineWidth / m.charWidth
      ensures height == m.lineHeight * CSharpInt.DivCeil(Max(|content|, 1) * m.charWidth, m.lineWidth)
      ensures content == old(content) && specialForegrounds == old(specialForegrounds)
      ensures specialBackgrounds == old(specialBackgrounds) && selectedContent == old(selectedContent)
    {
      metrics := m;
      maxOffset := m.lineWidth / m.charWidth;
      height := m.lineHeight * CSharpInt.DivCeil(Max(|content|, 1) * m.charWidth, m.lineWidth);
    }

    /**
     * `Erase` (lines 137-163): `to` is capped at the last character, and
     * every index from `from` through it becomes a space and loses its
     * foreground, while its background is set to the colour given or
     * removed. A negative `from` throws on the first write, before anything
     * has changed.
     */
    method Erase(from: int, to: int, background: Option<Color>) returns (thrown: bool)
      modifies this
      ensures var last := Min(to, |old(content)| - 1);
              thrown <==> from < 0 && from <= last
      ensures thrown ==> content == old(content) && specialForegrounds == old(specialForegrounds)
                         && specialBackgrounds == old(specialBackgrounds)
      ensures !thrown ==>
                var last := Min(to, |old(content)| - 1);
                content == Blanked(old(content), from, last)
                && specialForegrounds == old(specialForegrounds) - MonospaceRows.Span(from, last)
                && specialBackgrounds == MonospaceRows.ErasedBackgrounds(old(specialBackgrounds), from, last, background)
      ensures selectedContent == old(selectedContent) && maxOffset == old(maxOffset) && metrics == old(metrics)
    {
      var builder := content;
      var last := Min(to, |content| - 1);
      var foregrounds, backgrounds := specialForegrounds, specialBackgrounds;
      var i := from;
      MonospaceRows.SpanEmpty(from, from - 1);
      while i <= last
        modifies {}
        invariant from <= i <= Max(from, last + 1)
        invariant i == from || 0 <= from
        invariant |builder| == |content|
        invariant forall k :: 0 <= k < |builder| ==> builder[k] == if from <= k < i then ' ' else content[k]
        invariant foregrounds == specialForegrounds - MonospaceRows.Span(from, i - 1)
        invariant backgrounds == MonospaceRows.ErasedBackgrounds(specialBackgrounds, from, i - 1, background)
      {
        if i < 0 || i >= |builder| {
          // the indexer of `StringBuilder` refuses the index
          return true;
        }
        builder := builder[i := ' '];
        MonospaceRows.SpanNext(from, i);
        if background.Some? {
          backgrounds := backgrounds[i := background.value];
        } else {
          backgrounds := backgrounds - {i};
        }
        foregrounds := foregrounds - {i};
        i := i + 1;
      }
      assert builder == Blanked(content, from, last);
      content, specialForegrounds, specialBackgrounds := builder, foregrounds, backgrounds;
      thrown := false;
    }

    /**
     * `InsertCharacterAt` (lines 165-200): the overrides at `x` are set to
     * the colours given or removed, then the text is padded with spaces up
     * to `x` and `what` is put there. A negative `x` is refused as the
     * builder's capacity, after the overrides have changed.
     */
    method InsertCharacterAt(x: int, what: char, foreground: Option<Color>, background: Option<Color>) returns (thrown: bool)
      modifies this
      ensures specialForegrounds == MonospaceRows.UpdateOverride(old(specialForegrounds), x, foreground)
      ensures specialBackgrounds == MonospaceRows.UpdateOverride(old(specialBackgrounds), x, background)
      ensures thrown <==> x < 0
      ensures content == if x < 0 then old(content) else Inserted(old(content), x, what)
      ensures selectedContent == old(selectedContent) && maxOffset == old(maxOffset) && metrics == old(metrics)
    {
      if foreground.Some? {
        specialForegrounds := specialForegrounds[x := foreground.value];
      } else {
        specialForegrounds := specialForegrounds - {x};
      }
      if background.Some? {
        specialBackgrounds := specialBackgrounds[x := background.value];
      } else {
        specialBackgrounds := specialBackgrounds - {x};
      }
      if x < 0 {
        return true;
      }
      var builder := content;
      var i := |builder|;
      while i <= x
        invariant |content| <= i <= Max(|content|, x + 1)
        invariant builder == content + Blanks(i - |content|)
      {
        builder := builder + [' '];
        i := i + 1;
      }
      builder := builder[x := what];
      if |content| <= x {
        assert builder == content + Blanks(x - |content|) + [what];
      }
      content := builder;
      thrown := false;
    }

    /** The `Content` setter stores the text as given; the getter is the field. */
    method SetContent(value: string)
      modifies this
      ensures content == value
      ensures specialForegrounds == old(specialForegrounds) && specialBackgrounds == old(specialBackgrounds)
      ensures selectedContent == old(selectedContent) && maxOffset == old(maxOffset) && metrics == old(metrics)
    {
      content := value;
    }

    /** The characters a line holds: `Math.Floor(lineSize.Width / charWidth)`. */
    function CharsOnLine(): int
      reads this
      requires metrics.charWidth > 0
    {
      metrics.lineWidth / metrics.charWidth
    }

    /**
     * `Draw` (lines 39-111): lays the text out with `WrapText`, moves the
     * overrides to their wrapped-text indices, paints the selected range
     * `[start, end)` and keeps its text for the clipboard. The colour maps
     * are what `GetColorRanges` (lines 231-244, the same code as
     * `ColorRanges.GetColorRanges`) groups into runs. At least one
     * character must fit on a line, and override keys must not be
     * negative.
     */
    method Draw(selection: Option<MonospaceRows.SelectedCells>, direction: MonospaceRows.SelectionDirection)
      returns (text: string, foregroundColors: map<int, Color>, backgroundColors: map<int, Color>)
      requires Measured(metrics) && CharsOnLine() > 0
      requires forall k :: k in specialForegrounds ==> k >= 0
      requires forall k :: k in specialBackgrounds ==> k >= 0
      requires selection.Some? ==> selection.value.firstSubrow >= 0 && selection.value.lastSubrow >= 0
      modifies this`selectedContent
      ensures text == Wrapped(content, CharsOnLine())
      ensures (selectedContent, foregroundColors, backgroundColors)
              == Drawn(content, specialForegrounds, specialBackgrounds, CharsOnLine(), selection, direction)
    {
      var charsOnLine := metrics.lineWidth / metrics.charWidth;
      var newLinesAt;
      text, newLinesAt := WrapText(content, charsOnLine);
      assert newLinesAt == LineStarts(|content|, charsOnLine);
      foregroundColors := MonospaceRows.WrappedKeys(specialForegrounds, charsOnLine);
      backgroundColors := MonospaceRows.WrappedKeys(specialBackgrounds, charsOnLine);
      if selection.Some? {
        var range := SelectionRange(|text|, newLinesAt, selection.value, direction);
        foregroundColors, backgroundColors :=
          PaintSelection(foregroundColors, backgroundColors, LightenedOverride(specialForegrounds), Uniform(LightSlateGray), range.0, range.1);
        selectedContent := Some(text[range.0..range.1]);
      } else {
        selectedContent := None;
      }
    }

    /** `FillClipboardData`: the selected text, when there is one, becomes one more clipboard row. */
    method FillClipboardData(data: LegacyClipboard.ClipboardData)
      modifies data
      ensures data.rows == old(data.rows) + (if selectedContent.Some? then [selectedContent.value] else [])
    {
      if selectedContent.Some? {
        data.AppendText(selectedContent.value);
      }
    }
  }

  /**
   * When the line width is a whole number of characters, the height
   * `PrepareForDrawing` gives is one line height per subline `Draw` lays
   * out.
   */
  lemma PreparedLinesAreSublines(length: nat, m: Metrics)
    requires Measured(m) && m.lineWidth > 0 && m.lineWidth % m.charWidth == 0
    ensures CSharpInt.DivCeil(Max(length, 1) * m.charWidth, m.lineWidth) == Sublines(length, m.lineWidth / m.charWidth)
  {
    var c, cw, n := m.lineWidth / m.charWidth, m.charWidth, Max(length, 1);
    assert m.lineWidth == c * cw;
    assert c > 0;
    var q := Sublines(length, c);
    SublinesTight(length, c);
    SublinesFitScaled(n, c, cw, q);
    CeilingUnique(n * cw, m.lineWidth, CSharpInt.DivCeil(n * cw, m.lineWidth), q);
  }

  /** `Sublines` is the ceiling of the length (at least 1) over the line's characters. */
  lemma SublinesTight(length: nat, c: nat)
    requires c > 0
    ensures (Sublines(length, c) - 1) * c < Max(length, 1) <= Sublines(length, c) * c
  {
    var n, q := Max(length, 1), Sublines(length, c);
    var rem := (n - 1) % c;
    assert n - 1 == (q - 1) * c + rem && 0 <= rem < c;
    MonospaceRows.MulStep(q, c);
  }

  /** `q` sublines of `c` characters hold `n` characters tightly, also when every character is `cw` wide. */
  lemma SublinesFitScaled(n: int, c: int, cw: int, q: int)
    requires c > 0 && cw > 0 && (q - 1) * c < n <= q * c
    ensures (q - 1) * (c * cw) < n * cw <= q * (c * cw)
  {
    ghost var below := (q - 1) * c;
    MonospaceRows.MultipleMonotone(below + 1, n, cw);
    MonospaceRows.MultipleMonotone(n, q * c, cw);
    assert (below + 1) * cw == below * cw + cw;
    assert below * cw == (q - 1) * (c * cw);
    assert (q * c) * cw == q * (c * cw);
  }

  /** Two block counts that both fit `dividend` tightly are equal. */
  lemma CeilingUnique(dividend: int, divisor: int, q1: int, q2: int)
    requires divisor > 0
    requires (q1 - 1) * divisor < dividend <= q1 * divisor
    requires (q2 - 1) * divisor < dividend <= q2 * divisor
    ensures q1 == q2
  {
    if q1 < q2 {
      MonospaceRows.MultipleMonotone(q1, q2 - 1, divisor);
    } else if q2 < q1 {
      MonospaceRows.MultipleMonotone(q2, q1 - 1, divisor);
    }
  }
}
