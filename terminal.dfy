/**
 * The row buffer of `Terminal` (Terminal.cs): the list of rows, the height
 * map that says where each row ends, the rows on screen (those of the last
 * page), erasing screen rows, and collecting the selected text. The widget
 * around it (canvas, scrollbar, mouse, focus, autoscroll) is not modelled;
 * of the scrollbar only its page size is kept, and the canvas is its height.
 * The font is measured once: every row is prepared with the same metrics.
 */
module Terminals {
  import opened Wrappers
  import opened Positions
  import opened RowMetrics
  import opened HeightMaps
  import Colors
  import Clipboard
  import MonospaceRows
  import ImageRows
  import TerminalCursor

  /** `IRow`: a row of text or a picture. */
  datatype Row = Text(text: MonospaceRows.MonospaceTextRow) | Image(image: ImageRows.ImageRow)

  function ObjectOf(r: Row): object
  {
    match r
    case Text(t) => t
    case Image(i) => i
  }

  ghost predicate RowValid(r: Row)
    reads ObjectOf(r)
  {
    match r
    case Text(t) => t.Valid()
    case Image(i) => i.Valid()
  }

  /** A row prepared with `m`: it knows its last column and takes at least one line. */
  ghost predicate RowReady(r: Row, m: Metrics)
    reads ObjectOf(r)
  {
    Measured(m) && RowValid(r)
    && match r
       case Text(t) => t.metrics == m && t.lineCount >= 1 && t.maximalColumn == MaximalColumnOf(m)
       case Image(i) => i.lineHeight == m.lineHeight && i.sublineCount >= 1 && i.maximalColumn == MaximalColumnOf(m)
  }

  function SublineCountOf(r: Row): int
    reads ObjectOf(r)
  {
    match r
    case Text(t) => t.SublineCount()
    case Image(i) => i.SublineCount()
  }

  function MaximalCursorPositionOf(r: Row): (p: int)
    reads ObjectOf(r)
    requires RowValid(r)
    ensures p >= 0
  {
    match r
    case Text(t) => t.CurrentMaximalCursorPosition()
    case Image(i) => i.CurrentMaximalCursorPosition()
  }

  /** What a row adds to the clipboard: a text row's selected text, if any. */
  ghost function SelectionOf(r: Row): seq<string>
    reads ObjectOf(r)
  {
    match r
    case Text(t) => if t.selectedContent.Some? then [t.selectedContent.value] else []
    case Image(_) => []
  }

  /** A row after which a rebuild reads its stopwatch: every 1000th, from row 1. */
  predicate Checkpoint(i: int)
  {
    i % 1000 == 1
  }

  /**
   * The time budget held for the first `rowCount` rows of a rebuild: the
   * stopwatch is read after each checkpoint row, and
   * `overBudget` holds the rows after which it has run past the budget.
   */
  predicate InBudget(rowCount: int, overBudget: set<int>)
    decreases rowCount
  {
    rowCount <= 0
    || (InBudget(rowCount - 1, overBudget) && !(Checkpoint(rowCount - 1) && rowCount - 1 in overBudget))
  }

  /** A budget held for some rows was held for every shorter prefix of them. */
  lemma {:induction false} InBudgetPrefix(shorter: int, rowCount: int, overBudget: set<int>)
    requires shorter <= rowCount && InBudget(rowCount, overBudget)
    ensures InBudget(shorter, overBudget)
    decreases rowCount - shorter
  {
    if shorter < rowCount {
      InBudgetPrefix(shorter, rowCount - 1, overBudget);
    }
  }

  /** The budget holds exactly when no checkpoint row among the first `rowCount` is over it. */
  lemma {:induction false} InBudgetMeans(rowCount: int, overBudget: set<int>)
    ensures InBudget(rowCount, overBudget) <==> forall i :: 0 <= i < rowCount && Checkpoint(i) ==> i !in overBudget
    decreases rowCount
  {
    if rowCount > 0 {
      InBudgetMeans(rowCount - 1, overBudget);
    }
  }

  /**
   * The map a rebuild writes into: the unfinished map of an earlier rebuild
   * when it has one entry per row, else a new map of zeros.
   */
  function StartingMap(unfinished: Option<seq<int>>, count: nat): (m: seq<int>)
    ensures |m| == count
  {
    if unfinished.Some? && |unfinished.value| == count then unfinished.value else seq(count, _ => 0)
  }

  /** `IRow.PrepareForDrawing` on either kind of row, with the terminal's metrics. */
  method PrepareRow(r: Row, m: Metrics, selectionColor: Colors.Color) returns (height: int)
    requires RowValid(r) && Measured(m) && m.lineWidth > 0
    modifies ObjectOf(r)
    ensures RowReady(r, m)
    ensures height == m.lineHeight * SublineCountOf(r) && height >= m.lineHeight
    ensures TextKept(r) && LinesCounted(r)
  {
    match r
    case Text(t) =>
      height := t.PrepareForDrawing(m, selectionColor);
      MonospaceRows.LineCountHoldsRow(|t.content|, t.minimalSublineCount, t.maximalColumn + 1);
      MonospaceRows.MultipleAtLeast(t.lineCount, m.lineHeight);
    case Image(i) =>
      height := i.PrepareForDrawing(m);
  }

  /** A prepared text row takes as many sublines as its content needs, never fewer than its floor. */
  ghost predicate LinesCounted(r: Row)
    reads ObjectOf(r)
  {
    r.Text? && r.text.maximalColumn >= 0 ==>
      r.text.lineCount == MonospaceRows.LineCountFor(|r.text.content|, r.text.minimalSublineCount, r.text.maximalColumn + 1)
  }

  /** `AppendRow` prepares the row twice; the second height is the one it keeps. */
  method PrepareTwice(r: Row, m: Metrics, selectionColor: Colors.Color) returns (height: int)
    requires RowValid(r) && Measured(m) && m.lineWidth > 0
    modifies ObjectOf(r)
    ensures RowReady(r, m) && height == m.lineHeight * SublineCountOf(r) && height >= m.lineHeight
    ensures TextKept(r) && LinesCounted(r)
  {
    var _ := PrepareRow(r, m, selectionColor);
    height := PrepareRow(r, m, selectionColor);
  }

  /** A text row's text, colour overrides and selection; nothing for a picture. */
  datatype RowText =
    | RowText(content: seq<MonospaceRows.Element>, minimalSublineCount: int,
              foregrounds: map<int, Colors.Color>, backgrounds: map<int, Colors.Color>, selected: Option<string>)
    | NoText

  ghost function TextOf(r: Row): RowText
    reads ObjectOf(r)
  {
    match r
    case Text(t) => RowText(t.content, t.minimalSublineCount, t.specialForegrounds, t.specialBackgrounds, t.selectedContent)
    case Image(_) => NoText
  }

  /** Preparing a row for drawing keeps its text, its colour overrides and its selection. */
  twostate predicate TextKept(r: Row)
    reads ObjectOf(r)
  {
    TextOf(r) == old(TextOf(r))
  }

  /**
   * A text row's text once `PutCharacterAt(position, what, foreground,
   * background)` has run on it: the element placed, both overrides of the
   * cell set or cleared; a picture has none.
   */
  function PutText(t: RowText, position: nat, what: MonospaceRows.Element,
                   foreground: Option<Colors.Color>, background: Option<Colors.Color>): RowText
  {
    match t
    case RowText(c, minimal, fg, bg, selected) =>
      RowText(MonospaceRows.PutContent(c, position, what), minimal, MonospaceRows.UpdateOverride(fg, position, foreground),
              MonospaceRows.UpdateOverride(bg, position, background), selected)
    case NoText => NoText
  }

  /** Every field of a row's object that can change. */
  datatype RowState =
    | TextState(content: seq<MonospaceRows.Element>, minimalSublineCount: int, lineCount: int, maximalColumn: int,
                metrics: Metrics, selectionColor: Colors.Color,
                foregrounds: map<int, Colors.Color>, backgrounds: map<int, Colors.Color>,
                selected: Option<string>, cursorInRow: Option<int>)
    | ImageState(sublineCount: int, maximalColumn: int, lineHeight: nat)

  /** The row states `states0` kept, and every state after them that of an empty text row. */
  ghost predicate StatesGrown(states0: seq<RowState>, states1: seq<RowState>)
  {
    |states0| <= |states1| && (forall k :: 0 <= k < |states0| ==> states1[k] == states0[k])
    && forall k :: |states0| <= k < |states1| ==> states1[k].TextState? && states1[k].content == []
  }

  ghost function StateOf(r: Row): RowState
    reads ObjectOf(r)
  {
    match r
    case Text(t) =>
      TextState(t.content, t.minimalSublineCount, t.lineCount, t.maximalColumn, t.metrics, t.selectionColor,
                t.specialForegrounds, t.specialBackgrounds, t.selectedContent, t.cursorInRow)
    case Image(i) => ImageState(i.sublineCount, i.maximalColumn, i.lineHeight)
  }

  /**
   * One `IRow.Erase(from, to, background)`: a text row is blanked over
   * `[from, to)`, loses its overrides over `[from, to]` (from clamped to
   * the row) and gets `background` there if one is given, as
   * `MonospaceTextRow.Erase` states, and holds its subline count; a
   * picture is left alone.
   */
  function ErasedState(s: RowState, from: int, to: nat, background: Option<Colors.Color>): RowState
  {
    match s
    case TextState(c, _, lineCount, _, _, _, fg, bg, _, _) =>
      var f := MonospaceRows.ClampFrom(from, |c|);
      s.(content := MonospaceRows.ErasedContent(c, from, to), minimalSublineCount := lineCount,
         foregrounds := fg - MonospaceRows.Span(f, to),
         backgrounds := MonospaceRows.ErasedBackgrounds(bg, f, to, background))
    case ImageState(_, _, _) => s
  }

  twostate predicate ErasedOnce(r: Row, from: int, to: nat, background: Option<Colors.Color>)
    reads ObjectOf(r)
  {
    StateOf(r) == ErasedState(old(StateOf(r)), from, to, background)
  }

  /** A row's last cursor cell, read off its state: `MaximalColumn * lineCount` for text, the last column for a picture. */
  function CursorLimit(s: RowState): int
  {
    match s
    case TextState(_, _, lineCount, maximalColumn, _, _, _, _, _, _) => maximalColumn * lineCount
    case ImageState(_, maximalColumn, _) => maximalColumn
  }

  lemma CursorLimitOfState(r: Row)
    requires RowValid(r)
    ensures MaximalCursorPositionOf(r) == CursorLimit(StateOf(r))
  {
  }

  /** Erasing keeps the line count and the last column, so the last cursor cell too. */
  lemma {:induction false} ErasedKeepsLimit(s: RowState, lo: int, hi: int, from: IntegerPosition, to: IntegerPosition,
                                            maximalCursorPosition: int, background: Option<Colors.Color>)
    requires to.X >= 0 && maximalCursorPosition >= 0
    ensures CursorLimit(ErasedByLines(s, lo, hi, from, to, maximalCursorPosition, background)) == CursorLimit(s)
    decreases hi - lo
  {
    if lo <= hi {
      ErasedKeepsLimit(s, lo, hi - 1, from, to, maximalCursorPosition, background);
    }
  }

  /** `IRow.Erase` on either kind of row; a row prepared with `m` stays so. */
  method RowErase(r: Row, from: int, to: int, background: Option<Colors.Color>, ghost m: Metrics)
    requires RowValid(r) && to >= 0
    modifies ObjectOf(r)
    ensures RowValid(r) && ErasedOnce(r, from, to, background)
    ensures MaximalCursorPositionOf(r) == old(MaximalCursorPositionOf(r))
    ensures old(RowReady(r, m)) ==> RowReady(r, m)
  {
    match r
    case Text(t) =>
      t.Erase(from, to, background);
    case Image(i) =>
      i.Erase(from, to, background);
  }

  /** `IRow.FillClipboardData` on either kind of row. */
  method FillClipboardData(r: Row, data: Clipboard.ClipboardData)
    requires ObjectOf(r) != data
    modifies data
    ensures data.rows == old(data.rows) + SelectionOf(r)
  {
    match r
    case Text(t) =>
      t.FillClipboardData(data);
    case Image(i) =>
      i.FillClipboardData(data);
  }

  /** The screen lines `[lo, hi]` of `[from.Y, upTo]` that `EraseScreen` sends to row `k`. */
  datatype Lines = Lines(lo: int, hi: int)

  /**
   * Screen line `y` names row `Min(first + y, count - 1)`: a row before the
   * last is reached from line `k - first` only, the last row from that line
   * and every line below it.
   */
  function ErasingLines(k: int, count: int, first: int, fromY: int, upTo: int): Lines
  {
    var lo := MonospaceRows.Max(fromY, k - first);
    var hi := if k < count - 1 then MonospaceRows.Min(upTo, k - first) else upTo;
    Lines(lo, hi)
  }

  /**
   * The cells line `y` erases in its row: from `from.X` on the first line,
   * else from 0; up to `to.X` on the last line, else up to the row's last
   * cursor cell.
   */
  function EraseFrom(y: int, from: IntegerPosition): int
  {
    if y == from.Y then from.X else 0
  }

  function EraseTo(y: int, to: IntegerPosition, maximalCursorPosition: int): int
  {
    if y == to.Y then to.X else maximalCursorPosition
  }

  /**
   * A row's state after the screen lines `lo..hi` erased it, one after the
   * other; `maximalCursorPosition` is the row's last cursor cell, which
   * erasing leaves where it is.
   */
  function ErasedByLines(s: RowState, lo: int, hi: int, from: IntegerPosition, to: IntegerPosition,
                         maximalCursorPosition: int, background: Option<Colors.Color>): RowState
    requires to.X >= 0 && maximalCursorPosition >= 0
    decreases hi - lo
  {
    if lo > hi then s
    else
      var before := ErasedByLines(s, lo, hi - 1, from, to, maximalCursorPosition, background);
      ErasedState(before, EraseFrom(hi, from), EraseTo(hi, to, maximalCursorPosition), background)
  }

  /**
   * Screen line `y` adds one erasure to the row it names,
   * `Min(first + y, count - 1)`, and none to any other row.
   */
  lemma ErasedByNextLine(s: RowState, k: int, count: int, first: int, from: IntegerPosition, to: IntegerPosition, y: int,
                         maximalCursorPosition: int, background: Option<Colors.Color>)
    requires 0 <= k < count && from.Y <= y && to.X >= 0 && maximalCursorPosition >= 0
    ensures var before, after := ErasingLines(k, count, first, from.Y, y - 1), ErasingLines(k, count, first, from.Y, y);
            var erased := ErasedByLines(s, before.lo, before.hi, from, to, maximalCursorPosition, background);
            ErasedByLines(s, after.lo, after.hi, from, to, maximalCursorPosition, background)
            == if k == MonospaceRows.Min(first + y, count - 1)
               then ErasedState(erased, EraseFrom(y, from), EraseTo(y, to, maximalCursorPosition), background)
               else erased
  {
    var before, after := ErasingLines(k, count, first, from.Y, y - 1), ErasingLines(k, count, first, from.Y, y);
    var erased := ErasedByLines(s, before.lo, before.hi, from, to, maximalCursorPosition, background);
    var next := ErasedByLines(s, after.lo, after.hi, from, to, maximalCursorPosition, background);
    if k == MonospaceRows.Min(first + y, count - 1) {
      assert after.lo == before.lo <= y && after.hi == y && before.hi == y - 1;
      assert next == ErasedState(erased, EraseFrom(y, from), EraseTo(y, to, maximalCursorPosition), background);
    } else if k < count - 1 && k - first < y {
      assert after == before;
    } else {
      assert after.lo > after.hi && before.lo > before.hi;
      assert next == s == erased;
    }
  }

  /**
   * Row `k` of `states` is what the screen lines `from.Y..upTo` that name
   * it made of its state in `before`, `limits[k]` being its last cursor cell.
   */
  ghost predicate StatesErasedUpTo(states: seq<RowState>, limits: seq<nat>, before: seq<RowState>, first: int,
                                   from: IntegerPosition, to: IntegerPosition, background: Option<Colors.Color>, upTo: int)
    requires |states| == |limits| == |before| && to.X >= 0
  {
    (forall k :: 0 <= k < |states| ==> CursorLimit(states[k]) == limits[k]) &&
    forall k {:trigger ErasingLines(k, |states|, first, from.Y, upTo)} :: 0 <= k < |states| ==>
      var lines := ErasingLines(k, |states|, first, from.Y, upTo);
      states[k] == ErasedByLines(before[k], lines.lo, lines.hi, from, to, limits[k], background)
  }

  /** Before line `from.Y` no line has erased anything. */
  lemma NothingErasedYet(before: seq<RowState>, limits: seq<nat>, first: int, from: IntegerPosition, to: IntegerPosition,
                         background: Option<Colors.Color>, upTo: int)
    requires |limits| == |before| && to.X >= 0 && upTo < from.Y
    requires forall k :: 0 <= k < |before| ==> CursorLimit(before[k]) == limits[k]
    ensures StatesErasedUpTo(before, limits, before, first, from, to, background, upTo)
  {
    forall k | 0 <= k < |before|
      ensures var lines := ErasingLines(k, |before|, first, from.Y, upTo);
              before[k] == ErasedByLines(before[k], lines.lo, lines.hi, from, to, limits[k], background)
    {
      var lines := ErasingLines(k, |before|, first, from.Y, upTo);
      assert lines.lo > lines.hi;
    }
  }

  /**
   * Erasing the row screen line `y` names, `Min(first + y, count - 1)`,
   * and no other, takes the rows from their states after the lines before
   * `y` to their states after `y`.
   */
  lemma NextLineErased(states: seq<RowState>, erased: seq<RowState>, limits: seq<nat>, before: seq<RowState>, first: int,
                       from: IntegerPosition, to: IntegerPosition, background: Option<Colors.Color>, y: int,
                       index: int, e: RowState)
    requires |states| == |limits| == |before| > 0 && to.X >= 0 && from.Y <= y
    requires index == MonospaceRows.Min(first + y, |states| - 1) && 0 <= index
    requires e == ErasedState(states[index], EraseFrom(y, from), EraseTo(y, to, limits[index]), background)
    requires erased == states[index := e]
    requires StatesErasedUpTo(states, limits, before, first, from, to, background, y - 1)
    ensures StatesErasedUpTo(erased, limits, before, first, from, to, background, y)
  {
    forall k | 0 <= k < |states|
      ensures var lines := ErasingLines(k, |states|, first, from.Y, y);
              erased[k] == ErasedByLines(before[k], lines.lo, lines.hi, from, to, limits[k], background)
              && CursorLimit(erased[k]) == limits[k]
    {
      ErasedByNextLine(before[k], k, |states|, first, from, to, y, limits[k], background);
      var lines := ErasingLines(k, |states|, first, from.Y, y);
      ErasedKeepsLimit(before[k], lines.lo, lines.hi, from, to, limits[k], background);
      var earlier := ErasingLines(k, |states|, first, from.Y, y - 1);
      ErasedKeepsLimit(before[k], earlier.lo, earlier.hi, from, to, limits[k], background);
    }
  }

  /** The selection rectangle of the canvas, in pixels (whole pixels here). */
  datatype Rectangle = Rectangle(x: int, y: int, width: int, height: int)

  /** `SelectionDirection` from its numeric value: SE = 0, SW = 1, NE = 2, NW = 3. */
  function DirectionOf(code: int): MonospaceRows.SelectionDirection
  {
    if code == 0 then MonospaceRows.SE
    else if code == 1 then MonospaceRows.SW
    else if code == 2 then MonospaceRows.NE
    else MonospaceRows.NW
  }

  /**
   * The top of `OnDraw` (lines 714-725): a selection dragged leftwards or
   * upwards is turned into one with non-negative sides, and the direction
   * remembers which way it was dragged, counting up from SE.
   */
  function NormalizedSelection(area: Rectangle): (Rectangle, MonospaceRows.SelectionDirection)
  {
    var code0 := 0;
    var a1 := if area.width < 0 then Rectangle(area.x + area.width, area.y, -area.width, area.height) else area;
    var code1 := if area.width < 0 then code0 + 1 else code0;
    var a2 := if a1.height < 0 then Rectangle(a1.x, a1.y + a1.height, a1.width, -a1.height) else a1;
    var code2 := if a1.height < 0 then code1 + 2 else code1;
    (a2, DirectionOf(code2))
  }

  /**
   * The normalised rectangle has non-negative sides and spans the same
   * corners; the direction is SE, SW, NE or NW as the drag went right-down,
   * left-down, right-up or left-up. Normalising twice changes nothing more.
   */
  lemma NormalizedSelectionCovers(area: Rectangle)
    ensures var (r, d) := NormalizedSelection(area);
            r.width >= 0 && r.height >= 0
            && r.x == MonospaceRows.Min(area.x, area.x + area.width)
            && r.x + r.width == MonospaceRows.Max(area.x, area.x + area.width)
            && r.y == MonospaceRows.Min(area.y, area.y + area.height)
            && r.y + r.height == MonospaceRows.Max(area.y, area.y + area.height)
            && (d == MonospaceRows.SE <==> area.width >= 0 && area.height >= 0)
            && (d == MonospaceRows.SW <==> area.width < 0 && area.height >= 0)
            && (d == MonospaceRows.NE <==> area.width >= 0 && area.height < 0)
            && (d == MonospaceRows.NW <==> area.width < 0 && area.height < 0)
            && NormalizedSelection(r) == (r, MonospaceRows.SE)
  {
  }

  class Terminal {
    var rows: seq<Row>
    /** `heightMap[i]`: where row `i` ends. */
    var heightMap: seq<int>
    /** A rebuild that ran out of time leaves its partial map here for the next one. */
    var unfinishedHeightMap: Option<seq<int>>
    /** `scrollbar.PageSize`. */
    var pageSize: int
    var lastNonDummyRow: int
    var defaultForeground: Colors.Color
    var defaultBackground: Colors.Color
    var selectionColor: Colors.Color
    /** `canvas.Bounds.Height`, the `ScreenSize`. */
    const screenSize: int
    const metrics: Metrics
    const cursor: TerminalCursor.Cursor
    /** The heights the height map was built from. */
    ghost var mapHeights: seq<int>
    ghost var Repr: set<object>
    /** Where each row object sits in `rows`: no object is two rows. */
    ghost var rowIndex: map<object, int>

    /** How high a prepared row is drawn: its line count times the line height. */
    ghost function HeightOf(r: Row): int
      reads ObjectOf(r)
    {
      metrics.lineHeight * SublineCountOf(r)
    }

    /**
     * The rows, each its own object and prepared with the terminal's
     * metrics; `Repr` holds the row objects. The height map may lag behind
     * the rows.
     */
    ghost predicate RowsValid()
      reads this`rows, this`Repr, this`rowIndex, Repr
    {
      this !in Repr && cursor !in Repr
      && (forall i :: 0 <= i < |rows| ==> ObjectOf(rows[i]) in Repr)
      && (forall i :: 0 <= i < |rows| ==> ObjectOf(rows[i]) in rowIndex && rowIndex[ObjectOf(rows[i])] == i)
      && Measured(metrics) && metrics.lineWidth > 0
      && (forall i :: 0 <= i < |rows| ==> RowReady(rows[i], metrics))
    }

    /** The cursor's position is never negative. */
    ghost predicate CursorValid()
      reads this, cursor
    {
      cursor.position.X >= 0 && cursor.position.Y >= 0
    }

    ghost predicate Valid()
      reads this, Repr, cursor
    {
      RowsValid() && CursorValid() && MapValid() && |mapHeights| == |rows|
    }

    /** The height map is the running total of heights of at least one pixel. */
    ghost predicate MapValid()
      reads this`heightMap, this`mapHeights
    {
      heightMap == PrefixSums(mapHeights) && forall i :: 0 <= i < |mapHeights| ==> mapHeights[i] > 0
    }

    /** So the height map starts above 0 and strictly increases. */
    lemma MapIncreasing()
      requires MapValid()
      ensures PositiveIncreasing(heightMap) && |heightMap| == |mapHeights|
    {
      PositiveHeightsIncrease(mapHeights);
    }

    /** The height map was built from the rows' current heights. */
    ghost predicate HeightMapCurrent()
      reads this`rows, this`Repr, this`rowIndex, this`mapHeights, Repr
      requires RowsValid()
    {
      |mapHeights| == |rows| && forall i {:trigger HeightOf(rows[i])} :: 0 <= i < |rows| ==> mapHeights[i] == HeightOf(rows[i])
    }

    /** The buffer itself is left as it was. */
    twostate predicate BufferUnchanged()
      reads this
    {
      rows == old(rows) && heightMap == old(heightMap) && mapHeights == old(mapHeights)
      && pageSize == old(pageSize) && unfinishedHeightMap == old(unfinishedHeightMap) && lastNonDummyRow == old(lastNonDummyRow) && Repr == old(Repr)
      && rowIndex == old(rowIndex)
    }

    /** An empty buffer over a measured font, the cursor at the origin. */
    constructor (metrics: Metrics, screenSize: int)
      requires Measured(metrics) && metrics.lineWidth > 0
      ensures Valid() && HeightMapCurrent()
      ensures rows == [] && heightMap == [] && unfinishedHeightMap == None && lastNonDummyRow == 0
      ensures this.metrics == metrics && this.screenSize == screenSize && pageSize == screenSize
      ensures defaultForeground == Colors.DefaultGray && defaultBackground == Colors.Black
      ensures selectionColor == Colors.LightSlateGray
      ensures fresh(cursor) && cursor.position == Origin && !cursor.enabled
      ensures Repr == {}
    {
      rows := [];
      heightMap := [];
      unfinishedHeightMap := None;
      pageSize := screenSize;
      lastNonDummyRow := 0;
      defaultForeground := Colors.DefaultGray;
      defaultBackground := Colors.Black;
      selectionColor := Colors.LightSlateGray;
      this.screenSize := screenSize;
      this.metrics := metrics;
      mapHeights := [];
      cursor := new TerminalCursor.Cursor();
      new;
      Repr := {};
      rowIndex := map[];
    }

    /** The index of the first row on screen: the row at the top of the last page. */
    function FirstScreenRow(): int
      reads this
    {
      RowIndexAt(heightMap, MaximumScrollbarValue(heightMap, pageSize))
    }

    function ScreenRowCountOf(): int
      reads this
    {
      |rows| - FirstScreenRow()
    }

    /** At least one row counts as on screen, even without rows; never more than there are. */
    lemma ScreenRowsBounds()
      requires MapValid() && |mapHeights| == |rows|
      ensures 1 <= ScreenRowCountOf()
      ensures |rows| > 0 ==> 0 <= FirstScreenRow() < |rows| && ScreenRowCountOf() <= |rows|
    {
    }

    /** The row `GetScreenRow(y)` returns for screen line `y`. */
    function ScreenRowAt(y: int): int
      reads this
    {
      MonospaceRows.Min(FirstScreenRow() + y, |rows| - 1)
    }

    /** `GetMaximumScrollbarValue` (lines 623-635). */
    method GetMaximumScrollbarValue() returns (v: int)
      ensures v == MaximumScrollbarValue(heightMap, pageSize)
    {
      var maximumHeight := if |heightMap| == 0 then 0 else heightMap[|heightMap| - 1];
      v := MonospaceRows.Max(0, maximumHeight - pageSize);
    }

    /** `GetScreenRowIndex(screenPosition)`: the row on screen line `screenPosition`, unclamped. */
    method GetScreenRowIndex(screenPosition: int) returns (index: int)
      requires StrictlyIncreasing(heightMap)
      ensures index == FirstScreenRow() + screenPosition
    {
      var maximum := GetMaximumScrollbarValue();
      var first, _ := FindRowIndexAtPosition(heightMap, maximum);
      index := first + screenPosition;
    }

    /** `ScreenRowCount`: the rows from the first one on screen to the end. */
    method ScreenRowCount() returns (count: int)
      requires StrictlyIncreasing(heightMap)
      ensures count == ScreenRowCountOf()
    {
      var first := GetScreenRowIndex(0);
      count := |rows| - first;
    }

    /**
     * `GetScreenRow(screenPosition, treatRowAsNonDummy)`: the row on that
     * screen line, the last row for a line past the end; a flagged call
     * marks the rows up to that line as holding output.
     */
    method GetScreenRow(screenPosition: int, treatRowAsNonDummy: bool) returns (row: Row)
      requires Valid() && |rows| > 0 && FirstScreenRow() + screenPosition >= 0
      modifies this`lastNonDummyRow
      ensures rows == old(rows) && heightMap == old(heightMap) && mapHeights == old(mapHeights)
      ensures pageSize == old(pageSize) && unfinishedHeightMap == old(unfinishedHeightMap) && Repr == old(Repr)
      ensures rowIndex == old(rowIndex) && Valid()
      ensures row == rows[ScreenRowAt(screenPosition)]
      ensures lastNonDummyRow
              == if treatRowAsNonDummy then MonospaceRows.Max(old(lastNonDummyRow), FirstScreenRow() + screenPosition)
                 else old(lastNonDummyRow)
      ensures defaultForeground == old(defaultForeground) && defaultBackground == old(defaultBackground)
      ensures selectionColor == old(selectionColor)
    {
      var position;
      row, position := ScreenRow(screenPosition);
      if treatRowAsNonDummy {
        lastNonDummyRow := MonospaceRows.Max(lastNonDummyRow, position);
      }
    }

    /** `GetScreenRow` without the flag, which changes nothing: the row and its unclamped index. */
    method ScreenRow(screenPosition: int) returns (row: Row, position: int)
      requires MapValid() && |rows| > 0 && FirstScreenRow() + screenPosition >= 0
      ensures position == FirstScreenRow() + screenPosition
      ensures 0 <= ScreenRowAt(screenPosition) < |rows| && row == rows[ScreenRowAt(screenPosition)]
    {
      MapIncreasing();
      position := GetScreenRowIndex(screenPosition);
      row := rows[MonospaceRows.Min(position, |rows| - 1)];
    }

    /**
     * `GetFirstScreenRow`: the first row on screen and how much of it is
     * scrolled above the top, which is less than the row's height.
     */
    method GetFirstScreenRow() returns (row: Row, hiddenHeight: int)
      requires Valid() && |rows| > 0
      ensures 0 <= FirstScreenRow() < |rows| && row == rows[FirstScreenRow()]
      ensures hiddenHeight == MaximumScrollbarValue(heightMap, pageSize) - StartOf(heightMap, FirstScreenRow())
      ensures hiddenHeight >= 0
      ensures MaximumScrollbarValue(heightMap, pageSize) < Total(heightMap) ==>
                hiddenHeight < heightMap[FirstScreenRow()] - StartOf(heightMap, FirstScreenRow())
    {
      MapIncreasing();
      var maximum := GetMaximumScrollbarValue();
      var index, rowStart := FindRowIndexAtPosition(heightMap, maximum);
      RowIndexAtContains(heightMap, maximum);
      ScreenRowsBounds();
      row := rows[index];
      hiddenHeight := maximum - rowStart;
    }

    /**
     * `AppendRow(row, treatRowAsNonDummy)`: the row goes at the end, is
     * prepared, and its height extends the height map, which stays the
     * running total of the heights.
     */
    method AppendRow(row: Row, treatRowAsNonDummy: bool)
      requires Valid() && RowValid(row) && ObjectOf(row) !in Repr
      modifies this, ObjectOf(row)
      ensures RowsValid() && CursorValid() && MapValid() && |mapHeights| == |rows| && Repr == old(Repr) + {ObjectOf(row)}
      ensures rows == old(rows) + [row] && mapHeights == old(mapHeights) + [HeightOf(row)]
      ensures heightMap == old(heightMap) + [Total(old(heightMap)) + HeightOf(row)]
      ensures old(HeightMapCurrent()) ==> HeightMapCurrent()
      ensures lastNonDummyRow == if treatRowAsNonDummy then MonospaceRows.Max(old(lastNonDummyRow), |rows|) else old(lastNonDummyRow)
      ensures pageSize == old(pageSize) && unfinishedHeightMap == old(unfinishedHeightMap)
      ensures defaultForeground == old(defaultForeground) && defaultBackground == old(defaultBackground)
      ensures selectionColor == old(selectionColor)
      ensures TextKept(row) && LinesCounted(row)
    {
      var height := PrepareTwice(row, metrics, selectionColor);
      PushRow(row, treatRowAsNonDummy);
      ExtendHeightMap(height);
    }

    /** `rows.Add(row)` in `AppendRow`; a flagged row also counts as holding output. */
    method PushRow(row: Row, treatRowAsNonDummy: bool)
      requires RowsValid() && ObjectOf(row) !in Repr && RowReady(row, metrics)
      modifies this
      ensures RowsValid() && rows == old(rows) + [row] && Repr == old(Repr) + {ObjectOf(row)}
      ensures lastNonDummyRow == if treatRowAsNonDummy then MonospaceRows.Max(old(lastNonDummyRow), |rows|) else old(lastNonDummyRow)
      ensures heightMap == old(heightMap) && mapHeights == old(mapHeights)
      ensures pageSize == old(pageSize) && unfinishedHeightMap == old(unfinishedHeightMap)
      ensures defaultForeground == old(defaultForeground) && defaultBackground == old(defaultBackground)
      ensures selectionColor == old(selectionColor)
    {
      rows, Repr, rowIndex := rows + [row], Repr + {ObjectOf(row)}, rowIndex[ObjectOf(row) := |rows|];
      if treatRowAsNonDummy {
        lastNonDummyRow := MonospaceRows.Max(lastNonDummyRow, |rows|);
      }
    }

    /** `AddToHeightMap(value)` on the terminal's map: one more entry, the old total plus `value`. */
    method ExtendHeightMap(value: int)
      requires MapValid() && value > 0
      modifies this
      ensures MapValid() && mapHeights == old(mapHeights) + [value]
      ensures heightMap == old(heightMap) + [Total(old(heightMap)) + value]
      ensures rows == old(rows) && Repr == old(Repr) && rowIndex == old(rowIndex) && lastNonDummyRow == old(lastNonDummyRow)
      ensures pageSize == old(pageSize) && unfinishedHeightMap == old(unfinishedHeightMap)
      ensures defaultForeground == old(defaultForeground) && defaultBackground == old(defaultBackground)
      ensures selectionColor == old(selectionColor)
    {
      PrefixSumsAppend(mapHeights, value);
      heightMap := AddToHeightMap(heightMap, value);
      mapHeights := mapHeights + [value];
    }

    /** The colours and the count of rows holding output are left as they were. */
    twostate predicate SettingsKept()
      reads this
    {
      lastNonDummyRow == old(lastNonDummyRow) && selectionColor == old(selectionColor)
      && defaultForeground == old(defaultForeground) && defaultBackground == old(defaultBackground)
    }

    /**
     * `RebuildHeightMap(continueEvenIfLongTask)`: prepares every row again
     * and rebuilds the map. `overBudget` holds the rows after which the
     * stopwatch reads more than 30 ms. Every 1000th row a rebuild that
     * may stop does stop once over budget, keeping the partial map for next
     * time; a finished rebuild takes the canvas height as the page size and
     * moves the cursor by as many rows as the first screen row moved.
     */
    method RebuildHeightMap(continueEvenIfLongTask: bool, overBudget: set<int>) returns (completed: bool, ghost rowsDone: nat, ghost newHeights: seq<int>)
      requires RowsValid() && CursorValid() && MapValid()
      modifies this, Repr, cursor
      ensures RowsValid() && CursorValid() && MapValid() && rows == old(rows) && Repr == old(Repr) && SettingsKept()
      ensures completed <==>
                continueEvenIfLongTask || |rows| == 0
                || forall i :: 0 <= i < |rows| && Checkpoint(i) ==> i !in overBudget
      ensures completed ==> Valid() && HeightMapCurrent()
      ensures completed ==> unfinishedHeightMap == if |rows| == 0 then old(unfinishedHeightMap) else None
      ensures completed && |rows| > 0 ==>
                pageSize == screenSize
                && cursor.position
                   == TerminalCursor.ClampPosition(old(cursor.position).ShiftedByY(-(FirstScreenRow() - old(FirstScreenRow()))), ScreenRowCountOf())
      ensures |rows| == 0 ==> cursor.position == old(cursor.position) && pageSize == old(pageSize)
      ensures !completed ==>
                heightMap == old(heightMap) && mapHeights == old(mapHeights) && pageSize == old(pageSize)
                && cursor.position == old(cursor.position)
                && PartlyPrepared(rowsDone, overBudget, newHeights)
      ensures |newHeights| == rowsDone && PreparedUpTo(newHeights)
      ensures forall k :: 0 <= k < |rows| ==> TextOf(rows[k]) == old(TextOf(rows[k]))
      ensures cursor.enabled == old(cursor.enabled) && cursor.BlinkOf() == old(cursor.BlinkOf())
    {
      if |rows| == 0 {
        completed, rowsDone, newHeights := true, 0, [];
        heightMap, mapHeights := [], [];
        return;
      }
      completed, rowsDone, newHeights := RebuildRows(continueEvenIfLongTask, overBudget);
    }

    /** `RebuildHeightMap` for a terminal with rows. */
    method RebuildRows(continueEvenIfLongTask: bool, overBudget: set<int>) returns (completed: bool, ghost rowsDone: nat, ghost newHeights: seq<int>)
      requires RowsValid() && CursorValid() && MapValid() && |rows| > 0
      modifies this, Repr, cursor
      ensures RowsValid() && CursorValid() && MapValid() && rows == old(rows) && Repr == old(Repr) && SettingsKept()
      ensures completed <==> continueEvenIfLongTask || forall i :: 0 <= i < |rows| && Checkpoint(i) ==> i !in overBudget
      ensures completed ==>
                Valid() && HeightMapCurrent() && unfinishedHeightMap == None && pageSize == screenSize
                && cursor.position
                   == TerminalCursor.ClampPosition(old(cursor.position).ShiftedByY(-(FirstScreenRow() - old(FirstScreenRow()))), ScreenRowCountOf())
      ensures !completed ==>
                heightMap == old(heightMap) && mapHeights == old(mapHeights) && pageSize == old(pageSize)
                && cursor.position == old(cursor.position)
                && PartlyPrepared(rowsDone, overBudget, newHeights)
      ensures |newHeights| == rowsDone && PreparedUpTo(newHeights)
      ensures forall k :: 0 <= k < |rows| ==> TextOf(rows[k]) == old(TextOf(rows[k]))
      ensures cursor.enabled == old(cursor.enabled) && cursor.BlinkOf() == old(cursor.BlinkOf())
    {
      MapIncreasing();
      var oldFirstScreenRow := GetScreenRowIndex(0);
      var newHeightMap;
      completed, newHeightMap, rowsDone, newHeights := PrepareAllRows(continueEvenIfLongTask, overBudget);
      if completed {
        InstallHeightMap(newHeightMap, newHeights, oldFirstScreenRow);
      }
    }

    /**
     * The new map and the heights it was built from replace the old ones,
     * the unfinished map is dropped and the page size becomes the canvas
     * height.
     */
    method TakeHeightMap(newHeightMap: seq<int>, ghost newHeights: seq<int>)
      requires PreparedUpTo(newHeights) && |newHeights| == |rows| && newHeightMap == PrefixSums(newHeights)
      modifies this
      ensures RowsValid() && MapValid() && HeightMapCurrent()
      ensures heightMap == newHeightMap && mapHeights == newHeights && unfinishedHeightMap == None && pageSize == screenSize
      ensures rows == old(rows) && Repr == old(Repr) && rowIndex == old(rowIndex) && SettingsKept()
    {
      heightMap, mapHeights := newHeightMap, newHeights;
      unfinishedHeightMap := None;
      pageSize := screenSize;
    }

    /**
     * The end of a rebuild that completed: the new map replaces the old one,
     * the unfinished map is dropped, the page size becomes the canvas
     * height, and the cursor moves up by as many rows as the first screen
     * row moved down.
     */
    method InstallHeightMap(newHeightMap: seq<int>, ghost newHeights: seq<int>, oldFirstScreenRow: int)
      requires RowsValid() && CursorValid() && PreparedUpTo(newHeights) && |newHeights| == |rows|
      requires newHeightMap == PrefixSums(newHeights)
      modifies this, cursor
      ensures Valid() && HeightMapCurrent() && rows == old(rows) && Repr == old(Repr) && SettingsKept()
      ensures heightMap == newHeightMap && mapHeights == newHeights && unfinishedHeightMap == None
      ensures pageSize == screenSize
      ensures cursor.position
              == TerminalCursor.ClampPosition(old(cursor.position).ShiftedByY(-(FirstScreenRow() - oldFirstScreenRow)), ScreenRowCountOf())
      ensures cursor.enabled == old(cursor.enabled) && cursor.BlinkOf() == old(cursor.BlinkOf())
    {
      TakeHeightMap(newHeightMap, newHeights);
      MapIncreasing();
      var firstScreenRow := GetScreenRowIndex(0);
      var diff := firstScreenRow - oldFirstScreenRow;
      SetCursorPosition(cursor.position.ShiftedByY(-diff));
    }

    /**
     * A rebuild that stopped after row `rowsDone - 1`: the partial map, kept
     * in `unfinishedHeightMap`, is the running total of the new heights of
     * the first `rowsDone` rows followed by the rest of the map it started
     * from.
     */
    twostate predicate PartlyPrepared(rowsDone: int, overBudget: set<int>, newHeights: seq<int>)
      reads this
    {
      0 < rowsDone <= |rows| && Checkpoint(rowsDone - 1) && rowsDone - 1 in overBudget && |newHeights| == rowsDone
      && unfinishedHeightMap == Some(PrefixSums(newHeights) + StartingMap(old(unfinishedHeightMap), |rows|)[rowsDone..])
    }

    /** Rows `0..|done|` have been prepared again; `done` holds their heights, all positive. */
    ghost predicate PreparedUpTo(done: seq<int>)
      reads this`rows, this`Repr, this`rowIndex, Repr
    {
      RowsValid() && |done| <= |rows|
      && (forall k :: 0 <= k < |done| ==> done[k] > 0)
      && forall k {:trigger HeightOf(rows[k])} :: 0 <= k < |done| ==> done[k] == HeightOf(rows[k])
    }

    /**
     * Part way through a rebuild: rows `0..|done|` prepared again with the
     * heights `done`, the map their running totals followed by the rest of
     * `start`, and every row's text still `texts`.
     */
    ghost predicate RebuiltUpTo(done: seq<int>, newHeightMap: seq<int>, heightSoFar: int, start: seq<int>, texts: seq<RowText>)
      reads this`rows, this`Repr, this`rowIndex, Repr
    {
      PreparedUpTo(done) && |start| == |rows| == |texts|
      && newHeightMap == PrefixSums(done) + start[|done|..] && heightSoFar == Total(PrefixSums(done))
      && forall k :: 0 <= k < |rows| ==> TextOf(rows[k]) == texts[k]
    }

    /** The texts of the first `n` rows, in row order. */
    ghost function TextsOf(n: int): (s: seq<RowText>)
      reads this`rows, this`Repr, this`rowIndex, Repr
      requires RowsValid() && 0 <= n <= |rows|
      ensures |s| == n && forall k :: 0 <= k < n ==> s[k] == TextOf(rows[k])
    {
      if n == 0 then [] else TextsOf(n - 1) + [TextOf(rows[n - 1])]
    }

    /** One turn of the rebuild loop: row `i` prepared again and its end written over entry `i`. */
    method PrepareRowAt(i: int, ghost done: seq<int>, newHeightMap: seq<int>, ghost start: seq<int>, heightSoFar: int,
                        ghost texts: seq<RowText>)
      returns (height: int, nextMap: seq<int>, nextSoFar: int)
      requires RebuiltUpTo(done, newHeightMap, heightSoFar, start, texts) && i == |done| < |rows|
      modifies ObjectOf(rows[i])
      ensures RebuiltUpTo(done + [height], nextMap, nextSoFar, start, texts)
    {
      height := PrepareRow(rows[i], metrics, selectionColor);
      nextMap, nextSoFar := WriteNextEntry(newHeightMap, i, done, start, height, heightSoFar);
    }

    /**
     * The loop of `RebuildHeightMap`: every row prepared again, its height
     * added to the running total and written over the entry of `start` for
     * it. With `continueEvenIfLongTask` unset, the loop gives up after a
     * checkpoint row (every 1000th, from row 1) at which the time budget is
     * spent; `overBudget` holds those rows.
     */
    method PrepareRows(continueEvenIfLongTask: bool, overBudget: set<int>, start: seq<int>)
      returns (completed: bool, newHeightMap: seq<int>, ghost newHeights: seq<int>)
      requires RowsValid() && |start| == |rows|
      modifies Repr
      ensures PreparedUpTo(newHeights) && newHeightMap == PrefixSums(newHeights) + start[|newHeights|..]
      ensures completed <==> continueEvenIfLongTask || InBudget(|rows|, overBudget)
      ensures completed ==> |newHeights| == |rows|
      ensures !completed ==> |newHeights| > 0 && Checkpoint(|newHeights| - 1) && |newHeights| - 1 in overBudget
      ensures forall k :: 0 <= k < |rows| ==> TextOf(rows[k]) == old(TextOf(rows[k]))
    {
      ghost var texts := TextsOf(|rows|);
      newHeightMap, newHeights := start, [];
      var heightSoFar, i := 0, 0;
      assert start[0..] == start;
      while i < |newHeightMap|
        invariant 0 <= i <= |rows| && |newHeights| == i && |newHeightMap| == |rows|
        invariant RebuiltUpTo(newHeights, newHeightMap, heightSoFar, start, texts)
        invariant continueEvenIfLongTask || InBudget(i, overBudget)
      {
        var height;
        height, newHeightMap, heightSoFar := PrepareRowAt(i, newHeights, newHeightMap, start, heightSoFar, texts);
        newHeights := newHeights + [height];
        if !continueEvenIfLongTask && Checkpoint(i) && i in overBudget {
          if InBudget(|rows|, overBudget) {
            InBudgetPrefix(i + 1, |rows|, overBudget);
          }
          assert |newHeights| - 1 == i;
          return false, newHeightMap, newHeights;
        }
        i := i + 1;
      }
      return true, newHeightMap, newHeights;
    }

    /**
     * `RebuildHeightMap` between the stopwatch and the new map: the map
     * being rebuilt is the unfinished map if it has the right length and
     * zeros otherwise. The two are one array in the source, so the
     * unfinished map holds every entry written, whether or not the rebuild
     * completes.
     */
    method PrepareAllRows(continueEvenIfLongTask: bool, overBudget: set<int>)
      returns (completed: bool, newHeightMap: seq<int>, ghost rowsDone: nat, ghost newHeights: seq<int>)
      requires RowsValid() && |rows| > 0
      modifies this`unfinishedHeightMap, Repr
      ensures PreparedUpTo(newHeights) && rowsDone == |newHeights|
      ensures forall k :: 0 <= k < |rows| ==> TextOf(rows[k]) == old(TextOf(rows[k]))
      ensures completed <==> continueEvenIfLongTask || forall i :: 0 <= i < |rows| && Checkpoint(i) ==> i !in overBudget
      ensures completed ==> |newHeights| == |rows| && newHeightMap == PrefixSums(newHeights)
                            && unfinishedHeightMap == Some(newHeightMap)
      ensures !completed ==> PartlyPrepared(rowsDone, overBudget, newHeights)
    {
      var start := if unfinishedHeightMap.Some? && |unfinishedHeightMap.value| == |rows|
                   then unfinishedHeightMap.value else seq(|rows|, _ => 0);
      assert start == StartingMap(unfinishedHeightMap, |rows|);
      completed, newHeightMap, newHeights := PrepareRows(continueEvenIfLongTask, overBudget, start);
      InBudgetMeans(|rows|, overBudget);
      unfinishedHeightMap := Some(newHeightMap);
      rowsDone := |newHeights|;
      if completed {
        assert newHeightMap == PrefixSums(newHeights) + [];
      }
    }

    /** The cursor's `Position` setter, given this terminal's screen row count. */
    method SetCursorPosition(value: IntegerPosition)
      requires Valid()
      modifies cursor
      ensures Valid()
      ensures cursor.position == TerminalCursor.ClampPosition(value, ScreenRowCountOf())
      ensures cursor.enabled == old(cursor.enabled) && cursor.BlinkOf() == old(cursor.BlinkOf())
    {
      MapIncreasing();
      var count := ScreenRowCount();
      ScreenRowsBounds();
      TerminalCursor.ClampIntoScreen(value, count);
      cursor.SetPosition(value, count);
    }

    /** `Clear`: the cursor goes home and every row goes; the map is rebuilt empty. */
    method Clear()
      requires Valid()
      modifies this, Repr, cursor
      ensures Valid() && HeightMapCurrent()
      ensures rows == [] && heightMap == [] && mapHeights == [] && cursor.position == Origin
      ensures pageSize == old(pageSize) && lastNonDummyRow == old(lastNonDummyRow)
      ensures unfinishedHeightMap == old(unfinishedHeightMap) && Repr == old(Repr)
      ensures cursor.enabled == old(cursor.enabled) && cursor.BlinkOf() == old(cursor.BlinkOf())
    {
      SetCursorPosition(Origin);
      rows := [];
      var _, _, _ := RebuildHeightMap(true, {});
    }

    /** `Refresh`: a rebuild that runs to the end. */
    method Refresh()
      requires Valid()
      modifies this, Repr, cursor
      ensures Valid() && HeightMapCurrent() && rows == old(rows) && Repr == old(Repr)
      ensures |rows| > 0 ==>
                pageSize == screenSize
                && cursor.position
                   == TerminalCursor.ClampPosition(old(cursor.position).ShiftedByY(-(FirstScreenRow() - old(FirstScreenRow()))), ScreenRowCountOf())
      ensures |rows| == 0 ==> cursor.position == old(cursor.position)
      ensures forall i :: 0 <= i < |rows| ==> TextOf(rows[i]) == old(TextOf(rows[i]))
      ensures lastNonDummyRow == old(lastNonDummyRow)
      ensures defaultForeground == old(defaultForeground) && defaultBackground == old(defaultBackground)
      ensures selectionColor == old(selectionColor)
      ensures cursor.enabled == old(cursor.enabled) && cursor.BlinkOf() == old(cursor.BlinkOf())
    {
      var _, _, _ := RebuildHeightMap(true, {});
    }

    /**
     * `Cursor.MaximalPosition` (Cursor.cs): the last screen line, and the
     * last cursor cell of the row on it.
     */
    method CursorMaximalPosition() returns (p: IntegerPosition)
      requires Valid() && |rows| > 0
      ensures p == IntegerPosition(MaximalCursorPositionOf(rows[|rows| - 1]), ScreenRowCountOf() - 1)
    {
      MapIncreasing();
      var count := ScreenRowCount();
      ScreenRowsBounds();
      var maxY := count - 1;
      var first := GetScreenRowIndex(0);
      var row := rows[MonospaceRows.Min(first + maxY, |rows| - 1)];
      p := IntegerPosition(MaximalCursorPositionOf(row), maxY);
    }

    /**
     * Row `index` erased from `from` to `to`, no other row changing;
     * `states` are the rows' states beforehand.
     */
    method EraseRowAt(row: Row, ghost index: int, from: int, to: int, background: Option<Colors.Color>,
                      ghost states: seq<RowState>)
      requires RowsValid() && 0 <= index < |rows| && row == rows[index] && to >= 0 && states == StatesOf(|rows|)
      modifies ObjectOf(row)
      ensures RowsValid() && StatesOf(|rows|) == states[index := ErasedState(states[index], from, to, background)]
    {
      ghost var s := ErasedState(states[index], from, to, background);
      RowErase(row, from, to, background, metrics);
      assert StateOf(row) == s;
      forall k | 0 <= k < |rows| && k != index
        ensures StateOf(rows[k]) == states[k] && RowReady(rows[k], metrics)
      {
        assert rowIndex[ObjectOf(rows[k])] != rowIndex[ObjectOf(row)];
      }
      StatesWith(states, index, s);
    }

    /**
     * `PutCharacterAt` on the text row `index`, no other row changing;
     * `texts` are the rows' texts beforehand. `changed` tells whether the
     * row now needs a different number of sublines.
     */
    method PutCharacterInRow(row: Row, ghost index: int, position: nat, what: MonospaceRows.Element,
                             foreground: Option<Colors.Color>, background: Option<Colors.Color>, ghost texts: seq<RowText>)
      returns (changed: bool)
      requires RowsValid() && 0 <= index < |rows| && row == rows[index] && row.Text? && texts == TextsOf(|rows|)
      modifies ObjectOf(row)
      ensures RowsValid() && TextsOf(|rows|) == texts[index := PutText(texts[index], position, what, foreground, background)]
      ensures changed == MonospaceRows.SublinesChanged(|texts[index].content|,
                                                       |MonospaceRows.PutContent(texts[index].content, position, what)|,
                                                       MonospaceRows.CharsOnLine(metrics))
      ensures forall k :: 0 <= k < |rows| ==> SublineCountOf(rows[k]) == old(SublineCountOf(rows[k]))
    {
      changed := row.text.PutCharacterAt(position, what, foreground, background);
      assert TextOf(row) == PutText(texts[index], position, what, foreground, background);
      forall k | 0 <= k < |rows| && k != index
        ensures TextOf(rows[k]) == texts[k] && RowReady(rows[k], metrics)
      {
        assert rowIndex[ObjectOf(rows[k])] != rowIndex[ObjectOf(row)];
      }
      TextsWith(texts, index, TextOf(row));
    }

    /** Rows whose texts are those of `texts` but at `index`, where the text is `t`. */
    lemma TextsWith(texts: seq<RowText>, index: int, t: RowText)
      requires RowsValid() && |texts| == |rows| && 0 <= index < |rows|
      requires forall k :: 0 <= k < |rows| && k != index ==> TextOf(rows[k]) == texts[k]
      requires TextOf(rows[index]) == t
      ensures TextsOf(|rows|) == texts[index := t]
    {
    }

    /** Rows whose states are those of `states` but at `index`, where the state is `s`. */
    lemma StatesWith(states: seq<RowState>, index: int, s: RowState)
      requires RowsValid() && |states| == |rows| && 0 <= index < |rows|
      requires forall k :: 0 <= k < |rows| && k != index ==> StateOf(rows[k]) == states[k]
      requires StateOf(rows[index]) == s
      ensures StatesOf(|rows|) == states[index := s]
    {
    }

    /** The states of the first `n` rows, in row order. */
    ghost function StatesOf(n: int): (s: seq<RowState>)
      reads this, Repr
      requires RowsValid() && 0 <= n <= |rows|
      ensures |s| == n && forall k :: 0 <= k < n ==> s[k] == StateOf(rows[k])
    {
      if n == 0 then [] else StatesOf(n - 1) + [StateOf(rows[n - 1])]
    }

    /** The last cursor cells of the first `n` rows, in row order, each read off the row's state. */
    ghost function CursorLimitsOf(n: int): (s: seq<nat>)
      reads this, Repr
      requires RowsValid() && 0 <= n <= |rows|
      ensures |s| == n && forall k :: 0 <= k < n ==> s[k] == MaximalCursorPositionOf(rows[k]) == CursorLimit(StateOf(rows[k]))
    {
      if n == 0 then []
      else
        CursorLimitOfState(rows[n - 1]);
        CursorLimitsOf(n - 1) + [MaximalCursorPositionOf(rows[n - 1])]
    }

    /**
     * Every row is as the screen lines `from.Y..upTo` left it, erasing it in
     * turn from its state in `before` up to its last cursor cell in
     * `limits`, the first screen row being `first`.
     */
    ghost predicate ErasedUpTo(before: seq<RowState>, limits: seq<nat>, first: int, from: IntegerPosition, to: IntegerPosition,
                               background: Option<Colors.Color>, upTo: int)
      reads this, Repr
      requires RowsValid() && |before| == |rows| && to.X >= 0
    {
      |limits| == |rows| && StatesErasedUpTo(StatesOf(|rows|), limits, before, first, from, to, background, upTo)
    }

    /** One line of `EraseScreen`: screen line `y` erased in the row it names. */
    method EraseScreenLine(y: int, from: IntegerPosition, to: IntegerPosition, background: Option<Colors.Color>,
                           ghost before: seq<RowState>, ghost limits: seq<nat>, ghost first: int)
      requires RowsValid() && MapValid() && |rows| > 0 && FirstScreenRow() + y >= 0 && from.Y <= y && to.X >= 0
      requires first == FirstScreenRow() && |before| == |rows|
      requires ErasedUpTo(before, limits, first, from, to, background, y - 1)
      modifies Repr
      ensures RowsValid() && ErasedUpTo(before, limits, first, from, to, background, y)
    {
      var row, _ := ScreenRow(y);
      var f := if y == from.Y then from.X else 0;
      var t := if y == to.Y then to.X else MaximalCursorPositionOf(row);
      ghost var index, states := ScreenRowAt(y), StatesOf(|rows|);
      assert index == MonospaceRows.Min(first + y, |states| - 1) && 0 <= index;
      assert |states| == |limits| == |before| > 0;
      CursorLimitOfState(row);
      ghost var erased := ErasedState(states[index], EraseFrom(y, from), EraseTo(y, to, limits[index]), background);
      assert states[index] == StateOf(row) && f == EraseFrom(y, from) && t == EraseTo(y, to, limits[index]);
      assert erased == ErasedState(StateOf(row), f, t, background);
      assert StatesErasedUpTo(states, limits, before, first, from, to, background, y - 1);
      EraseRowAt(row, index, f, t, background, states);
      ghost var after := StatesOf(|rows|);
      assert after == states[index := erased];
      NextLineErased(states, after, limits, before, first, from, to, background, y, index, erased);
    }

    /**
     * `EraseScreen(from, to, background)`: erases screen lines `from.Y` to
     * `to.Y`, the first from `from.X`, the last up to `to.X`, every other
     * line up to its row's last cursor cell. Each row ends as the lines that
     * name it left it: untouched when none does, and the last row once for
     * every line at or below it.
     */
    method EraseScreen(from: IntegerPosition, to: IntegerPosition, background: Option<Colors.Color>)
      requires Valid() && |rows| > 0 && FirstScreenRow() + from.Y >= 0 && to.X >= 0
      modifies Repr
      ensures Valid() && unchanged(this) && unchanged(cursor)
      ensures ErasedUpTo(old(StatesOf(|rows|)), old(CursorLimitsOf(|rows|)), old(FirstScreenRow()), from, to, background, to.Y)
    {
      ghost var before, limits, first := StatesOf(|rows|), CursorLimitsOf(|rows|), FirstScreenRow();
      if from.Y > to.Y {
        NothingErasedYet(before, limits, first, from, to, background, to.Y);
        return;
      }
      NothingErasedYet(before, limits, first, from, to, background, from.Y - 1);
      var y, last := from.Y, from.Y - 1;
      while y <= to.Y
        invariant from.Y <= y <= to.Y + 1 && last == y - 1
        invariant RowsValid() && unchanged(this) && unchanged(cursor)
        invariant ErasedUpTo(before, limits, first, from, to, background, last)
        decreases (to.Y - y)
      {
        EraseScreenLine(y, from, to, background, before, limits, first);
        y, last := y + 1, y;
      }
      assert last == to.Y;
    }

    /** The selected texts of the first `n` rows, in row order. */
    ghost function SelectedTexts(n: int): seq<string>
      reads this, Repr
      requires RowsValid() && n <= |rows|
    {
      if n <= 0 then [] else SelectedTexts(n - 1) + SelectionOf(rows[n - 1])
    }

    /** `CollectClipboardData`: the selected text of every row, in order. */
    method CollectClipboardData(newLine: string) returns (data: Clipboard.ClipboardData)
      requires RowsValid()
      ensures fresh(data) && data.newLine == newLine
      ensures data.rows == SelectedTexts(|rows|)
    {
      data := new Clipboard.ClipboardData(newLine);
      var i := 0;
      while i < |rows|
        invariant 0 <= i <= |rows| && fresh(data) && data !in Repr
        invariant RowsValid() && data.rows == SelectedTexts(i)
      {
        AddSelectionOf(i, data);
        i := i + 1;
      }
    }

    /** One turn of `CollectClipboardData`: the selected text of row `i` added. */
    method AddSelectionOf(i: int, data: Clipboard.ClipboardData)
      requires RowsValid() && 0 <= i < |rows| && data !in Repr && data.rows == SelectedTexts(i)
      modifies data
      ensures data.rows == SelectedTexts(i + 1)
    {
      FillClipboardData(rows[i], data);
    }
  }
}
