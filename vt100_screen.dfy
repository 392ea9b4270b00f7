/**
 * The terminal as the VT100 decoder sees it (Vt100/Decoder.cs:274-353):
 * text rows on screen, each some sublines high, the first one partly
 * scrolled away, read as a `Vt100Cursor.Screen`.
 */
module Vt100Screens {
  import opened Positions
  import opened RowMetrics
  import opened HeightMaps
  import opened Vt100Cursor
  import Terminals
  import MonospaceRows
  import TerminalCursor

  type Terminal = Terminals.Terminal
  type Row = Terminals.Row

  /** Every row is a text row. */
  predicate AllText(rows: seq<Row>)
  {
    forall i :: 0 <= i < |rows| ==> rows[i].Text?
  }

  /** What the decoder needs of its terminal: a valid buffer of at least one row, all of them text. */
  ghost predicate Ready(t: Terminal)
    reads t, t.Repr, t.cursor
  {
    t.Valid() && |t.rows| > 0 && AllText(t.rows)
  }

  /** `Ready` without the cursor: what the screen's layout depends on. */
  ghost predicate Laid(t: Terminal)
    reads t, t.Repr
  {
    t.RowsValid() && t.MapValid() && |t.mapHeights| == |t.rows| && |t.rows| > 0 && AllText(t.rows)
  }

  /**
   * The rows on screen, their sublines, and the part of the first one
   * scrolled above the top, as the VT100 cursor sees them: the terminal's
   * first screen row, each screen row's subline count, the hidden height in
   * whole lines rounded up, the cells of a subline and the lines that fit
   * on the canvas.
   */
  ghost function ScreenOf(t: Terminal): (s: Screen)
    reads t, t.Repr
    requires Laid(t)
    ensures ScreenValid(s) && |s.sublines| == t.ScreenRowCountOf()
    ensures s.chars == MaximalColumnOf(t.metrics) + 1
  {
    HiddenNonNegative(t);
    var first := t.FirstScreenRow();
    var hidden := MaximumScrollbarValue(t.heightMap, t.pageSize) - StartOf(t.heightMap, first);
    Screen(ScreenSublines(t, |t.rows| - first), HiddenSublines(hidden, t.metrics.lineHeight),
           MaximalColumnOf(t.metrics) + 1, t.screenSize / t.metrics.lineHeight)
  }

  /** The subline counts of the first `n` rows on screen. */
  ghost function ScreenSublines(t: Terminal, n: nat): (s: seq<int>)
    reads t, t.Repr
    requires t.RowsValid() && 0 <= t.FirstScreenRow() && t.FirstScreenRow() + n <= |t.rows|
    ensures |s| == n && forall i :: 0 <= i < n ==> s[i] == Terminals.SublineCountOf(t.rows[t.FirstScreenRow() + i])
    ensures forall i :: 0 <= i < n ==> s[i] >= 1
  {
    if n == 0 then []
    else
      var last := t.rows[t.FirstScreenRow() + n - 1];
      assert Terminals.RowReady(last, t.metrics);
      ScreenSublines(t, n - 1) + [Terminals.SublineCountOf(last)]
  }

  /**
   * The screen depends on the layout only: with the rows, their subline
   * counts, the height map and the page kept, it is kept, whatever else a
   * row changed.
   */
  twostate lemma ScreenKept(t: Terminal)
    requires old(Laid(t)) && Laid(t) && t.rows == old(t.rows)
    requires t.heightMap == old(t.heightMap) && t.pageSize == old(t.pageSize)
    requires forall k :: 0 <= k < |t.rows| ==> Terminals.SublineCountOf(t.rows[k]) == old(Terminals.SublineCountOf(t.rows[k]))
    ensures ScreenOf(t) == old(ScreenOf(t))
  {
    HiddenNonNegative(t);
    var n := |t.rows| - t.FirstScreenRow();
    assert ScreenSublines(t, n) == old(ScreenSublines(t, n));
  }

  /** The first screen row is a row, and the part of it above the top is not negative. */
  lemma HiddenNonNegative(t: Terminal)
    requires Laid(t)
    ensures 0 <= t.FirstScreenRow() < |t.rows|
    ensures MaximumScrollbarValue(t.heightMap, t.pageSize) - StartOf(t.heightMap, t.FirstScreenRow()) >= 0
  {
    t.MapIncreasing();
    t.ScreenRowsBounds();
    RowIndexAtContains(t.heightMap, MaximumScrollbarValue(t.heightMap, t.pageSize));
  }

  /** Screen line `y` of the screen is the text row `GetScreenRow(y)` returns. */
  lemma SublineOfScreenLine(t: Terminal, y: int)
    requires Ready(t) && y >= 0
    ensures 0 <= t.ScreenRowAt(y) < |t.rows| && t.rows[t.ScreenRowAt(y)].Text?
    ensures SublineAt(ScreenOf(t), y) == t.rows[t.ScreenRowAt(y)].text.lineCount
  {
    HiddenNonNegative(t);
  }

  /** Screen line `y` of `s`, for every `y`, is a text row of `t` as `GetScreenRow(y)` finds it. */
  ghost predicate ShowsLines(t: Terminal, s: Screen)
    reads t, set i | 0 <= i < |t.rows| :: Terminals.ObjectOf(t.rows[i])
  {
    ScreenValid(s)
    && forall y :: y >= 0 ==>
         0 <= t.ScreenRowAt(y) < |t.rows| && t.rows[t.ScreenRowAt(y)].Text?
         && SublineAt(s, y) == Terminals.SublineCountOf(t.rows[t.ScreenRowAt(y)])
         && t.rows[t.ScreenRowAt(y)].text.maximalColumn + 1 == s.chars
  }

  /** Row `i` is a text row whose sublines hold `chars` cells, as high as the terminal's lines. */
  lemma TextRowShape(t: Terminal, i: int)
    requires Ready(t) && 0 <= i < |t.rows|
    ensures t.rows[i].Text? && t.rows[i].text.maximalColumn + 1 == ScreenOf(t).chars
    ensures t.rows[i].text.metrics.lineHeight == t.metrics.lineHeight && t.rows[i].text.lineCount >= 1
  {
    assert Terminals.RowReady(t.rows[i], t.metrics);
  }

  /** Every screen line at once. */
  lemma ScreenLines(t: Terminal)
    requires Ready(t)
    ensures ShowsLines(t, ScreenOf(t))
  {
    forall y | y >= 0
      ensures 0 <= t.ScreenRowAt(y) < |t.rows| && t.rows[t.ScreenRowAt(y)].Text?
              && SublineAt(ScreenOf(t), y) == Terminals.SublineCountOf(t.rows[t.ScreenRowAt(y)])
              && t.rows[t.ScreenRowAt(y)].text.maximalColumn + 1 == ScreenOf(t).chars
    {
      SublineOfScreenLine(t, y);
      TextRowShape(t, t.ScreenRowAt(y));
    }
  }

  /**
   * The nested `Cursor`'s `Position` getter: the sublines of the screen
   * rows above the cursor's row, less the hidden ones, plus the subline
   * of the cursor's cell in its row; the cell within its subline. The
   * sum is clamped at 0 once it is complete (see `VtPosition`).
   */
  method GetPosition(terminal: Terminal) returns (p: IntegerPosition)
    requires Ready(terminal)
    ensures p == VtPosition(old(ScreenOf(terminal)), old(terminal.cursor.position))
  {
    ghost var s := ScreenOf(terminal);
    ScreenLines(terminal);
    var position := terminal.cursor.position;
    var above := SumSublines(terminal, position.Y, s);
    var hidden, charsInRow := ScreenShape(terminal, s);
    var resultY := above - hidden + position.X / charsInRow;
    if resultY < 0 {
      resultY := 0;
    }
    p := IntegerPosition(position.X % charsInRow + 1, resultY + 1);
    VtPositionSteps(s, position, above, resultY);
  }

  /**
   * The rest of the getter: the sublines of the first screen row scrolled
   * above the top, and the cells per subline of the cursor's row.
   */
  method ScreenShape(terminal: Terminal, ghost s: Screen) returns (hidden: int, chars: int)
    requires Ready(terminal) && s == ScreenOf(terminal)
    ensures hidden == s.hidden && chars == s.chars
  {
    HiddenNonNegative(terminal);
    ghost var first := terminal.FirstScreenRow();
    TextRowShape(terminal, first);
    TextRowShape(terminal, terminal.ScreenRowAt(terminal.cursor.position.Y));
    assert s.hidden == HiddenSublines(MaximumScrollbarValue(terminal.heightMap, terminal.pageSize)
                                      - StartOf(terminal.heightMap, first), terminal.metrics.lineHeight);
    var firstRow, hiddenHeight := terminal.GetFirstScreenRow();
    assert firstRow == terminal.rows[first];
    hidden := HiddenSublines(hiddenHeight, firstRow.text.metrics.lineHeight);
    var row, _ := terminal.ScreenRow(terminal.cursor.position.Y);
    chars := row.text.maximalColumn + 1;
  }

  /** The getter's loop over the screen rows above screen line `y`, adding up their sublines. */
  method SumSublines(terminal: Terminal, y: int, ghost s: Screen) returns (n: int)
    requires ShowsLines(terminal, s) && y >= 0
    ensures n == SublinesBefore(s, y)
  {
    var i;
    n, i := 0, 0;
    while i < y
      invariant 0 <= i <= y && n == SublinesBefore(s, i)
    {
      n := n + terminal.rows[terminal.ScreenRowAt(i)].text.SublineCount();
      i := i + 1;
    }
  }

  /** The rows that were there stay, every row added after them is an empty text row, and their objects are new. */
  twostate predicate AppendedEmptyRows(t: Terminal)
    reads t, set i | 0 <= i < |t.rows| :: Terminals.ObjectOf(t.rows[i])
  {
    |old(t.rows)| <= |t.rows| && t.rows[..|old(t.rows)|] == old(t.rows) && EmptyFrom(t.rows, |old(t.rows)|)
    && fresh(t.Repr - old(t.Repr))
  }

  /** Empty rows appended, the old rows' objects untouched: the old row states kept, every new one empty. */
  twostate lemma StatesOfAppended(t: Terminal)
    requires old(t.RowsValid()) && t.RowsValid() && unchanged(old(t.Repr))
    requires |old(t.rows)| <= |t.rows| && t.rows[..|old(t.rows)|] == old(t.rows) && EmptyFrom(t.rows, |old(t.rows)|)
    ensures Terminals.StatesGrown(old(t.StatesOf(|t.rows|)), t.StatesOf(|t.rows|))
  {
    var n := |old(t.rows)|;
    forall k | 0 <= k < n ensures t.StatesOf(|t.rows|)[k] == old(t.StatesOf(|t.rows|))[k] {
      assert t.rows[k] == t.rows[..n][k];
      assert Terminals.ObjectOf(t.rows[k]) in old(t.Repr);
    }
  }

  /** Every row from `n` on is an empty text row. */
  ghost predicate EmptyFrom(rows: seq<Row>, n: nat)
    reads set i | 0 <= i < |rows| :: Terminals.ObjectOf(rows[i])
  {
    forall i :: n <= i < |rows| ==> rows[i].Text? && rows[i].text.content == []
  }

  /**
   * `AppendRow(new MonospaceTextRow(""), nonDummy)`: one empty text row
   * more at the bottom, one subline high; a row marked as holding output
   * moves `lastNonDummyRow` down to the new row count.
   */
  method AppendEmptyRow(terminal: Terminal, nonDummy: bool)
    requires Ready(terminal)
    modifies terminal
    ensures Ready(terminal)
    ensures terminal.lastNonDummyRow
            == if nonDummy then MonospaceRows.Max(old(terminal.lastNonDummyRow), |terminal.rows|) else old(terminal.lastNonDummyRow)
    ensures terminal.defaultForeground == old(terminal.defaultForeground) && terminal.defaultBackground == old(terminal.defaultBackground)
    ensures terminal.selectionColor == old(terminal.selectionColor)
    ensures |terminal.rows| == |old(terminal.rows)| + 1 && terminal.rows[..|old(terminal.rows)|] == old(terminal.rows)
    ensures terminal.rows[|old(terminal.rows)|].Text? && terminal.rows[|old(terminal.rows)|].text.content == []
    ensures terminal.rows[|old(terminal.rows)|].text.lineCount == 1
    ensures terminal.FirstScreenRow() >= old(terminal.FirstScreenRow())
    ensures AppendedEmptyRows(terminal) && fresh(terminal.Repr - old(terminal.Repr))
  {
    var row := PushEmptyRow(terminal, nonDummy);
    assert terminal.rows[|old(terminal.rows)|] == Terminals.Text(row);
    terminal.MapIncreasing();
    FirstRowGrows(old(terminal.heightMap), Total(old(terminal.heightMap)) + terminal.HeightOf(Terminals.Text(row)), terminal.pageSize);
  }

  /** The `AppendRow` call itself, with a new row holding no text. */
  method PushEmptyRow(terminal: Terminal, nonDummy: bool) returns (row: MonospaceRows.MonospaceTextRow)
    requires Ready(terminal)
    modifies terminal
    ensures fresh(row) && Ready(terminal) && row.content == [] && row.lineCount == 1
    ensures terminal.rows == old(terminal.rows) + [Terminals.Text(row)] && terminal.Repr == old(terminal.Repr) + {row}
    ensures terminal.heightMap == old(terminal.heightMap) + [Total(old(terminal.heightMap)) + terminal.HeightOf(Terminals.Text(row))]
    ensures terminal.pageSize == old(terminal.pageSize)
    ensures terminal.lastNonDummyRow
            == if nonDummy then MonospaceRows.Max(old(terminal.lastNonDummyRow), |terminal.rows|) else old(terminal.lastNonDummyRow)
    ensures terminal.defaultForeground == old(terminal.defaultForeground) && terminal.defaultBackground == old(terminal.defaultBackground)
    ensures terminal.selectionColor == old(terminal.selectionColor)
  {
    row := new MonospaceRows.MonospaceTextRow([]);
    terminal.AppendRow(Terminals.Text(row), nonDummy);
    assert terminal.rows[|old(terminal.rows)|] == Terminals.Text(row);
    TextRowShape(terminal, |old(terminal.rows)|);
    assert MonospaceRows.Lines(0, row.maximalColumn + 1) == 1;
  }

  /**
   * The nested `Cursor`'s `Position` setter: the request is clamped to the
   * screen, then counted down row by row from the first wholly shown
   * subline; the cursor goes to the requested column of the subline the
   * count ends on. When the count ends on a row on screen, only the cursor
   * moves, to `SetterTarget`. When it runs past the last row, empty rows
   * are appended, one per subline left, and the cursor goes to the
   * requested column of the last screen row. The loop is written as its
   * two phases: `Scan` over the rows on screen, then `AppendLines`.
   */
  method SetPosition(terminal: Terminal, value: IntegerPosition)
    requires Ready(terminal)
    modifies terminal, terminal.cursor
    ensures Ready(terminal) && AppendedEmptyRows(terminal) && terminal.SettingsKept()
    ensures unchanged(old(terminal.Repr))
    ensures terminal.cursor.enabled == old(terminal.cursor.enabled)
    ensures terminal.cursor.BlinkOf() == old(terminal.cursor.BlinkOf())
    ensures old(TargetRow(ScreenOf(terminal), value) < |ScreenOf(terminal).sublines|) ==>
              unchanged(terminal)
              && terminal.cursor.position == old(SetterTarget(ScreenOf(terminal), value))
    ensures old(TargetRow(ScreenOf(terminal), value) >= |ScreenOf(terminal).sublines|) ==>
              |terminal.rows| > |old(terminal.rows)|
              && terminal.cursor.position
                 == IntegerPosition(old(Clamped(ScreenOf(terminal), value)).X - 1, terminal.ScreenRowCountOf() - 1)
  {
    var p := Target(terminal, value);
    terminal.SetCursorPosition(p);
  }

  /** Everything the setter does before it moves the cursor: the cell it moves it to, and the rows it appends. */
  method Target(terminal: Terminal, value: IntegerPosition) returns (p: IntegerPosition)
    requires Ready(terminal)
    modifies terminal
    ensures Ready(terminal) && AppendedEmptyRows(terminal) && terminal.SettingsKept()
    ensures old(TargetRow(ScreenOf(terminal), value) < |ScreenOf(terminal).sublines|) ==>
              unchanged(terminal) && p == old(SetterTarget(ScreenOf(terminal), value))
              && TerminalCursor.ClampPosition(p, terminal.ScreenRowCountOf()) == p
    ensures old(TargetRow(ScreenOf(terminal), value) >= |ScreenOf(terminal).sublines|) ==>
              |terminal.rows| > |old(terminal.rows)|
              && TerminalCursor.ClampPosition(p, terminal.ScreenRowCountOf())
                 == IntegerPosition(old(Clamped(ScreenOf(terminal), value)).X - 1, terminal.ScreenRowCountOf() - 1)
  {
    ghost var s := ScreenOf(terminal);
    ScreenLines(terminal);
    terminal.MapIncreasing();
    HiddenNonNegative(terminal);
    var v, vt100Y := SetterStart(terminal, value, s);
    var resultY;
    resultY, vt100Y, p := Scan(terminal, vt100Y, v, s, value);
    if vt100Y > 0 {
      ClampedBounds(s, value);
      p := AppendAndLand(terminal, resultY, vt100Y, v);
    }
  }

  /** The clamped request and the count of sublines below the first wholly shown one the setter starts from. */
  method SetterStart(terminal: Terminal, value: IntegerPosition, ghost s: Screen) returns (v: IntegerPosition, vt100Y: int)
    requires Ready(terminal) && s == ScreenOf(terminal)
    ensures v == Clamped(s, value) && vt100Y == v.Y - (SublineAt(s, 0) - s.hidden)
  {
    ScreenLines(terminal);
    HiddenNonNegative(terminal);
    ghost var first := terminal.FirstScreenRow();
    TextRowShape(terminal, first);
    assert s.hidden == HiddenSublines(MaximumScrollbarValue(terminal.heightMap, terminal.pageSize)
                                      - StartOf(terminal.heightMap, first), terminal.metrics.lineHeight);
    var firstRow, hiddenPart := terminal.GetFirstScreenRow();
    assert firstRow == terminal.rows[first] == terminal.rows[terminal.ScreenRowAt(0)];
    var maxX := firstRow.text.maximalColumn + 1;
    var maxY := terminal.screenSize / firstRow.text.metrics.lineHeight;
    v := IntegerPosition(MonospaceRows.Min(value.X, maxX), MonospaceRows.Min(value.Y, maxY));
    v := IntegerPosition(MonospaceRows.Max(v.X, 1), MonospaceRows.Max(v.Y, 1));
    vt100Y := v.Y;
    vt100Y := vt100Y - (firstRow.text.SublineCount() - HiddenSublines(hiddenPart, firstRow.text.metrics.lineHeight));
  }

  /**
   * The setter's loop while it stays on the rows on screen: row by row
   * down while sublines are left to count and the next row is on screen.
   * Nothing changes; the count is `Descent`'s. When it ends on screen,
   * the cell the cursor goes to is `SetterTarget`, and it lies on screen.
   */
  method Scan(terminal: Terminal, vt100Y: int, v: IntegerPosition, ghost s: Screen, ghost value: IntegerPosition)
    returns (resultY: int, left: int, p: IntegerPosition)
    requires ShowsLines(terminal, s) && StrictlyIncreasing(terminal.heightMap) && |s.sublines| == terminal.ScreenRowCountOf()
    requires v == Clamped(s, value) && vt100Y == v.Y - (SublineAt(s, 0) - s.hidden)
    ensures 0 <= resultY < |s.sublines|
    ensures left <= 0 <==> TargetRow(s, value) < |s.sublines|
    ensures left <= 0 ==> p == SetterTarget(s, value) && TerminalCursor.ClampPosition(p, |s.sublines|) == p
    ensures left > 0 ==> resultY == |s.sublines| - 1
  {
    var count := terminal.ScreenRowCount();
    resultY, left := 0, vt100Y;
    while left > 0 && resultY + 1 < count
      invariant 0 <= resultY < count && Descent(s, resultY, left) == Descent(s, 0, vt100Y)
      decreases count - resultY
    {
      ghost var before := Descent(s, resultY, left);
      resultY := resultY + 1;
      var lines := terminal.rows[terminal.ScreenRowAt(resultY)].text.SublineCount();
      assert before == Descent(s, resultY, left - lines);
      left := left - lines;
    }
    if left > 0 {
      assert Descent(s, resultY, left) == Descent(s, count, left - SublineAt(s, count));
      p := v;
    } else {
      p := LandingCell(terminal, resultY, left, v);
      LandsOnTarget(terminal, s, value, resultY, left, v);
    }
  }

  /**
   * The cell the setter computes once its count has ended on screen line
   * `resultY`: the requested column `v.X` of the subline the leftover
   * count `left` points at, counting back from the row's last subline.
   */
  function LandingCell(terminal: Terminal, resultY: int, left: int, v: IntegerPosition): IntegerPosition
    reads terminal, set i | 0 <= i < |terminal.rows| :: Terminals.ObjectOf(terminal.rows[i])
    requires 0 <= terminal.ScreenRowAt(resultY) < |terminal.rows| && terminal.rows[terminal.ScreenRowAt(resultY)].Text?
  {
    var row := terminal.rows[terminal.ScreenRowAt(resultY)];
    IntegerPosition((row.text.SublineCount() - 1 + left) * (row.text.maximalColumn + 1) + v.X - 1, resultY)
  }

  /** When the count ends on a row on screen, the cell is `SetterTarget`, and it lies on screen. */
  lemma LandsOnTarget(t: Terminal, s: Screen, value: IntegerPosition, resultY: int, left: int, v: IntegerPosition)
    requires ShowsLines(t, s) && TargetRow(s, value) < |s.sublines| && v == Clamped(s, value)
    requires (resultY, left) == Descent(s, 0, v.Y - (SublineAt(s, 0) - s.hidden))
    ensures var p := LandingCell(t, resultY, left, v);
            p == SetterTarget(s, value) && TerminalCursor.ClampPosition(p, |s.sublines|) == p
  {
    SetThenGet(s, value);
  }

  /**
   * The setter once its count has run past the last row on screen: the
   * appending steps of its loop, then the requested column of the last
   * row, an empty row one subline high, with nothing left over.
   */
  method AppendAndLand(terminal: Terminal, y: int, left: int, v: IntegerPosition) returns (p: IntegerPosition)
    requires Ready(terminal) && y >= 0 && left > 0 && v.X >= 1
    requires terminal.FirstScreenRow() + y >= |terminal.rows| - 1
    modifies terminal
    ensures Ready(terminal) && terminal.SettingsKept() && AppendedEmptyRows(terminal)
    ensures |terminal.rows| > |old(terminal.rows)|
    ensures TerminalCursor.ClampPosition(p, terminal.ScreenRowCountOf()) == IntegerPosition(v.X - 1, terminal.ScreenRowCountOf() - 1)
  {
    var resultY, rest := AppendLines(terminal, y, left);
    p := LandingCell(terminal, resultY, rest, v);
    assert terminal.rows[terminal.ScreenRowAt(resultY)].text.SublineCount() - 1 + rest == 0;
  }

  /**
   * One step of the setter's loop: screen line `y`, after appending an
   * empty row when `y` is past the last row on screen, and its sublines.
   */
  method NextLine(terminal: Terminal, y: int) returns (lines: int, ghost appended: bool)
    requires Ready(terminal) && y >= 0
    modifies terminal
    ensures Ready(terminal) && terminal.SettingsKept() && AppendedEmptyRows(terminal)
    ensures appended <==> old(terminal.FirstScreenRow()) + y >= |old(terminal.rows)|
    ensures !appended ==> unchanged(terminal) && lines == Terminals.SublineCountOf(terminal.rows[terminal.ScreenRowAt(y)])
    ensures appended ==>
              |terminal.rows| == |old(terminal.rows)| + 1
              && terminal.rows[|old(terminal.rows)|].Text? && terminal.rows[|old(terminal.rows)|].text.lineCount == 1
              && lines == 1 && terminal.FirstScreenRow() + y >= |old(terminal.rows)|
  {
    terminal.MapIncreasing();
    var count := terminal.ScreenRowCount();
    appended := y >= count;
    if y >= count {
      AppendEmptyRow(terminal, false);
    }
    HiddenNonNegative(terminal);
    var row, _ := terminal.ScreenRow(y);
    TextRowShape(terminal, terminal.ScreenRowAt(y));
    lines := row.text.SublineCount();
  }

  /**
   * The setter's loop once it has run past the last row on screen: every
   * step appends an empty row, one subline high, so the count ends on the
   * last row with nothing left over.
   */
  method AppendLines(terminal: Terminal, y: int, count: int) returns (resultY: int, left: int)
    requires Ready(terminal) && y >= 0 && count > 0
    requires terminal.FirstScreenRow() + y >= |terminal.rows| - 1
    modifies terminal
    ensures Ready(terminal) && terminal.SettingsKept() && AppendedEmptyRows(terminal)
    ensures left == 0 && resultY == y + count && |terminal.rows| > |old(terminal.rows)|
    ensures terminal.ScreenRowAt(resultY) == |terminal.rows| - 1
    ensures terminal.rows[|terminal.rows| - 1].Text? && terminal.rows[|terminal.rows| - 1].text.lineCount == 1
  {
    ghost var rows0 := terminal.rows;
    resultY, left := y, count;
    while left > 0
      invariant Ready(terminal) && terminal.SettingsKept() && 0 <= left <= count && resultY == y + count - left
      invariant |rows0| <= |terminal.rows| && terminal.rows[..|rows0|] == rows0 && EmptyFrom(terminal.rows, |rows0|)
      invariant fresh(terminal.Repr - old(terminal.Repr))
      invariant terminal.FirstScreenRow() + resultY >= |terminal.rows| - 1
      invariant left < count ==> |terminal.rows| > |rows0| && terminal.rows[|terminal.rows| - 1].text.lineCount == 1
    {
      resultY := resultY + 1;
      var lines, added := NextLine(terminal, resultY);
      assert added && lines == 1;
      left := left - lines;
    }
  }
}
