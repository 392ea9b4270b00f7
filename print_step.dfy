/**
 * How `HandleRegularCharacter` (Vt100/Decoder.cs:108-143) places an
 * element: the cell it goes into, the deferred wrap at the end of a
 * subline, and what the terminal holds afterwards, stated on values so
 * that the decoder's methods can pass it along whole.
 */
module Vt100Printing {
  import opened Wrappers
  import opened Positions
  import opened RowMetrics
  import opened Vt100Cursor
  import opened Vt100Screens
  import Terminals
  import MonospaceRows
  import Colors

  type Terminal = Terminals.Terminal

  /** The cells on one subline of a text row of `t`: `MaximalColumn + 1`. */
  function CellsPerLine(t: Terminal): (n: int)
    requires Measured(t.metrics)
    ensures n >= 1
  {
    MaximalColumnOf(t.metrics) + 1
  }

  /**
   * The screen line the cursor setter leaves line `y` on, `count` rows
   * being on screen: the Y of `ClampPosition`, which is not below the
   * top and not past the last screen line.
   */
  function ClampedLine(y: int, count: int): (l: int)
    ensures count >= 1 ==> 0 <= l < count && (0 <= y < count ==> l == y)
  {
    var top := if y < 0 then 0 else y;
    if top >= count then count - 1 else top
  }

  /**
   * Whether writing `what` into cell `cell` of the text `t` changes the
   * number of sublines of `chars` cells the row needs, which makes
   * `InsertCharacterAtCursor` refresh the terminal.
   */
  predicate Reflows(t: Terminals.RowText, cell: nat, what: MonospaceRows.Element, chars: int)
    requires chars >= 1
  {
    t.RowText? && MonospaceRows.SublinesChanged(|t.content|, |MonospaceRows.PutContent(t.content, cell, what)|, chars)
  }

  /** Where the deferred step right leaves cursor `c`, `count` rows being on screen: one cell right, its line clamped. */
  function Stepped(c: IntegerPosition, atEnd: bool, count: int): IntegerPosition
  {
    if atEnd then IntegerPosition(c.X + 1, ClampedLine(c.Y, count)) else c
  }

  /** Column `x` is the last cell of its subline of `chars` cells. */
  predicate LastCell(x: int, chars: int)
    requires chars >= 1
  {
    x % chars == chars - 1
  }

  /**
   * `HandleRegularCharacter` on the cursor's column `x`, `atEnd` being
   * the end-of-line flag, `chars` cells to a subline: the cell written
   * (one further right when the flag was set), the column the cursor is
   * left on, and the new flag. A cell that is not the last of its
   * subline moves the cursor on; the last one leaves it there and sets
   * the flag instead, so the wrap waits for the next element.
   */
  function PrintStep(x: int, atEnd: bool, chars: int): (int, int, bool)
    requires chars >= 1
  {
    var cell := if atEnd then x + 1 else x;
    if !LastCell(cell, chars) then (cell, cell + 1, false) else (cell, cell, true)
  }

  /**
   * The deferred wrap: an element printed in the last cell of a subline
   * leaves the cursor on that cell with the flag set, and the next one
   * goes to the first cell of the following subline.
   */
  lemma DeferredWrap(x: int, chars: int)
    requires chars >= 1 && x % chars == chars - 1
    ensures PrintStep(x, false, chars) == (x, x, true)
    ensures var (cell, _, _) := PrintStep(x, true, chars);
            cell == x + 1 && cell % chars == 0
  {
    MonospaceRows.DivisionUnique(x + 1, chars, x / chars + 1, 0);
  }

  /** The three parts of `PrintStep`, one by one. */
  lemma StepParts(x: int, atEnd: bool, chars: int)
    requires chars >= 1
    ensures var step := PrintStep(x, atEnd, chars);
            step.0 == x + (if atEnd then 1 else 0) && (step.2 <==> LastCell(step.0, chars))
            && step.1 == step.0 + (if step.2 then 0 else 1)
  {
  }

  /** Whatever the flag, each element printed goes into the cell right after the one before it. */
  lemma ConsecutiveCells(x: int, atEnd: bool, chars: int)
    requires chars >= 1
    ensures var (cell, next, flag) := PrintStep(x, atEnd, chars);
            PrintStep(next, flag, chars).0 == cell + 1
            && (flag ==> next == cell) && (!flag ==> next == cell + 1)
  {
  }

  /**
   * What the print path reads off the terminal before it writes: the
   * rows' texts, the row under the cursor, the cursor, the number of rows
   * on screen, the first of them and the screen.
   */
  datatype Place = Place(texts: seq<Terminals.RowText>, row: int, cursor: IntegerPosition, count: int, first: int, screen: Screen)

  ghost function PlaceOf(t: Terminal): Place
    reads t, t.Repr, t.cursor
    requires Ready(t)
  {
    Place(t.TextsOf(|t.rows|), t.ScreenRowAt(t.cursor.position.Y), t.cursor.position, t.ScreenRowCountOf(), t.FirstScreenRow(),
          ScreenOf(t))
  }

  /**
   * What `HandleRegularCharacter` leaves, read off the place `p` it
   * started from, the end-of-line flag `atEnd`, the colours and `chars`
   * cells to a subline: the rows' `texts` are `p`'s with the element put
   * into the cell `PrintStep` names, in the row under the cursor; the
   * cursor's column and the new flag `atEndAfter` are as `PrintStep`
   * says. When the row keeps its number of sublines the first screen row
   * and the screen stay, and the cursor stays on its screen line (the
   * deferred step right clamps it onto the screen). When the number
   * changes, `Refresh` rebuilds the layout and shifts the cursor's line by
   * as many rows as the first screen row moved, clamped onto the new
   * screen of `count` rows.
   */
  ghost predicate PrintedAt(p: Place, atEnd: bool, what: MonospaceRows.Element, foreground: Option<Colors.Color>,
                            background: Option<Colors.Color>, chars: int, texts: seq<Terminals.RowText>,
                            cursor: IntegerPosition, atEndAfter: bool, first: int, screen: Screen, count: int)
    requires chars >= 1
  {
    var q := p.(cursor := Stepped(p.cursor, atEnd, p.count));
    var step := PrintStep(p.cursor.X, atEnd, chars);
    0 <= q.row < |q.texts| && q.cursor.X >= 0
    && texts == q.texts[q.row := Terminals.PutText(q.texts[q.row], q.cursor.X, what, foreground, background)]
    && cursor.X == step.1 && atEndAfter == step.2
    && if Reflows(q.texts[q.row], q.cursor.X, what, chars)
       then cursor.Y == ClampedLine(q.cursor.Y - (first - q.first), count)
       else first == q.first && screen == q.screen && cursor.Y == if atEndAfter then q.cursor.Y else ClampedLine(q.cursor.Y, q.count)
  }

  /** `PrintedAt` on the terminal `t` as it is now. */
  ghost predicate PrintedIn(t: Terminal, p: Place, atEnd: bool, what: MonospaceRows.Element, foreground: Option<Colors.Color>,
                            background: Option<Colors.Color>, atEndAfter: bool)
    reads t, t.Repr, t.cursor
    requires Ready(t)
  {
    var a := PlaceOf(t);
    PrintedAt(p, atEnd, what, foreground, background, CellsPerLine(t), a.texts, a.cursor, atEndAfter, a.first, a.screen, a.count)
  }

  /**
   * What `InsertCharacterAtCursor` leaves, `a` being the place after it
   * and `p` the one before: `what` is in the cell under the cursor, in the
   * row of its screen line, and nothing else in the texts changed.
   * `refreshed` tells whether the row's number of sublines changed; then
   * the cursor's line moved by as many rows as the first screen row did,
   * clamped onto the screen, and otherwise the cursor, the first screen
   * row and the screen are those of `p`. The cursor's column stays.
   */
  ghost predicate Inserted(p: Place, what: MonospaceRows.Element, foreground: Option<Colors.Color>,
                           background: Option<Colors.Color>, chars: int, a: Place, refreshed: bool)
    requires chars >= 1
  {
    0 <= p.row < |p.texts| && p.cursor.X >= 0
    && a.texts == p.texts[p.row := Terminals.PutText(p.texts[p.row], p.cursor.X, what, foreground, background)]
    && (refreshed <==> Reflows(p.texts[p.row], p.cursor.X, what, chars))
    && a.cursor.X == p.cursor.X
    && if refreshed
       then a.cursor.Y == ClampedLine(p.cursor.Y - (a.first - p.first), a.count)
       else a.cursor == p.cursor && a.first == p.first && a.screen == p.screen && a.count == p.count
  }

  /**
   * What `Refresh` leaves when `refreshed`, `a` being the place after it
   * and `m` the one before: the texts and the cursor's column stay, and
   * the cursor's line moves by as many rows as the first screen row did,
   * clamped onto the new screen. Without a refresh nothing changes.
   */
  ghost predicate Reflowed(m: Place, a: Place, refreshed: bool)
  {
    if refreshed
    then a.texts == m.texts && a.cursor.X == m.cursor.X && a.cursor.Y == ClampedLine(m.cursor.Y - (a.first - m.first), a.count)
    else a == m
  }

  /**
   * `Inserted` from its two steps: the write leaves `m`, which keeps
   * everything of `p` but the text of the row under the cursor, and the
   * refresh, taken when the row reflowed, then leaves `a`.
   */
  lemma InsertedFromPut(p: Place, what: MonospaceRows.Element, foreground: Option<Colors.Color>,
                        background: Option<Colors.Color>, chars: int, m: Place, a: Place, refreshed: bool)
    requires chars >= 1
    requires 0 <= p.row < |p.texts| && p.cursor.X >= 0
    requires m == p.(texts := p.texts[p.row := Terminals.PutText(p.texts[p.row], p.cursor.X, what, foreground, background)])
    requires refreshed <==> Reflows(p.texts[p.row], p.cursor.X, what, chars)
    requires Reflowed(m, a, refreshed)
    ensures Inserted(p, what, foreground, background, chars, a, refreshed)
  {
  }

  /** Clamping a line a second time onto the same screen leaves it. */
  lemma ClampedTwice(y: int, count: int)
    ensures ClampedLine(ClampedLine(y, count), count) == ClampedLine(y, count)
  {
  }

  /**
   * `PrintedAt` from its two steps: the deferred step right and the write
   * leave the place `a`, as `Inserted` says, and the advance then leaves
   * `b`, the cursor one cell right unless it is on the last cell of its
   * subline, which sets the flag.
   */
  lemma PrintedFromInserted(p: Place, atEnd: bool, what: MonospaceRows.Element, foreground: Option<Colors.Color>,
                            background: Option<Colors.Color>, chars: int, a: Place, b: Place, atEndAfter: bool, refreshed: bool)
    requires chars >= 1
    requires Inserted(p.(cursor := Stepped(p.cursor, atEnd, p.count)), what, foreground, background, chars, a, refreshed)
    requires atEndAfter <==> LastCell(a.cursor.X, chars)
    requires b == a.(cursor := Stepped(a.cursor, !atEndAfter, a.count))
    ensures PrintedAt(p, atEnd, what, foreground, background, chars, b.texts, b.cursor, atEndAfter, b.first, b.screen, b.count)
  {
    StepParts(p.cursor.X, atEnd, chars);
    ClampedTwice(a.cursor.Y, a.count);
  }
}
