/**
 * The VT100 cursor of the decoder (Vt100/Decoder.cs:274-353): a position
 * counted in visible sublines from 1, over a terminal whose cursor is a row
 * index and a cell index that runs on through the row's sublines.
 *
 * The arithmetic sees the screen through `Screen`: the subline count of
 * each screen row, how many sublines of the first one are scrolled away,
 * the cells on a subline and the sublines that fit on the screen.
 */
module Vt100Cursor {
  import opened Positions
  import MonospaceRows

  datatype Screen = Screen(sublines: seq<int>, hidden: int, chars: int, maxY: int)

  /** At least one screen row, every row at least one subline high, at least one cell per subline. */
  predicate ScreenValid(s: Screen)
  {
    |s.sublines| >= 1 && (forall i :: 0 <= i < |s.sublines| ==> s.sublines[i] >= 1) && s.hidden >= 0 && s.chars >= 1
  }

  /** `(int)Math.Ceiling(hiddenHeight / lineHeight)`: the sublines at least partly scrolled away. */
  function HiddenSublines(hiddenHeight: int, lineHeight: int): (n: int)
    requires hiddenHeight >= 0 && lineHeight > 0
    ensures n >= 0
  {
    (hiddenHeight + lineHeight - 1) / lineHeight
  }

  /** The rounding is upwards: the least whole number of lines covering the hidden height. */
  lemma HiddenSublinesCeiling(hiddenHeight: int, lineHeight: int)
    requires hiddenHeight >= 0 && lineHeight > 0
    ensures var n := HiddenSublines(hiddenHeight, lineHeight);
            (n - 1) * lineHeight < hiddenHeight <= n * lineHeight
  {
    var a := hiddenHeight + lineHeight - 1;
    MonospaceRows.MulStep(a / lineHeight, lineHeight);
  }

  /** `((MonospaceTextRow)GetScreenRow(i)).SublineCount`: a line past the last row reads the last row. */
  function SublineAt(s: Screen, i: int): (n: int)
    requires ScreenValid(s)
    ensures n >= 1
  {
    s.sublines[MonospaceRows.Max(0, MonospaceRows.Min(i, |s.sublines| - 1))]
  }

  /** The sublines of the screen rows above row `y`. */
  function SublinesBefore(s: Screen, y: nat): (n: int)
    requires ScreenValid(s)
    ensures n >= y
  {
    if y == 0 then 0 else SublinesBefore(s, y - 1) + SublineAt(s, y - 1)
  }

  /** Each row adds at least one subline. */
  lemma {:induction false} SublinesIncrease(s: Screen, a: nat, b: nat)
    requires ScreenValid(s) && a <= b
    ensures SublinesBefore(s, a) + (b - a) <= SublinesBefore(s, b)
    decreases b - a
  {
    if a < b {
      SublinesIncrease(s, a, b - 1);
    }
  }

  /**
   * The getter as written: the sublines above the cursor's row, less the
   * hidden ones and clamped at 0, then the subline within the row added
   * after the clamp.
   */
  function VtPositionAsWritten(s: Screen, p: IntegerPosition): IntegerPosition
    requires ScreenValid(s) && p.X >= 0 && p.Y >= 0
  {
    IntegerPosition(p.X % s.chars + 1, MonospaceRows.Max(SublinesBefore(s, p.Y) - s.hidden, 0) + p.X / s.chars + 1)
  }

  /**
   * The getter as intended: the visible subline of the cursor, counted
   * from the first wholly shown subline, 0 when the cursor is above it;
   * the cell within the subline. Both count from 1.
   */
  function VtPosition(s: Screen, p: IntegerPosition): (v: IntegerPosition)
    requires ScreenValid(s) && p.X >= 0 && p.Y >= 0
    ensures 1 <= v.X <= s.chars && v.Y >= 1
  {
    IntegerPosition(p.X % s.chars + 1, MonospaceRows.Max(SublinesBefore(s, p.Y) - s.hidden + p.X / s.chars, 0) + 1)
  }

  /** The getter's steps: the rows above less the hidden sublines, the subline in the row, clamped at 0. */
  lemma VtPositionSteps(s: Screen, p: IntegerPosition, above: int, y: int)
    requires ScreenValid(s) && p.X >= 0 && p.Y >= 0 && above == SublinesBefore(s, p.Y)
    requires y == MonospaceRows.Max(above - s.hidden + p.X / s.chars, 0)
    ensures VtPosition(s, p) == IntegerPosition(p.X % s.chars + 1, y + 1)
  {
  }

  /** The setter's clamping: X into `1..chars`, Y to at most `maxY`, then to at least 1. */
  function Clamped(s: Screen, value: IntegerPosition): (v: IntegerPosition)
  {
    var v1 := IntegerPosition(MonospaceRows.Min(value.X, s.chars), MonospaceRows.Min(value.Y, s.maxY));
    IntegerPosition(MonospaceRows.Max(v1.X, 1), MonospaceRows.Max(v1.Y, 1))
  }

  lemma ClampedBounds(s: Screen, value: IntegerPosition)
    requires s.chars >= 1
    ensures var v := Clamped(s, value);
            1 <= v.X <= s.chars && v.Y >= 1 && (s.maxY >= 1 ==> v.Y <= s.maxY)
            && (1 <= value.X <= s.chars && 1 <= value.Y <= s.maxY ==> v == value)
  {
  }

  /**
   * The setter's `while(vt100Y > 0)` loop: from row `y`, with `remaining`
   * sublines still to go, step down one row at a time, taking away the
   * sublines of each row entered.
   */
  function Descent(s: Screen, y: nat, remaining: int): (r: (nat, int))
    requires ScreenValid(s)
    ensures r.0 >= y && r.1 <= 0
    decreases MonospaceRows.Max(remaining, 0)
  {
    if remaining <= 0 then (y, remaining)
    else Descent(s, y + 1, remaining - SublineAt(s, y + 1))
  }

  /**
   * Where the descent stops, counting `total` sublines from the top of
   * row 0: the first row whose bottom reaches `total`, with `total` less
   * the sublines down to that bottom left over.
   */
  lemma {:induction false} DescentStops(s: Screen, y: nat, total: int)
    requires ScreenValid(s)
    ensures var r := Descent(s, y, total - SublinesBefore(s, y + 1));
            r.1 == total - SublinesBefore(s, r.0 + 1)
            && total <= SublinesBefore(s, r.0 + 1)
            && (r.0 > y ==> SublinesBefore(s, r.0) < total)
    decreases MonospaceRows.Max(total - SublinesBefore(s, y + 1), 0)
  {
    var remaining := total - SublinesBefore(s, y + 1);
    if remaining > 0 {
      var next := remaining - SublineAt(s, y + 1);
      assert SublinesBefore(s, y + 2) == SublinesBefore(s, y + 1) + SublineAt(s, y + 1);
      assert next == total - SublinesBefore(s, y + 2);
      DescentStops(s, y + 1, total);
      assert Descent(s, y, remaining) == Descent(s, y + 1, next);
    } else {
      assert Descent(s, y, remaining) == (y, remaining);
    }
  }

  /** Only one row can be the first whose bottom reaches `total`. */
  lemma StoppingRowUnique(s: Screen, t: nat, u: nat, total: int)
    requires ScreenValid(s)
    requires total <= SublinesBefore(s, t + 1) && (t > 0 ==> SublinesBefore(s, t) < total)
    requires total <= SublinesBefore(s, u + 1) && (u > 0 ==> SublinesBefore(s, u) < total)
    ensures t == u
  {
    if t < u {
      SublinesIncrease(s, t + 1, u);
    } else if u < t {
      SublinesIncrease(s, u + 1, t);
    }
  }

  /** The row the setter ends on for `value`. */
  function TargetRow(s: Screen, value: IntegerPosition): nat
    requires ScreenValid(s)
  {
    var v := Clamped(s, value);
    Descent(s, 0, v.Y - (SublineAt(s, 0) - s.hidden)).0
  }

  /**
   * The setter's target: the row the descent ends on, and the cell of the
   * requested column on the subline the leftover count points at.
   */
  function SetterTarget(s: Screen, value: IntegerPosition): IntegerPosition
    requires ScreenValid(s)
  {
    var v := Clamped(s, value);
    var d := Descent(s, 0, v.Y - (SublineAt(s, 0) - s.hidden));
    IntegerPosition((SublineAt(s, d.0) - 1 + d.1) * s.chars + v.X - 1, d.0)
  }

  /** The cell index within a row, split into subline and column. */
  lemma CellSplit(x: int, chars: int, subline: int, column: int)
    requires chars >= 1 && x == subline * chars + column && 0 <= column < chars
    ensures x / chars == subline && x % chars == column
  {
    MonospaceRows.DivisionUnique(x, chars, subline, column);
  }

  /**
   * Reading the cursor back after setting it gives the clamped request:
   * the setter lands on the requested visible subline and column, when its
   * descent stays among the screen's rows (past them the source appends
   * rows).
   */
  lemma SetThenGet(s: Screen, value: IntegerPosition)
    requires ScreenValid(s) && TargetRow(s, value) < |s.sublines|
    ensures var p := SetterTarget(s, value);
            p.X >= 0 && p.Y >= 0 && VtPosition(s, p) == Clamped(s, value)
  {
    var v := Clamped(s, value);
    ClampedBounds(s, value);
    var total := v.Y + s.hidden;
    assert SublinesBefore(s, 1) == SublineAt(s, 0);
    DescentStops(s, 0, total);
    var d := Descent(s, 0, v.Y - (SublineAt(s, 0) - s.hidden));
    var t := d.0;
    var subline := SublineAt(s, t) - 1 + d.1;
    assert SublinesBefore(s, t + 1) == SublinesBefore(s, t) + SublineAt(s, t);
    assert subline >= 0 by {
      if t == 0 {
        assert SublinesBefore(s, 0) == 0;
      }
    }
    CellSplit(subline * s.chars + v.X - 1, s.chars, subline, v.X - 1);
    MonospaceRows.MultipleMonotone(0, subline, s.chars);
  }

  /**
   * Setting the cursor to what the getter reads gives the cursor back,
   * for a cursor within its row's sublines, on a wholly shown subline
   * that fits on the screen.
   */
  lemma GetThenSet(s: Screen, p: IntegerPosition)
    requires ScreenValid(s) && 0 <= p.Y < |s.sublines| && p.X >= 0
    requires p.X / s.chars < SublineAt(s, p.Y)
    requires 0 <= SublinesBefore(s, p.Y) - s.hidden + p.X / s.chars < s.maxY
    ensures SetterTarget(s, VtPosition(s, p)) == p
  {
    var k := p.X / s.chars;
    var column := p.X % s.chars;
    var v := VtPosition(s, p);
    assert v == IntegerPosition(column + 1, SublinesBefore(s, p.Y) - s.hidden + k + 1);
    assert Clamped(s, v) == v;
    var remaining := v.Y - (SublineAt(s, 0) - s.hidden);
    assert Descent(s, 0, remaining) == (p.Y, k + 1 - SublineAt(s, p.Y)) by {
      assert SublinesBefore(s, 0) == 0;
      assert SublinesBefore(s, 1) == SublineAt(s, 0);
      DescentReachesRow(s, p.Y, k, remaining);
    }
    assert SetterTarget(s, v) == IntegerPosition(k * s.chars + column, p.Y);
  }

  /** Counting down from the top of row 0 to subline `k` of row `y`, the descent stops on row `y` with that subline left over. */
  lemma DescentReachesRow(s: Screen, y: nat, k: int, remaining: int)
    requires ScreenValid(s) && 0 <= k < SublineAt(s, y)
    requires remaining == SublinesBefore(s, y) + k + 1 - SublinesBefore(s, 1)
    ensures Descent(s, 0, remaining) == (y, k + 1 - SublineAt(s, y))
  {
    var total := SublinesBefore(s, y) + k + 1;
    DescentStops(s, 0, total);
    var d := Descent(s, 0, remaining);
    assert SublinesBefore(s, y + 1) == SublinesBefore(s, y) + SublineAt(s, y);
    StoppingRowUnique(s, d.0, y, total);
  }

  /**
   * The getter as written counts the hidden sublines twice over for a
   * cursor on the first row: with two of the first row's five sublines
   * scrolled away, the cursor the setter places on the second visible
   * subline reads back as the fourth.
   */
  lemma GetterAsWrittenMisreads()
    ensures var s := Screen([5], 2, 10, 24);
            var p := SetterTarget(s, IntegerPosition(1, 2));
            p == IntegerPosition(30, 0)
            && VtPositionAsWritten(s, p) == IntegerPosition(1, 4)
            && VtPosition(s, p) == IntegerPosition(1, 2)
  {
    var s := Screen([5], 2, 10, 24);
    assert SublineAt(s, 0) == 5;
    assert Descent(s, 0, -1) == (0, -1);
    assert SublinesBefore(s, 0) == 0;
  }

  /** Both getters agree whenever no subline of the first row is hidden above the cursor's row. */
  lemma GettersAgreeBelowHidden(s: Screen, p: IntegerPosition)
    requires ScreenValid(s) && p.X >= 0 && p.Y >= 0 && SublinesBefore(s, p.Y) >= s.hidden
    ensures VtPositionAsWritten(s, p) == VtPosition(s, p)
  {
  }
}
