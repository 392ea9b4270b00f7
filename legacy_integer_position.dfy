/**
 * `IntegerPosition` of the older `Terminal` namespace (IntegerPosition.cs):
 * the same shift and replace operations, without equality operators or a hash.
 */
module LegacyPositions {
  datatype IntegerPosition = IntegerPosition(X: int, Y: int)
  {
    function ShiftedBy(deltaX: int, deltaY: int): IntegerPosition
    {
      IntegerPosition(X + deltaX, Y + deltaY)
    }

    function ShiftedByX(delta: int): IntegerPosition
    {
      IntegerPosition(X + delta, Y)
    }

    function ShiftedByY(delta: int): IntegerPosition
    {
      IntegerPosition(X, Y + delta)
    }

    function WithX(x: int): IntegerPosition
    {
      IntegerPosition(x, Y)
    }

    function WithY(y: int): IntegerPosition
    {
      IntegerPosition(X, y)
    }
  }

  const Origin := IntegerPosition(0, 0)

  lemma ShiftedByMovesBoth(p: IntegerPosition, dx: int, dy: int)
    ensures p.ShiftedBy(dx, dy).X - p.X == dx && p.ShiftedBy(dx, dy).Y - p.Y == dy
    ensures p.ShiftedByX(dx).Y == p.Y && p.ShiftedByX(dx).X - p.X == dx
    ensures p.ShiftedByY(dy).X == p.X && p.ShiftedByY(dy).Y - p.Y == dy
  {
  }

  lemma ShiftedByComposes(p: IntegerPosition, dx: int, dy: int)
    ensures p.ShiftedBy(dx, dy) == p.ShiftedByX(dx).ShiftedByY(dy)
  {
  }

  lemma WithReplacesOne(p: IntegerPosition, v: int)
    ensures p.WithX(v).X == v && p.WithX(v).Y == p.Y
    ensures p.WithY(v).Y == v && p.WithY(v).X == p.X
  {
  }
}
