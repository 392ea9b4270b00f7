/**
 * `IntegerPosition` (Misc/IntegerPosition.cs): an immutable (X, Y) pair of
 * cell coordinates. Every operation returns a new value.
 */
module Positions {
  import opened Wrappers
  import CSharpInt

  datatype IntegerPosition = IntegerPosition(X: int, Y: int)
  {
    function ShiftedBy(deltaX: int, deltaY: int): IntegerPosition
    {
      IntegerPosition(X + deltaX, Y + deltaY)
    }

    function ShiftedByX(delta: int): IntegerPosition
    {
      IntegerPosition(X + delta, Y)
    }

    function ShiftedByY(delta: int): IntegerPosition
    {
      IntegerPosition(X, Y + delta)
    }

    function WithX(x: int): IntegerPosition
    {
      IntegerPosition(x, Y)
    }

    function WithY(y: int): IntegerPosition
    {
      IntegerPosition(X, y)
    }

    /** `unchecked(23 * X + Y)`: the hash wraps around to a 32-bit `int`. */
    function GetHashCode(): (h: int)
      ensures CSharpInt.IsInt32(h)
      ensures (h - (23 * X + Y)) % 0x1_0000_0000 == 0
    {
      CSharpInt.Wrap32(23 * X + Y)
    }

    /**
     * `Equals(object)`: `other` is `None` when the object is not an
     * `IntegerPosition` (or is null).
     */
    function Equals(other: Option<IntegerPosition>): bool
    {
      other.Some? && Same(this, other.value)
    }
  }

  /** `operator ==`: componentwise comparison. */
  predicate Same(a: IntegerPosition, b: IntegerPosition)
  {
    a.X == b.X && a.Y == b.Y
  }

  /** `operator !=`. */
  predicate Differ(a: IntegerPosition, b: IntegerPosition)
  {
    !Same(a, b)
  }

  /** The position `new IntegerPosition()`: both coordinates zero. */
  const Origin := IntegerPosition(0, 0)

  lemma ShiftedByMovesBoth(p: IntegerPosition, dx: int, dy: int)
    ensures p.ShiftedBy(dx, dy).X - p.X == dx && p.ShiftedBy(dx, dy).Y - p.Y == dy
    ensures p.ShiftedByX(dx).Y == p.Y && p.ShiftedByX(dx).X - p.X == dx
    ensures p.ShiftedByY(dy).X == p.X && p.ShiftedByY(dy).Y - p.Y == dy
  {
  }

  lemma ShiftedByComposes(p: IntegerPosition, dx: int, dy: int)
    ensures p.ShiftedBy(dx, dy) == p.ShiftedByX(dx).ShiftedByY(dy)
    ensures p.ShiftedBy(dx, dy) == p.ShiftedByY(dy).ShiftedByX(dx)
    ensures p.ShiftedBy(dx, dy).ShiftedBy(-dx, -dy) == p
  {
  }

  lemma WithReplacesOne(p: IntegerPosition, v: int)
    ensures p.WithX(v).X == v && p.WithX(v).Y == p.Y
    ensures p.WithY(v).Y == v && p.WithY(v).X == p.X
    ensures p.WithX(p.X) == p && p.WithY(p.Y) == p
  {
  }

  /** `==` is value equality, `!=` its negation, and `Equals` agrees with `==`. */
  lemma EqualityAgrees(a: IntegerPosition, b: IntegerPosition)
    ensures Same(a, b) <==> a == b
    ensures Differ(a, b) <==> a != b
    ensures a.Equals(Some(b)) <==> Same(a, b)
    ensures !a.Equals(None)
  {
  }

  /** Positions equal under `==` have equal hashes. */
  lemma HashRespectsEquality(a: IntegerPosition, b: IntegerPosition)
    requires Same(a, b)
    ensures a.GetHashCode() == b.GetHashCode()
  {
  }
}
