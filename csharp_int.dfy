/**
 * C# integer arithmetic as the source uses it. Dafny's `/` and `%` are
 * Euclidean; C# division truncates toward zero and `%` takes the sign of the
 * dividend. Unchecked 32-bit arithmetic wraps around.
 */
module CSharpInt {
  const Int32Min: int := -0x8000_0000
  const Int32Max: int := 0x7FFF_FFFF

  predicate IsInt32(x: int) { Int32Min <= x <= Int32Max }

  /** C# `a / b`: the quotient truncated toward zero. */
  function Div(a: int, b: int): (q: int)
    requires b != 0
    ensures 0 <= a && 0 < b ==> q == a / b
    ensures (a - q * b) * a >= 0 && Abs(a - q * b) < Abs(b)
  {
    if a >= 0 then (if b > 0 then a / b else -(a / -b))
    else (if b > 0 then -((-a) / b) else (-a) / (-b))
  }

  /** C# `a % b`: the remainder of truncated division, with the sign of `a`. */
  function Mod(a: int, b: int): (r: int)
    requires b != 0
    ensures a == Div(a, b) * b + r
    ensures 0 <= a ==> 0 <= r < Abs(b)
    ensures a < 0 ==> -Abs(b) < r <= 0
  {
    a - Div(a, b) * b
  }

  function Abs(x: int): int { if x < 0 then -x else x }

  /** An `unchecked` conversion of an integer to `int`: the value modulo 2^32, in [Int32Min, Int32Max]. */
  function Wrap32(x: int): (r: int)
    ensures IsInt32(r)
    ensures (r - x) % 0x1_0000_0000 == 0
    ensures IsInt32(x) ==> r == x
  {
    var m := x % 0x1_0000_0000;
    if m <= Int32Max then m else m - 0x1_0000_0000
  }

  /**
   * `DivisionWithCeiling` (Rows/MonospaceTextRow.cs): the least number of
   * blocks of `divisor` that hold `dividend` items.
   */
  function DivCeil(dividend: int, divisor: int): (q: int)
    requires dividend > 0 && divisor > 0
    ensures (q - 1) * divisor < dividend <= q * divisor
    ensures q >= 1
  {
    (dividend + divisor - 1) / divisor
  }
}
