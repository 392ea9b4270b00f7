/**
 * The layout measurements a row is prepared with: the line width and line
 * height the layout parameters give (`LineSizeCache`) and the width of one
 * character (`CharSizeCache`). Pixels are kept as integers; the source's
 * doubles are not modelled.
 */
module RowMetrics {

  datatype Metrics = Metrics(lineWidth: nat, lineHeight: nat, charWidth: nat)

  /** What a row holds before its first `PrepareForDrawing`: every size is 0. */
  const Unmeasured: Metrics := Metrics(0, 0, 0)

  /** A font has been measured: a line and a character have positive size. */
  predicate Measured(m: Metrics)
  {
    m.lineHeight > 0 && m.charWidth > 0
  }

  /**
   * `Math.Max((int)(lineSize.Width / charWidth) - 1, 0)`: the last column
   * index of a subline. When at least one character fits, exactly
   * `MaximalColumnOf(m) + 1` characters fit on a line.
   */
  function MaximalColumnOf(m: Metrics): (r: nat)
    requires m.charWidth > 0
  {
    var fit := m.lineWidth / m.charWidth;
    if fit - 1 > 0 then fit - 1 else 0
  }
}
