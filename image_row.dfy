/**
 * `ImageRow` (Rows/ImageRow.cs): a row that shows a picture. Its height is
 * a whole number of lines: the preferred number of lines when one was
 * given, otherwise as many lines as the picture's height fills, and never
 * fewer than one. It holds no text, so erasing, selecting, the cursor and
 * the clipboard leave it alone. Scaling and drawing the picture are not
 * modelled; the picture is represented by its height in pixels.
 */
module ImageRows {
  import opened Wrappers
  import opened RowMetrics
  import CSharpInt
  import Clipboard
  import Colors
  import MonospaceRows

  /**
   * `SublineCount` after `PrepareForDrawing`:
   * `Math.Max(1, (int)(preferredHeight / lineHeight))`, where the preferred
   * height is `lineHeight * preferredLines` when a number of lines was given
   * and the picture's height otherwise. The cast truncates toward zero.
   */
  function ImageSublines(preferredLines: Option<int>, imageHeight: nat, lineHeight: nat): (r: int)
    requires lineHeight > 0
    ensures r >= 1
    ensures preferredLines.Some? && preferredLines.value >= 1 ==> r == preferredLines.value
    ensures preferredLines.Some? && preferredLines.value < 1 ==> r == 1
    ensures preferredLines.None? && imageHeight >= lineHeight ==>
              r * lineHeight <= imageHeight < (r + 1) * lineHeight
    ensures preferredLines.None? && imageHeight < lineHeight ==> r == 1
  {
    var preferredHeight := match preferredLines
      case Some(n) => lineHeight * n
      case None => imageHeight;
    var fit := CSharpInt.Div(preferredHeight, lineHeight);
    assert preferredLines.Some? ==> fit == preferredLines.value by {
      if preferredLines.Some? {
        LinesTimesHeight(preferredLines.value, lineHeight);
      }
    }
    if fit > 1 then fit else 1
  }

  /** Truncating `lineHeight * n` by `lineHeight` gives back `n`. */
  lemma LinesTimesHeight(n: int, lineHeight: nat)
    requires lineHeight > 0
    ensures CSharpInt.Div(lineHeight * n, lineHeight) == n
  {
    if n >= 0 {
      ExactQuotient(n, lineHeight);
    } else {
      assert lineHeight * n == -(lineHeight * -n);
      ExactQuotient(-n, lineHeight);
    }
  }

  lemma ExactQuotient(n: nat, d: nat)
    requires d > 0
    ensures (d * n) / d == n
  {
    MonospaceRows.DivisionUnique(d * n, d, n, 0);
  }

  class ImageRow {
    /** The picture's height in pixels, `image.Height`. */
    const imageHeight: nat
    const preferredHeightInLines: Option<int>
    var sublineCount: int
    var maximalColumn: int
    var lineHeight: nat

    ghost predicate Valid()
      reads this
    {
      sublineCount >= 0 && maximalColumn >= 0
    }

    /** A new row has not been measured yet: every size is 0. */
    constructor (imageHeight: nat, preferredHeightInLines: Option<int>)
      ensures Valid()
      ensures this.imageHeight == imageHeight && this.preferredHeightInLines == preferredHeightInLines
      ensures sublineCount == 0 && maximalColumn == 0 && lineHeight == 0
    {
      this.imageHeight := imageHeight;
      this.preferredHeightInLines := preferredHeightInLines;
      sublineCount := 0;
      maximalColumn := 0;
      lineHeight := 0;
    }

    function SublineCount(): int
      reads this
    {
      sublineCount
    }

    /** `CurrentMaximalCursorPosition`: the last column of the one cursor line an image offers. */
    function CurrentMaximalCursorPosition(): (r: int)
      reads this
      requires Valid()
      ensures r == maximalColumn && r >= 0
    {
      maximalColumn
    }

    /**
     * `PrepareForDrawing`: takes the last column from the line width, fixes
     * the number of lines, and returns the row's height, a whole number of
     * lines and at least one.
     */
    method PrepareForDrawing(m: Metrics) returns (height: int)
      requires Measured(m)
      modifies this
      ensures Valid()
      ensures maximalColumn == MaximalColumnOf(m)
      ensures sublineCount == ImageSublines(preferredHeightInLines, imageHeight, m.lineHeight)
      ensures lineHeight == m.lineHeight
      ensures height == lineHeight * sublineCount && height >= lineHeight
    {
      maximalColumn := MaximalColumnOf(m);
      var preferredHeight := match preferredHeightInLines
        case Some(n) => m.lineHeight * n
        case None => imageHeight;
      var fit := CSharpInt.Div(preferredHeight, m.lineHeight);
      sublineCount := if fit > 1 then fit else 1;
      lineHeight := m.lineHeight;
      height := lineHeight * sublineCount;
    }

    /** `Erase` does nothing to a picture. */
    method Erase(from: int, to: int, background: Option<Colors.Color>)
      ensures sublineCount == old(sublineCount) && maximalColumn == old(maximalColumn) && lineHeight == old(lineHeight)
    {
    }

    /** `ResetSelection` does nothing: a picture holds no selection. */
    method ResetSelection()
      ensures sublineCount == old(sublineCount) && maximalColumn == old(maximalColumn) && lineHeight == old(lineHeight)
    {
    }

    /** `DrawCursor` draws nothing over a picture. */
    method DrawCursor(offset: int, focused: bool)
      ensures sublineCount == old(sublineCount) && maximalColumn == old(maximalColumn) && lineHeight == old(lineHeight)
    {
    }

    /** `FillClipboardData` adds no text. */
    method FillClipboardData(data: Clipboard.ClipboardData)
      ensures data.rows == old(data.rows)
    {
    }
  }
}
