/**
 * `MonospaceTextRow` of the older `Terminal` namespace
 * (MonospaceTextRow.cs): a row of text elements like the later row, but
 * with its element count kept in a field of its own, an `Erase` that does
 * not trim, and a selection whose text stops one element before the last
 * cell it paints. `StringInfo.SubstringByTextElements` throws
 * `ArgumentOutOfRangeException` on an empty text, a start outside it or a
 * count that runs past its end; each such throw is a `thrown` result, with
 * the fields as they were when it happened.
 */
module LegacyMonospaceRows {
  import opened Wrappers
  import opened Colors
  import opened RowMetrics
  import opened Strings
  import CSharpInt
  import MonospaceRows
  import LegacyTextRows
  import LegacyClipboard

  type Element = MonospaceRows.Element

  function Min(a: int, b: int): int { if a < b then a else b }
  function Max(a: int, b: int): int { if a < b then b else a }

  /** `SubstringByTextElements(start, count)` on a text of `length` elements returns rather than throws. */
  predicate SubstringDefined(length: nat, start: int, count: int)
  {
    0 <= start < length && 0 <= count && start + count <= length
  }

  /**
   * The content `Erase` builds (lines 144-156) with `last` the capped
   * `to`: the elements before `from`, `last - from` spaces when that is
   * positive, and the elements from `last` on; `None` where a substring
   * call throws.
   */
  function ErasedContent(c: seq<Element>, from: int, last: int): Option<seq<Element>>
  {
    if !SubstringDefined(|c|, 0, from) then None
    else
      var blanks := if last > from then MonospaceRows.Spaces(last - from) else [];
      if last < |c| then
        if SubstringDefined(|c|, last, |c| - last) then Some(c[..from] + blanks + c[last..]) else None
      else Some(c[..from] + blanks)
  }

  /**
   * `Erase` throws exactly on an empty row, a `from` outside `[0, length]`
   * or a negative `to`.
   */
  lemma ErasedContentThrows(c: seq<Element>, from: int, to: int)
    ensures ErasedContent(c, from, Min(to, |c| - 1)).None? <==> |c| == 0 || from < 0 || from > |c| || to < 0
  {
  }

  /**
   * Erasing forwards keeps the length, turns the elements from `from` up
   * to, but not including, `last` into spaces, and keeps every other one:
   * element `last` stays although its overrides are erased.
   */
  lemma ErasedForwards(c: seq<Element>, from: int, last: int)
    requires ErasedContent(c, from, last).Some? && from <= last < |c|
    ensures var r := ErasedContent(c, from, last).value;
            |r| == |c|
            && (forall k :: from <= k < last ==> r[k] == " ")
            && (forall k :: 0 <= k < |c| && !(from <= k < last) ==> r[k] == c[k])
  {
    var r := ErasedContent(c, from, last).value;
    var blanks := if last > from then MonospaceRows.Spaces(last - from) else [];
    assert r == c[..from] + blanks + c[last..];
    forall k | 0 <= k < |c| && last <= k
      ensures r[k] == c[k]
    {
      assert r[k] == c[last..][k - last];
    }
  }

  /**
   * Erasing backwards (`last < from`) writes no space and repeats the
   * elements from `last` up to `from`: the row grows by `from - last`.
   */
  lemma ErasedBackwardsRepeats(c: seq<Element>, from: int, last: int)
    requires ErasedContent(c, from, last).Some? && last < from
    ensures var r := ErasedContent(c, from, last).value;
            |r| == |c| + (from - last) && r[..from] == c[..from] && r[from..] == c[last..]
  {
  }

  /**
   * The content `InsertCharacterAt` builds (lines 216-240) from the
   * content `c` and the element count `n` the row holds: up to `x` the old
   * text, padded with `x - n` spaces when `n < x`; then `what`; then the
   * elements after `x` when `n > x + 1`. `None` where a substring call
   * throws.
   */
  function InsertedContent(c: seq<Element>, n: int, x: int, what: Element): Option<seq<Element>>
  {
    var head: Option<seq<Element>> :=
      if x > 0 then
        (if n < x then Some(c + MonospaceRows.Spaces(x - n))
         else if SubstringDefined(|c|, 0, x) then Some(c[..x])
         else None)
      else Some([]);
    if head.None? then None
    else if n > x + 1 then
      (if SubstringDefined(|c|, x + 1, |c| - (x + 1)) then Some(head.value + [what] + c[x + 1..]) else None)
    else Some(head.value + [what])
  }

  /**
   * While the count is right, inserting at `x >= 0` never throws and is
   * `PutCharacterAt`'s placement: padded with spaces up to `x`, `what` at
   * `x`, every other element kept, and the new count, `Max(x + 1, n)`, is
   * the new length.
   */
  lemma InsertedAsPut(c: seq<Element>, x: nat, what: Element)
    ensures InsertedContent(c, |c|, x, what) == Some(MonospaceRows.PutContent(c, x, what))
    ensures |MonospaceRows.PutContent(c, x, what)| == Max(x + 1, |c|)
  {
    MonospaceRows.PutContentPlaces(c, x, what);
    var tail: seq<Element> := if |c| > x + 1 then c[x + 1..] else [];
    assert |c| > x + 1 ==> SubstringDefined(|c|, x + 1, |c| - (x + 1));
    var head: seq<Element>;
    if x == 0 {
      head := [];
      assert [] + [what] == [what];
    } else if x < |c| {
      assert SubstringDefined(|c|, 0, x);
      head := c[..x];
    } else if x == |c| {
      head := c[..x];
      assert c[..x] == c;
      assert c + MonospaceRows.Spaces(0) == c;
    } else {
      head := c + MonospaceRows.Spaces(x - |c|);
    }
    if |c| <= x + 1 {
      assert head + [what] + tail == head + [what];
    }
    assert InsertedContent(c, |c|, x, what) == Some(head + [what] + tail);
  }

  /**
   * At `x == -1` the element is put before the first one, but the count
   * stays at the old length, one short of the new one; below -1 the call
   * throws.
   */
  lemma InsertedBeforeStart(c: seq<Element>, x: int, what: Element)
    requires x < 0
    ensures x == -1 ==> InsertedContent(c, |c|, x, what) == Some([what] + c)
                        && Max(x + 1, |c|) == |c| < |[what] + c|
    ensures x < -1 ==> InsertedContent(c, |c|, x, what).None?
  {
    if x == -1 {
      assert [] + [what] == [what];
      if |c| == 0 {
        assert [what] + c == [what];
      } else {
        assert SubstringDefined(|c|, x + 1, |c| - (x + 1));
        assert [] + [what] + c[x + 1..] == [what] + c;
      }
    }
  }

  /**
   * The selected text and the colour maps `Draw` computes (lines 62-103)
   * on a text that is not empty when something is selected: the overrides
   * moved to their wrapped-text indices and, with a selection, the cells
   * from `start` through `end` painted, while the text kept for the
   * clipboard is the `end - start` elements from `start`.
   */
  function Drawn(content: seq<Element>, fg: map<int, Color>, bg: map<int, Color>, selectionColor: Color, charsOnLine: nat,
                 selection: Option<MonospaceRows.SelectedCells>, direction: MonospaceRows.SelectionDirection)
    : (Option<string>, map<int, Color>, map<int, Color>)
    requires charsOnLine > 0
    requires (forall k :: k in fg ==> k >= 0) && (forall k :: k in bg ==> k >= 0)
    requires selection.Some? ==> selection.value.firstSubrow >= 0 && selection.value.lastSubrow >= 0 && |content| > 0
  {
    var shiftedFg, shiftedBg := MonospaceRows.WrappedKeys(fg, charsOnLine), MonospaceRows.WrappedKeys(bg, charsOnLine);
    if selection.None? then (None, shiftedFg, shiftedBg)
    else
      var text := MonospaceRows.Wrapped(content, charsOnLine);
      MonospaceRows.WrappedLength(content, charsOnLine);
      var range := MonospaceRows.StreamRange(|text|, MonospaceRows.NewLinesAt(|content|, charsOnLine), selection.value, direction);
      (Some(Concat(text[range.0..range.1])),
       LegacyTextRows.RangePainted(shiftedFg, range.0, range.1 + 1, LegacyTextRows.LightenedOverride(fg)),
       LegacyTextRows.RangePainted(shiftedBg, range.0, range.1 + 1, LegacyTextRows.Uniform(selectionColor)))
  }

  /**
   * The last painted cell of a selection is not part of the text it keeps
   * for the clipboard: the cells `start` through `end` are painted, the
   * elements `start` up to `end` are kept.
   */
  lemma LastPaintedCellNotKept(content: seq<Element>, fg: map<int, Color>, bg: map<int, Color>, selectionColor: Color,
                               charsOnLine: nat, cells: MonospaceRows.SelectedCells, direction: MonospaceRows.SelectionDirection)
    requires charsOnLine > 0 && |content| > 0
    requires (forall k :: k in fg ==> k >= 0) && (forall k :: k in bg ==> k >= 0)
    requires cells.firstSubrow >= 0 && cells.lastSubrow >= 0
    ensures var text := MonospaceRows.Wrapped(content, charsOnLine);
            var d := Drawn(content, fg, bg, selectionColor, charsOnLine, Some(cells), direction);
            var range := MonospaceRows.StreamRange(|text|, MonospaceRows.NewLinesAt(|content|, charsOnLine), cells, direction);
            range.1 < |text|
            && range.1 in d.2 && d.2[range.1] == selectionColor
            && d.0 == Some(Concat(text[range.0..range.1]))
  {
    var text := MonospaceRows.Wrapped(content, charsOnLine);
    MonospaceRows.WrappedLength(content, charsOnLine);
    var range := MonospaceRows.StreamRange(|text|, MonospaceRows.NewLinesAt(|content|, charsOnLine), cells, direction);
    LegacyTextRows.RangePaintedAt(MonospaceRows.WrappedKeys(bg, charsOnLine), range.0, range.1 + 1,
                                  LegacyTextRows.Uniform(selectionColor), range.1);
  }

  class MonospaceTextRow {
    var content: seq<Element>
    var lengthInTextElements: int
    var specialForegrounds: map<int, Color>
    var specialBackgrounds: map<int, Color>
    var selectedContent: Option<string>
    var selectionColor: Color
    var maxOffset: int
    var metrics: Metrics

    /** The element count agrees with the content. */
    predicate Valid()
      reads this
    {
      lengthInTextElements == |content|
    }

    /** The newline check of DEBUG builds is not modelled. */
    constructor (content: seq<Element>)
      ensures Valid() && this.content == content
      ensures specialForegrounds == map[] && specialBackgrounds == map[] && selectedContent == None
      ensures maxOffset == 0 && metrics == Unmeasured
    {
      this.content := content;
      lengthInTextElements := |content|;
      specialForegrounds, specialBackgrounds := map[], map[];
      selectedContent := None;
      selectionColor := LightSlateGray;
      maxOffset := 0;
      metrics := Unmeasured;
    }

    /** The elements a line holds: `Math.Floor(lineSize.Width / charWidth)`. */
    function CharsOnLine(): int
      reads this
      requires metrics.charWidth > 0
    {
      metrics.lineWidth / metrics.charWidth
    }

    /**
     * `PrepareForDrawing` (lines 31-40): the selection colour of the
     * layout parameters is kept, `MaxOffset` is the number of elements a
     * line holds, and the height is one line per `lineWidth` of element
     * width, at least one line, counted from the element count field.
     */
    method PrepareForDrawing(m: Metrics, parameterSelectionColor: Color) returns (height: int)
      requires Measured(m) && m.lineWidth > 0
      modifies this
      ensures metrics == m && selectionColor == parameterSelectionColor && maxOffset == m.lineWidth / m.charWidth
      ensures height == m.lineHeight * CSharpInt.DivCeil(Max(lengthInTextElements, 1) * m.charWidth, m.lineWidth)
      ensures content == old(content) && lengthInTextElements == old(lengthInTextElements)
      ensures specialForegrounds == old(specialForegrounds) && specialBackgrounds == old(specialBackgrounds)
      ensures selectedContent == old(selectedContent)
    {
      metrics := m;
      selectionColor := parameterSelectionColor;
      maxOffset := m.lineWidth / m.charWidth;
      height := m.lineHeight * CSharpInt.DivCeil(Max(lengthInTextElements, 1) * m.charWidth, m.lineWidth);
    }

    /**
     * `Erase` (lines 142-179): `to` is capped at the last element, the
     * content is rebuilt without trimming and recounted, and the overrides
     * from `from` through the capped `to` are erased as in the later row.
     * A throwing substring call leaves everything as it was.
     */
    method Erase(from: int, to: int, background: Option<Color>) returns (thrown: bool)
      modifies this
      ensures var last := Min(to, |old(content)| - 1);
              var r := ErasedContent(old(content), from, last);
              (thrown <==> r.None?)
              && (thrown ==> content == old(content) && lengthInTextElements == old(lengthInTextElements)
                             && specialForegrounds == old(specialForegrounds) && specialBackgrounds == old(specialBackgrounds))
              && (!thrown ==> content == r.value && Valid()
                              && specialForegrounds == old(specialForegrounds) - MonospaceRows.Span(from, last)
                              && specialBackgrounds == MonospaceRows.ErasedBackgrounds(old(specialBackgrounds), from, last, background))
      ensures selectedContent == old(selectedContent) && selectionColor == old(selectionColor)
      ensures maxOffset == old(maxOffset) && metrics == old(metrics)
    {
      var last := Min(to, |content| - 1);
      if !SubstringDefined(|content|, 0, from) {
        return true;
      }
      var built := content[..from];
      if last > from {
        built := built + MonospaceRows.Spaces(last - from);
      }
      if last < |content| {
        if !SubstringDefined(|content|, last, |content| - last) {
          return true;
        }
        built := built + content[last..];
      }
      var foregrounds, backgrounds := MonospaceRows.EraseOverrides(specialForegrounds, specialBackgrounds, from, last, background);
      content, lengthInTextElements := built, |built|;
      specialForegrounds, specialBackgrounds := foregrounds, backgrounds;
      thrown := false;
    }

    /**
     * `InsertCharacterAt` (lines 181-242): the overrides at `x` are set to
     * the colours given or removed; then the content is rebuilt from the
     * element count field, and the count becomes `Max(x + 1, count)`.
     */
    method InsertCharacterAt(x: int, what: Element, foreground: Option<Color>, background: Option<Color>) returns (thrown: bool)
      modifies this
      ensures specialForegrounds == MonospaceRows.UpdateOverride(old(specialForegrounds), x, foreground)
      ensures specialBackgrounds == MonospaceRows.UpdateOverride(old(specialBackgrounds), x, background)
      ensures var r := InsertedContent(old(content), old(lengthInTextElements), x, what);
              (thrown <==> r.None?)
              && (thrown ==> content == old(content) && lengthInTextElements == old(lengthInTextElements))
              && (!thrown ==> content == r.value && lengthInTextElements == Max(x + 1, old(lengthInTextElements)))
      ensures selectedContent == old(selectedContent) && selectionColor == old(selectionColor)
      ensures maxOffset == old(maxOffset) && metrics == old(metrics)
    {
      if foreground.Some? {
        specialForegrounds := specialForegrounds[x := foreground.value];
      } else {
        specialForegrounds := specialForegrounds - {x};
      }
      if background.Some? {
        specialBackgrounds := specialBackgrounds[x := background.value];
      } else {
        specialBackgrounds := specialBackgrounds - {x};
      }
      var built: seq<Element>;
      if x > 0 {
        if lengthInTextElements < x {
          built := content + MonospaceRows.Spaces(x - lengthInTextElements);
        } else {
          if !SubstringDefined(|content|, 0, x) {
            return true;
          }
          built := content[..x];
        }
      } else {
        built := [];
      }
      built := built + [what];
      if lengthInTextElements > x + 1 {
        if !SubstringDefined(|content|, x + 1, |content| - (x + 1)) {
          return true;
        }
        built := built + content[x + 1..];
      }
      content := built;
      lengthInTextElements := Max(x + 1, lengthInTextElements);
      thrown := false;
    }

    /** The `Content` setter (lines 251-262): the text as given, recounted. */
    method SetContent(value: seq<Element>)
      modifies this
      ensures content == value && Valid()
      ensures specialForegrounds == old(specialForegrounds) && specialBackgrounds == old(specialBackgrounds)
      ensures selectedContent == old(selectedContent) && selectionColor == old(selectionColor)
      ensures maxOffset == old(maxOffset) && metrics == old(metrics)
    {
      content := value;
      lengthInTextElements := |value|;
    }

    /**
     * `Draw` (lines 42-116): lays the elements out as the later row does,
     * moves the overrides to their wrapped-text indices and, with a
     * selection, paints it and keeps its text. Selecting in an empty row
     * throws in `SubstringByTextElements`. At least one element must fit
     * on a line, and override keys must not be negative.
     */
    method Draw(selection: Option<MonospaceRows.SelectedCells>, direction: MonospaceRows.SelectionDirection)
      returns (thrown: bool, text: seq<Element>, foregroundColors: map<int, Color>, backgroundColors: map<int, Color>)
      requires Measured(metrics) && CharsOnLine() > 0
      requires forall k :: k in specialForegrounds ==> k >= 0
      requires forall k :: k in specialBackgrounds ==> k >= 0
      requires selection.Some? ==> selection.value.firstSubrow >= 0 && selection.value.lastSubrow >= 0
      modifies this`selectedContent
      ensures text == MonospaceRows.Wrapped(content, CharsOnLine())
      ensures thrown <==> selection.Some? && |content| == 0
      ensures thrown ==> selectedContent == old(selectedContent)
      ensures !thrown ==> (selectedContent, foregroundColors, backgroundColors)
                          == Drawn(content, specialForegrounds, specialBackgrounds, selectionColor, CharsOnLine(), selection, direction)
    {
      var charsOnLine := metrics.lineWidth / metrics.charWidth;
      var newLinesAt;
      text, newLinesAt := MonospaceRows.WrapText(content, charsOnLine);
      MonospaceRows.WrappedLength(content, charsOnLine);
      assert newLinesAt == MonospaceRows.NewLinesAt(|content|, charsOnLine);
      foregroundColors := MonospaceRows.WrappedKeys(specialForegrounds, charsOnLine);
      backgroundColors := MonospaceRows.WrappedKeys(specialBackgrounds, charsOnLine);
      thrown := false;
      if selection.Some? {
        if |text| == 0 {
          return true, text, foregroundColors, backgroundColors;
        }
        var range := MonospaceRows.StreamRange(|text|, newLinesAt, selection.value, direction);
        foregroundColors, backgroundColors :=
          LegacyTextRows.PaintSelection(foregroundColors, backgroundColors, LegacyTextRows.LightenedOverride(specialForegrounds),
                                        LegacyTextRows.Uniform(selectionColor), range.0, range.1 + 1);
        selectedContent := Some(Concat(text[range.0..range.1]));
      } else {
        selectedContent := None;
      }
    }

    /** `FillClipboardData`: the selected text, when there is one, becomes one more clipboard row. */
    method FillClipboardData(data: LegacyClipboard.ClipboardData)
      modifies data
      ensures data.rows == old(data.rows) + (if selectedContent.Some? then [selectedContent.value] else [])
    {
      if selectedContent.Some? {
        data.AppendText(selectedContent.value);
      }
    }
  }

  /**
   * While the count is right and the line width is a whole number of
   * elements, the height `PrepareForDrawing` gives has room for every
   * element on lines of `MaxOffset`.
   */
  lemma PreparedHeightHoldsRow(length: nat, m: Metrics)
    requires Measured(m) && m.lineWidth > 0 && m.lineWidth % m.charWidth == 0
    ensures var lines := CSharpInt.DivCeil(Max(length, 1) * m.charWidth, m.lineWidth);
            lines * (m.lineWidth / m.charWidth) >= length
  {
    var c := m.lineWidth / m.charWidth;
    LegacyTextRows.PreparedLinesAreSublines(length, m);
    var q := LegacyTextRows.Sublines(length, c);
    if length > 0 {
      var rem := (length - 1) % c;
      assert length - 1 == (q - 1) * c + rem && rem < c;
      MonospaceRows.MulStep(q, c);
    }
  }
}
