/**
 * `LayoutParameters` (LayoutParameters.cs): the font, line width, default
 * foreground and selection colour shared by all rows, with a `Generation`
 * counter that changes exactly when one of them does. The font is a type
 * parameter compared with `==`; the width, a `double` in the source, is an
 * integer here. `generation++` wraps around like the source's `int`.
 */
module Layout {
  import opened Colors
  import CSharpInt

  class LayoutParameters<Font(==)> {
    var font: Font
    var width: int
    var defaultForeground: Color
    var selectionColor: Color
    var generation: int

    ghost predicate Valid()
      reads this
    {
      CSharpInt.IsInt32(generation)
    }

    constructor(font: Font, defaultForeground: Color, selectionColor: Color)
      ensures Valid()
      ensures this.font == font && this.defaultForeground == defaultForeground
      ensures this.selectionColor == selectionColor
      ensures width == 0 && generation == 0
    {
      this.font := font;
      this.defaultForeground := defaultForeground;
      this.selectionColor := selectionColor;
      width := 0;
      generation := 0;
    }

    /** `UpdateGeneration`: `generation++` on a 32-bit `int`. */
    method UpdateGeneration()
      requires Valid()
      modifies this`generation
      ensures Valid()
      ensures generation == CSharpInt.Wrap32(old(generation) + 1)
      ensures old(generation) < CSharpInt.Int32Max ==> generation == old(generation) + 1
    {
      generation := CSharpInt.Wrap32(generation + 1);
    }

    method SetFont(value: Font)
      requires Valid()
      modifies this
      ensures Valid()
      ensures font == value
      ensures width == old(width) && defaultForeground == old(defaultForeground)
      ensures selectionColor == old(selectionColor)
      ensures generation == if value == old(font) then old(generation) else CSharpInt.Wrap32(old(generation) + 1)
    {
      if font == value {
        return;
      }
      font := value;
      UpdateGeneration();
    }

    method SetWidth(value: int)
      requires Valid()
      modifies this
      ensures Valid()
      ensures width == value
      ensures font == old(font) && defaultForeground == old(defaultForeground)
      ensures selectionColor == old(selectionColor)
      ensures generation == if value == old(width) then old(generation) else CSharpInt.Wrap32(old(generation) + 1)
    {
      if value == width {
        return;
      }
      width := value;
      UpdateGeneration();
    }

    method SetDefaultForeground(value: Color)
      requires Valid()
      modifies this
      ensures Valid()
      ensures defaultForeground == value
      ensures font == old(font) && width == old(width) && selectionColor == old(selectionColor)
      ensures generation == if value == old(defaultForeground) then old(generation) else CSharpInt.Wrap32(old(generation) + 1)
    {
      if value == defaultForeground {
        return;
      }
      defaultForeground := value;
      UpdateGeneration();
    }

    method SetSelectionColor(value: Color)
      requires Valid()
      modifies this
      ensures Valid()
      ensures selectionColor == value
      ensures font == old(font) && width == old(width) && defaultForeground == old(defaultForeground)
      ensures generation == if value == old(selectionColor) then old(generation) else CSharpInt.Wrap32(old(generation) + 1)
    {
      if value == selectionColor {
        return;
      }
      selectionColor := value;
      UpdateGeneration();
    }
  }

  /** Below the top of the `int` range, one increment raises the generation by exactly one. */
  lemma IncrementWithoutWrap(g: int)
    requires 0 <= g < CSharpInt.Int32Max
    ensures CSharpInt.Wrap32(g + 1) == g + 1 && CSharpInt.Wrap32(g + 1) > g
  {
  }
}
