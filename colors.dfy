/**
 * Colours as the decoder and the rows use them: the named colours of the
 * console palette and their bright counterparts, `Terminal.DefaultGray`
 * (Terminal.cs:331), colours built from 8-bit channel values, and the result
 * of `WithIncreasedLight`, which is kept abstract.
 */
module Colors {
  import opened Wrappers

  datatype Color =
    | Black | DarkRed | DarkGreen | Brown | DarkBlue | DarkMagenta | DarkCyan
    | DefaultGray
    | DarkGray | Red | Green | Yellow | Blue | Magenta | Cyan | White
    | LightSlateGray
      /** `new Color(r / 255.0, g / 255.0, b / 255.0)`, kept as the three numerators. */
    | Rgb(r: int, g: int, b: int)
      /** `base.WithIncreasedLight(0.3)`. */
    | Lightened(base: Color)
      /** `base.WithIncreasedLight(0.2)`, the foreground of a selected cell with an override. */
    | SelectionLightened(base: Color)

  /** `DefinedBrightColors` (Vt100/DecoderCommands.cs:498-508): the eight palette colours and their bright forms. */
  function BrightOf(c: Color): Option<Color>
  {
    match c
    case Black => Some(DarkGray)
    case DarkRed => Some(Red)
    case DarkGreen => Some(Green)
    case Brown => Some(Yellow)
    case DarkBlue => Some(Blue)
    case DarkMagenta => Some(Magenta)
    case DarkCyan => Some(Cyan)
    case DefaultGray => Some(White)
    case _ => None
  }

  /** `Brighten`: the table entry when there is one, otherwise the colour with increased light. */
  function Brighten(c: Color): (r: Color)
    ensures BrightOf(c).Some? ==> r == BrightOf(c).value
    ensures BrightOf(c).None? ==> r == Lightened(c)
  {
    match BrightOf(c)
    case Some(b) => b
    case None => Lightened(c)
  }
}
