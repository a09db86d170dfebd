/** Types shared by the models of the colour parser and of the HarfBuzz rendering backend. */
module Base {

  /** A value that may be absent: a NULL pointer or a failed lookup in the source. */
  datatype Option<T> = None | Some(value: T)

  /** One C `char`/`uint8_t`. */
  type byte = b: int | 0 <= b < 256

  /** A NUL-terminated C string, given by the bytes before its terminator. */
  type Text = seq<byte>

  /**
   * `cairo_text_extents_t`: the ink box of one rendered run, relative to the
   * origin it was drawn at, and the distance the pen moves past it, in canvas units.
   */
  datatype Extents = Extents(
    xBearing: real,
    yBearing: real,
    width: real,
    height: real,
    xAdvance: real,
    yAdvance: real)

  /** The translation part of a Cairo transform (`x0`, `y0` of `cairo_matrix_t`). */
  datatype Point = Point(x: real, y: real)

  function Min(a: int, b: int): int { if a < b then a else b }

  function MaxReal(a: real, b: real): real { if a > b then a else b }
}
