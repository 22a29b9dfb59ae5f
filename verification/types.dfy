/** Machine integer widths used by the display buffer, and the small
    value types shared by the other modules. */
module Types {

  /** uint8_t: one byte of the RGBA buffer, one colour channel, one font metric. */
  type u8 = x: int | 0 <= x < 0x100

  /** uint16_t: buffer dimensions and drawing coordinates. */
  type u16 = x: int | 0 <= x < 0x1_0000

  /** int8_t: the per-font layout offsets. */
  type i8 = x: int | -0x80 <= x < 0x80

  /** Largest value of a C++ `int` (32-bit two's complement). */
  const Int32Max: int := 0x7FFF_FFFF

  /** An RGB8 colour triple as passed to every drawing call. */
  datatype Rgb = Rgb(r: u8, g: u8, b: u8)

  /** One stored pixel: four consecutive bytes of the buffer. */
  datatype Rgba = Rgba(r: u8, g: u8, b: u8, a: u8)

  /** Alpha written by every drawing operation: fully opaque. */
  const OpaqueAlpha: u8 := 0xFF

  /** The pixel that a write of colour `c` leaves behind. */
  function Opaque(c: Rgb): Rgba {
    Rgba(c.r, c.g, c.b, OpaqueAlpha)
  }

  /** A nullable reference, used for the attached font sheet. */
  datatype Option<+T> = None | Some(value: T)
}
