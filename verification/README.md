# DisplayBuffer: a verified model of a software RGBA framebuffer

This project models `DisplayBuffer` from the m8-gd display plugin. It is a
fixed-size framebuffer: a flat byte array of `width * height * 4` bytes,
row-major, one R, G, B, A quadruple per pixel. The object also holds a small
drawing state: the attached bitmap font and its glyph-cell metrics, the
per-font layout offsets, the colour of the last `draw_rect` call (`last_*`)
and the colour of the last fullscreen `draw_rect` call (`bg_*`).

The model is functional. The object is the record `DisplayBuffer.Display`.
Each operation is a pure function from the old record to the new one. The
modules follow the layers of the header:

- `Types`: the integer widths `u8`, `u16` and `i8` as subset types of `int`,
  plus the `Rgb`, `Rgba` and `Option` value types.
- `Layout`: the row-major offset `(x + y*width)*4`, with the arithmetic
  facts about it. In-bounds offsets stay inside the buffer. Distinct pixels
  own disjoint 4-byte chunks. Every byte belongs to one pixel. The C++ `int`
  arithmetic is exact for buffers of at most 2^31 bytes.
- `Pixels`: `set_pixel` (here `SetPixel`), a pixel-level reading of the
  buffer (`PixelAt`), and the fact that pixels determine bytes.
- `Rect`: the rectangle fill used by the full `draw_rect`. It is specified
  pixel by pixel by `Painted`, independently of write order. It is
  implemented as row-major `set_pixel` calls by `FillRow` and `FillRows`.
- `DisplayBuffer`: the record, `set_font`, the four `draw_rect` forms and
  `clear`.

The body of the seven-argument `draw_rect` is not in
`src/display_buffer.hpp`; only its declaration and the comments on the
cache fields are. The model assumes this reference semantics for it:

- call `set_pixel` for each pixel of `[x, x+w) x [y, y+h)`, rows outer and
  columns inner;
- set `last_*` to the colour;
- set `bg_*` to the colour when the rectangle is fullscreen, meaning
  `x == 0`, `y == 0`, `w == width` and `h == height`.

`clear` is that fullscreen call, as its body shows. The three shorter
overloads follow their comments: the colour-less ones reuse `last_*`, and the
colour-only ones are 1x1.

## Model

| member | source | states |
|---|---|---|
| Layout.OffsetInRange | src/display_buffer.hpp:43-45 | for in-bounds (x, y) the four bytes starting at (x + y*width)*4 lie inside a buffer of width*height*4 bytes |
| Layout.OffsetsDisjoint | src/display_buffer.hpp:45-49 | the 4-byte chunks of two distinct in-bounds pixels do not overlap |
| Layout.Decompose | src/display_buffer.hpp:45 | every byte index i of the buffer is channel i%4 of the in-bounds pixel ((i/4)%width, (i/4)/width) in row-major order (that no other pixel owns it is OffsetsDisjoint) |
| Layout.OffsetFitsInt32 | src/display_buffer.hpp:45 | with a buffer of at most 2^31 bytes, y*width, x + y*width and the offset of the last channel all fit in a C++ int |
| Pixels.SetPixel | src/display_buffer.hpp:38-50 | out-of-bounds coordinates leave the buffer unchanged; in bounds, the bytes at offset+0..3 become r, g, b, 0xFF, every other byte is unchanged, and the writes stay below the buffer length |
| Pixels.SetPixelReadBack | src/display_buffer.hpp:43-49 | after a write the target pixel reads back as the opaque colour and every other in-bounds pixel reads as before |
| Pixels.SetPixelIdempotent | src/display_buffer.hpp:38-50 | writing the same pixel twice with the same colour equals writing it once |
| Pixels.PixelsDetermineBytes | src/display_buffer.hpp:45-49 | two buffers of the right length whose pixels all agree are byte-for-byte equal |
| Rect.FillRow | src/display_buffer.hpp:62-66 | one row of set_pixel calls paints exactly the pixels [x, x+n) of row y and leaves all others unchanged |
| Rect.FillRows | src/display_buffer.hpp:62-66 | the row-major set_pixel loop paints exactly the in-bounds pixels of [x, x+w) x [y, y+h) opaque and leaves all others unchanged |
| Rect.PaintedUnique | src/display_buffer.hpp:62-66 | the pixel-level fill specification determines the resulting bytes uniquely |
| Rect.FillEmpty | src/display_buffer.hpp:62-66 | a rectangle with w = 0 or h = 0 leaves the buffer unchanged |
| Rect.FillOutside | src/display_buffer.hpp:43-44 | a rectangle starting at x >= width or y >= height leaves the buffer unchanged |
| Rect.FillUnit | src/display_buffer.hpp:73-80 | a 1x1 fill is exactly one set_pixel call |
| Rect.FillIdempotent | src/display_buffer.hpp:62-66 | filling the same rectangle twice with the same colour equals filling it once |
| Rect.SolidPixels | src/display_buffer.hpp:45-49 | the byte pattern r, g, b, 0xFF repeated reads as opaque colour at every pixel |
| Rect.FillCoveringIsSolid | src/display_buffer.hpp:93-97 | a fill from (0, 0) covering the whole buffer yields the solid buffer whatever the previous contents |
| DisplayBuffer.ToU8 | src/display_buffer.hpp:16-17 | storing a value in a uint8_t keeps it modulo 256: the stored value differs from it by a multiple of 256, and a value below 256 is kept unchanged |
| DisplayBuffer.DivThenTruncate | src/display_buffer.hpp:57-58 | dividing a sheet side by the cell count and storing the result in 8 bits yields the largest cell size m whose cells fit the side taken modulo the 8-bit wrap |
| DisplayBuffer.SetFont | src/display_buffer.hpp:52-60 | the font reference is always replaced; a null font keeps font_w/font_h; a real font sets them to the 16x8 grid's cell size in 8 bits; nothing else changes |
| DisplayBuffer.SetFontSmallSheet | src/display_buffer.hpp:5-6 | for sheets below 4096x2048 pixels, 16 cells of font_w and 8 cells of font_h fit inside the sheet, and cells one pixel larger do not |
| DisplayBuffer.SetFontNullKeepsMetrics | src/display_buffer.hpp:54-59 | records, by unfolding SetFont, that attaching a null font after a real one keeps the real one's cell metrics |
| DisplayBuffer.SetFontIdempotent | src/display_buffer.hpp:52-60 | records, by unfolding SetFont, that attaching the same font twice equals attaching it once |
| DisplayBuffer.DrawRect | src/display_buffer.hpp:62-66 | (assumed semantics) the rectangle is painted per the pixel specification, last_* becomes the colour, bg_* becomes the colour exactly when the rectangle is fullscreen, and no other field changes |
| DisplayBuffer.DrawRectCached | src/display_buffer.hpp:68-71 | the four-argument form paints the rectangle per the pixel specification in the cached last colour, leaves that cache as it was, caches it as background when fullscreen, and changes nothing else |
| DisplayBuffer.DrawPoint | src/display_buffer.hpp:73-76 | the colour-only form is exactly one set_pixel call with the given colour, caches it as last (and as background on a 1x1 buffer at (0, 0)), and changes nothing else |
| DisplayBuffer.DrawPointCached | src/display_buffer.hpp:78-80 | the two-argument form is exactly one set_pixel call in the cached last colour, keeps that cache, caches it as background on a 1x1 buffer at (0, 0), and changes nothing else |
| DisplayBuffer.Clear | src/display_buffer.hpp:93-97 | the buffer becomes the solid r, g, b, 0xFF pattern whatever it held, the colour is cached as both last and background, and nothing else changes |
| DisplayBuffer.ClearIsFullscreenDrawRect | src/display_buffer.hpp:94-97 | records, by unfolding the definitions, that clear(r, g, b) is draw_rect(0, 0, width, height, r, g, b) and that this rectangle is fullscreen |
| DisplayBuffer.CachedColourFollowsLastDraw | src/display_buffer.hpp:30-33 | records, by unfolding the definitions, that a colour-less rectangle drawn after any full-form call paints with that call's colour |
| DisplayBuffer.DrawRectIdempotent | src/display_buffer.hpp:62-66 | drawing the same rectangle twice in the same colour equals drawing it once |
| DisplayBuffer.ClearForgetsPicture | src/display_buffer.hpp:93-97 | two buffers that differ only in their pixels are equal after clearing to the same colour (a direct consequence of Clear's Solid contract) |
| DisplayBuffer.DrawRectEmpty | src/display_buffer.hpp:62-66 | a zero-area rectangle leaves the pixels unchanged |
| DisplayBuffer.ClearThenSquare | src/display_buffer.hpp:93-97 | on a 4x4 buffer, clear to black then a red 2x2 square at (1, 1) gives red in the square, black elsewhere, background cache black and last cache red |

## Left out

- `draw_char` and `draw_waveform` (src/display_buffer.hpp:82-91): only their declarations are in the header, with nothing that states their behaviour. The header (src/display_buffer.hpp:19-23) says only that the layout offsets and `waveform_max` change with the font size; it does not show which operations read them. They are carried as fields of `Display` and no modelled operation reads or changes them.
- The constructor and destructor (src/display_buffer.hpp:35-36) have no bodies in the header. Buffer allocation is taken as the invariant `Display.Valid()`, which says the buffer holds `width * height * 4` bytes.
- Host engine types are not modelled. `PackedByteArray` becomes `seq<u8>`. `Ref<BitMap>` becomes `Option<FontSheet>`, which keeps only the sheet's pixel size, taken as a natural number; Godot sizes are non-negative `int`s. The texture upload and the bitmap's pixel contents are not modelled.
- Pixels.SetPixel: the coordinates are natural numbers, not `uint16_t`. The writer agrees with the source on every `uint16_t` value. The `data` pointer becomes the buffer sequence, and its length is required to be `width * height * 4`, the length the source assumes without checking.
- Rect.FillRows: a column or row counter past 65535 is treated as out of range. It is not wrapped back to a small `uint16_t` coordinate. Whether the unseen loop in `draw_rect` wraps depends on a body that is not part of this model.
- DisplayBuffer.DrawRect: the loop order, the pixel writes and the "fullscreen" test (exact `0, 0, width, height`) are assumed reference semantics. Only the cache comments and `clear`'s body state them. The assumed fill uses `x, y` unshifted and ignores `x_offset`/`y_offset`; if the unseen body shifts rectangles by those offsets, the model does not promise that.
- Layout.OffsetFitsInt32: signed overflow of the C++ `int` offset is not modelled. The lemma states the buffer size (at most 2^31 bytes) under which no overflow happens, and the model's arithmetic is exact.
