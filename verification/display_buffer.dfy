/** The display buffer object: a fixed-size RGBA byte buffer, the
    attached font sheet and its cell metrics, the layout offsets, and the
    cached "last" and "background" colours; with the font attach
    operation, the four rectangle-drawing forms and clear. */
module DisplayBuffer {
  import opened Types
  import opened Layout
  import opened Pixels
  import opened Rect

  /** Glyph grid of a font sheet: 16 columns by 8 rows of cells. */
  const FontSheetCols: nat := 16
  const FontSheetRows: nat := 8

  /** The attached bitmap font, reduced to the pixel size of its sheet
      (the bitmap contents are only read by glyph drawing). */
  datatype FontSheet = FontSheet(sizeX: nat, sizeY: nat)

  /** The state of one display buffer. `bg` is the colour of the last
      fullscreen rectangle, `last` the colour of the last rectangle. */
  datatype Display = Display(
    bytes: seq<u8>,
    width: u16,
    height: u16,
    font: Option<FontSheet>,
    fontW: u8,
    fontH: u8,
    xOffset: i8,
    yOffset: i8,
    fontYOffset: i8,
    waveformMax: u8,
    bg: Rgb,
    last: Rgb)
  {
    /** The buffer was allocated at `width * height * 4` bytes. */
    predicate Valid() {
      WellSized(bytes, width, height)
    }
  }

  /** Assignment of a non-negative value to a `uint8_t`: keep the low 8 bits. */
  function ToU8(n: nat): (b: u8)
    ensures (n - b) % 0x100 == 0
    ensures n < 0x100 ==> b == n
  {
    n % 0x100
  }

  /** `m` is the cell size obtained by splitting a sheet side of `size`
      pixels into `cells` equal cells and storing the result in 8 bits:
      `cells` cells of `m` pixels fit in the side (taken modulo the
      8-bit wrap), and cells one pixel larger do not. */
  ghost predicate CellSize(size: nat, cells: nat, m: u8)
    requires cells > 0
  {
    cells * m <= size % (cells * 0x100) < cells * (m + 1)
  }

  /** Quotient and remainder are unique: writing `a` as `n * k + t` with
      `t < n` determines `a % n`. */
  lemma {:induction false} ModUnique(a: nat, n: nat, k: nat, t: nat)
    requires 0 < n && t < n && a == n * k + t
    ensures a % n == t
  {
    var q, rem := a / n, a % n;
    assert a == n * q + rem;
    if q < k {
      MulLeMono(q + 1, k, n);
      assert false;
    } else if k < q {
      MulLeMono(k + 1, q, n);
      assert false;
    }
  }

  /** Integer division followed by 8-bit truncation is the cell size. */
  lemma {:induction false} DivThenTruncate(size: nat, cells: nat)
    requires cells > 0
    ensures CellSize(size, cells, ToU8(size / cells))
  {
    var q, rem := size / cells, size % cells;
    var k, m := q / 0x100, q % 0x100;
    assert size == cells * q + rem;
    assert q == 0x100 * k + m;
    assert cells * q == (cells * 0x100) * k + cells * m;
    assert cells * m + rem < cells * 0x100 by {
      MulLeMono(m + 1, 0x100, cells);
    }
    ModUnique(size, cells * 0x100, k, cells * m + rem);
  }

  /** Attach a font. A null font only replaces the reference; a real one
      also recomputes the cell metrics from the 16 x 8 glyph grid. */
  function SetFont(d: Display, bitmap: Option<FontSheet>): (r: Display)
    ensures r.font == bitmap
    ensures bitmap.None? ==> r.fontW == d.fontW && r.fontH == d.fontH
    ensures bitmap.Some? ==>
      CellSize(bitmap.value.sizeX, FontSheetCols, r.fontW) && CellSize(bitmap.value.sizeY, FontSheetRows, r.fontH)
    ensures r == d.(font := bitmap, fontW := r.fontW, fontH := r.fontH)
  {
    match bitmap
    case None => d.(font := bitmap)
    case Some(sheet) =>
      DivThenTruncate(sheet.sizeX, FontSheetCols);
      DivThenTruncate(sheet.sizeY, FontSheetRows);
      d.(font := bitmap,
         fontW := ToU8(sheet.sizeX / FontSheetCols),
         fontH := ToU8(sheet.sizeY / FontSheetRows))
  }

  /** For a sheet narrower than 4096 and lower than 2048 pixels nothing is
      lost to the 8-bit store: the grid of cells fits inside the sheet and
      leaves less than one cell's worth of pixels over on each side. */
  lemma SetFontSmallSheet(d: Display, sheet: FontSheet)
    requires sheet.sizeX < FontSheetCols * 0x100 && sheet.sizeY < FontSheetRows * 0x100
    ensures var r := SetFont(d, Some(sheet));
      && FontSheetCols * r.fontW <= sheet.sizeX < FontSheetCols * (r.fontW + 1)
      && FontSheetRows * r.fontH <= sheet.sizeY < FontSheetRows * (r.fontH + 1)
  {
  }

  /** Attaching a null font after a real one keeps the real one's metrics. */
  lemma SetFontNullKeepsMetrics(d: Display, sheet: FontSheet)
    ensures var a := SetFont(d, Some(sheet));
            var b := SetFont(a, None);
            b.fontW == a.fontW && b.fontH == a.fontH && b.font == None
  {
  }

  /** Attaching the same font twice is the same as attaching it once. */
  lemma SetFontIdempotent(d: Display, bitmap: Option<FontSheet>)
    ensures SetFont(SetFont(d, bitmap), bitmap) == SetFont(d, bitmap)
  {
  }

  /** A rectangle covering exactly the whole buffer. */
  predicate Fullscreen(d: Display, x: nat, y: nat, w: nat, h: nat) {
    x == 0 && y == 0 && w == d.width && h == d.height
  }

  /** Full form `draw_rect(x, y, w, h, r, g, b)`: fill the rectangle,
      remember the colour as the last one, and as the background colour
      when the rectangle is fullscreen. Nothing else changes. */
  function DrawRect(d: Display, x: u16, y: u16, w: u16, h: u16, c: Rgb): (r: Display)
    requires d.Valid()
    ensures r.Valid()
    ensures Painted(d.bytes, r.bytes, d.width, d.height, x, y, w, h, c)
    ensures r.last == c
    ensures Fullscreen(d, x, y, w, h) ==> r.bg == c
    ensures !Fullscreen(d, x, y, w, h) ==> r.bg == d.bg
    ensures r == d.(bytes := r.bytes, last := r.last, bg := r.bg)
  {
    d.(bytes := FillRows(d.bytes, d.width, d.height, x, y, w, h, c),
       last := c,
       bg := if Fullscreen(d, x, y, w, h) then c else d.bg)
  }

  /** Four-argument form `draw_rect(x, y, w, h)`: the full form painted
      with the cached last colour, which therefore stays cached. */
  function DrawRectCached(d: Display, x: u16, y: u16, w: u16, h: u16): (r: Display)
    requires d.Valid()
    ensures r.Valid()
    ensures Painted(d.bytes, r.bytes, d.width, d.height, x, y, w, h, d.last)
    ensures r.last == d.last
    ensures r.bg == if Fullscreen(d, x, y, w, h) then d.last else d.bg
    ensures r == d.(bytes := r.bytes, bg := r.bg)
  {
    DrawRect(d, x, y, w, h, d.last)
  }

  /** Colour-only form `draw_rect(x, y, r, g, b)`: a 1x1 rectangle, which
      writes exactly one pixel through the pixel writer. */
  function DrawPoint(d: Display, x: u16, y: u16, c: Rgb): (r: Display)
    requires d.Valid()
    ensures r.Valid()
    ensures r == d.(bytes := SetPixel(d.bytes, d.width, d.height, x, y, c),
                    last := c,
                    bg := if Fullscreen(d, x, y, 1, 1) then c else d.bg)
  {
    FillUnit(d.bytes, d.width, d.height, x, y, c);
    DrawRect(d, x, y, 1, 1, c)
  }

  /** Two-argument form `draw_rect(x, y)`: a 1x1 rectangle in the cached
      last colour. */
  function DrawPointCached(d: Display, x: u16, y: u16): (r: Display)
    requires d.Valid()
    ensures r.Valid()
    ensures r == d.(bytes := SetPixel(d.bytes, d.width, d.height, x, y, d.last),
                    bg := if Fullscreen(d, x, y, 1, 1) then d.last else d.bg)
  {
    FillUnit(d.bytes, d.width, d.height, x, y, d.last);
    DrawRect(d, x, y, 1, 1, d.last)
  }

  /** `clear(r, g, b)`: the fullscreen rectangle. Every pixel becomes
      opaque `c` whatever it held, and `c` is cached both as the last and
      as the background colour. */
  function Clear(d: Display, c: Rgb): (r: Display)
    requires d.Valid()
    ensures r.Valid()
    ensures r == d.(bytes := Solid(d.width, d.height, c), last := c, bg := c)
  {
    FillCoveringIsSolid(d.bytes, d.width, d.height, 0, 0, d.width, d.height, c);
    DrawRect(d, 0, 0, d.width, d.height, c)
  }

  /** `clear` is the full-form rectangle from (0, 0) of the buffer's own
      size, which is fullscreen by definition. */
  lemma ClearIsFullscreenDrawRect(d: Display, c: Rgb)
    requires d.Valid()
    ensures Fullscreen(d, 0, 0, d.width, d.height)
    ensures Clear(d, c) == DrawRect(d, 0, 0, d.width, d.height, c)
  {
  }

  /** A colour-less form issued after any full-form call paints with the
      colour that call used. */
  lemma CachedColourFollowsLastDraw(d: Display, x: u16, y: u16, w: u16, h: u16, c: Rgb,
                                    x2: u16, y2: u16, w2: u16, h2: u16)
    requires d.Valid()
    ensures var e := DrawRect(d, x, y, w, h, c);
            DrawRectCached(e, x2, y2, w2, h2) == DrawRect(e, x2, y2, w2, h2, c)
  {
  }

  /** Drawing the same rectangle twice in the same colour is the same as
      drawing it once. */
  lemma DrawRectIdempotent(d: Display, x: u16, y: u16, w: u16, h: u16, c: Rgb)
    requires d.Valid()
    ensures DrawRect(DrawRect(d, x, y, w, h, c), x, y, w, h, c) == DrawRect(d, x, y, w, h, c)
  {
    FillIdempotent(d.bytes, d.width, d.height, x, y, w, h, c);
  }

  /** Clearing forgets the previous picture: two buffers that differ only
      in their pixels are equal after clearing to the same colour. */
  lemma ClearForgetsPicture(d: Display, e: Display, c: Rgb)
    requires d.Valid() && e == d.(bytes := e.bytes) && e.Valid()
    ensures Clear(d, c) == Clear(e, c)
  {
  }

  /** A zero-area rectangle leaves the picture unchanged, though it still
      caches its colour. */
  lemma DrawRectEmpty(d: Display, x: u16, y: u16, w: u16, h: u16, c: Rgb)
    requires d.Valid() && (w == 0 || h == 0)
    ensures DrawRect(d, x, y, w, h, c).bytes == d.bytes
  {
    FillEmpty(d.bytes, d.width, d.height, x, y, w, h, c);
  }

  /** A 4x4 buffer cleared to black, then given a red 2x2 square at (1, 1):
      the square is red, the rest black, the background cache black and
      the last-colour cache red. */
  lemma ClearThenSquare(d: Display)
    requires d.Valid() && d.width == 4 && d.height == 4
    ensures var black, red := Rgb(0, 0, 0), Rgb(0xFF, 0, 0);
      var r := DrawRect(Clear(d, black), 1, 1, 2, 2, red);
      && r.bg == black && r.last == red
      && forall px: nat, py: nat | InBounds(4, 4, px, py) ::
           PixelAt(r.bytes, 4, 4, px, py)
             == if 1 <= px <= 2 && 1 <= py <= 2 then Opaque(red) else Opaque(black)
  {
    SolidPixels(4, 4, Rgb(0, 0, 0));
  }
}
