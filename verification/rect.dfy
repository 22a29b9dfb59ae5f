/** Rectangle fill: the reference semantics assumed for the full
    seven-argument `draw_rect`, whose body is not part of this model.
    The fill calls the pixel writer once per pixel of [x, x+w) x [y, y+h)
    in row-major order (rows outer, columns inner); pixels outside the
    buffer are dropped by the writer. */
module Rect {
  import opened Types
  import opened Layout
  import opened Pixels

  /** Pixel (px, py) lies in the half-open rectangle [x, x+w) x [y, y+h). */
  predicate InRect(px: nat, py: nat, x: nat, y: nat, w: nat, h: nat) {
    x <= px < x + w && y <= py < y + h
  }

  /** The specification of a fill, stated pixel by pixel and independently
      of the order of writes: `after` has the same length as `before`,
      every in-bounds pixel inside the rectangle reads as opaque `c`, and
      every other pixel reads as it did in `before`. */
  ghost predicate Painted(before: seq<u8>, after: seq<u8>, width: nat, height: nat,
                          x: nat, y: nat, w: nat, h: nat, c: Rgb)
    requires WellSized(before, width, height)
  {
    && |after| == |before|
    && forall px: nat, py: nat | InBounds(width, height, px, py) ::
         PixelAt(after, width, height, px, py)
           == if InRect(px, py, x, y, w, h) then Opaque(c) else PixelAt(before, width, height, px, py)
  }

  /** One row: `set_pixel` at (x, y), (x+1, y), ..., (x+n-1, y), in that order. */
  function FillRow(data: seq<u8>, width: u16, height: u16, x: nat, y: nat, n: nat, c: Rgb): (r: seq<u8>)
    requires WellSized(data, width, height)
    ensures Painted(data, r, width, height, x, y, n, 1, c)
    decreases n
  {
    if n == 0 then
      data
    else
      var next := SetPixel(data, width, height, x, y, c);
      SetPixelReadBack(data, width, height, x, y, c);
      FillRow(next, width, height, x + 1, y, n - 1, c)
  }

  /** The whole rectangle: rows y, y+1, ..., y+h-1, each filled left to right. */
  function FillRows(data: seq<u8>, width: u16, height: u16, x: nat, y: nat, w: nat, h: nat, c: Rgb): (r: seq<u8>)
    requires WellSized(data, width, height)
    ensures Painted(data, r, width, height, x, y, w, h, c)
    decreases h
  {
    if h == 0 then
      data
    else
      var next := FillRow(data, width, height, x, y, w, c);
      FillRows(next, width, height, x, y + 1, w, h - 1, c)
  }

  /** The pixel specification pins the bytes down: at most one buffer is
      painted from a given one by a given rectangle and colour. */
  lemma PaintedUnique(before: seq<u8>, a: seq<u8>, b: seq<u8>, width: nat, height: nat,
                      x: nat, y: nat, w: nat, h: nat, c: Rgb)
    requires WellSized(before, width, height)
    requires Painted(before, a, width, height, x, y, w, h, c)
    requires Painted(before, b, width, height, x, y, w, h, c)
    ensures a == b
  {
    PixelsDetermineBytes(a, b, width, height);
  }

  /** A rectangle with no width or no height writes nothing. */
  lemma FillEmpty(data: seq<u8>, width: u16, height: u16, x: nat, y: nat, w: nat, h: nat, c: Rgb)
    requires WellSized(data, width, height)
    requires w == 0 || h == 0
    ensures FillRows(data, width, height, x, y, w, h, c) == data
  {
    PixelsDetermineBytes(FillRows(data, width, height, x, y, w, h, c), data, width, height);
  }

  /** A rectangle starting right of or below the buffer writes nothing. */
  lemma FillOutside(data: seq<u8>, width: u16, height: u16, x: nat, y: nat, w: nat, h: nat, c: Rgb)
    requires WellSized(data, width, height)
    requires x >= width || y >= height
    ensures FillRows(data, width, height, x, y, w, h, c) == data
  {
    PixelsDetermineBytes(FillRows(data, width, height, x, y, w, h, c), data, width, height);
  }

  /** A 1x1 rectangle is exactly one call of the pixel writer. */
  lemma FillUnit(data: seq<u8>, width: u16, height: u16, x: nat, y: nat, c: Rgb)
    requires WellSized(data, width, height)
    ensures FillRows(data, width, height, x, y, 1, 1, c) == SetPixel(data, width, height, x, y, c)
  {
    SetPixelReadBack(data, width, height, x, y, c);
    PaintedUnique(data, FillRows(data, width, height, x, y, 1, 1, c),
                  SetPixel(data, width, height, x, y, c), width, height, x, y, 1, 1, c);
  }

  /** Filling the same rectangle twice with the same colour is the same as
      filling it once. */
  lemma FillIdempotent(data: seq<u8>, width: u16, height: u16, x: nat, y: nat, w: nat, h: nat, c: Rgb)
    requires WellSized(data, width, height)
    ensures var once := FillRows(data, width, height, x, y, w, h, c);
            FillRows(once, width, height, x, y, w, h, c) == once
  {
    var once := FillRows(data, width, height, x, y, w, h, c);
    PixelsDetermineBytes(FillRows(once, width, height, x, y, w, h, c), once, width, height);
  }

  /** The buffer in which every pixel is opaque `c`, stated byte by byte. */
  function Solid(width: nat, height: nat, c: Rgb): (s: seq<u8>)
    ensures WellSized(s, width, height)
  {
    seq(BufferSize(width, height), i =>
      if i % BytesPerPixel == 0 then c.r
      else if i % BytesPerPixel == 1 then c.g
      else if i % BytesPerPixel == 2 then c.b
      else OpaqueAlpha)
  }

  /** Every pixel of the solid buffer reads as opaque `c`. */
  lemma SolidPixels(width: nat, height: nat, c: Rgb)
    ensures forall px: nat, py: nat | InBounds(width, height, px, py) ::
      PixelAt(Solid(width, height, c), width, height, px, py) == Opaque(c)
  {
    var s := Solid(width, height, c);
    forall px: nat, py: nat | InBounds(width, height, px, py)
      ensures PixelAt(s, width, height, px, py) == Opaque(c)
    {
      OffsetInRange(width, height, px, py);
      var o := PixelOffset(width, px, py);
      assert o % BytesPerPixel == 0;
    }
  }

  /** A fill covering the whole buffer yields the solid buffer, whatever
      the buffer held before. */
  lemma FillCoveringIsSolid(data: seq<u8>, width: u16, height: u16, x: nat, y: nat, w: nat, h: nat, c: Rgb)
    requires WellSized(data, width, height)
    requires x == 0 && y == 0 && w >= width && h >= height
    ensures FillRows(data, width, height, x, y, w, h, c) == Solid(width, height, c)
  {
    SolidPixels(width, height, c);
    PixelsDetermineBytes(FillRows(data, width, height, x, y, w, h, c), Solid(width, height, c), width, height);
  }
}
