/** The pixel writer `set_pixel`: the single bounds-checked write through
    which every drawing primitive reaches the byte buffer, together with
    the pixel-level view of a buffer used to state what drawing does. */
module Pixels {
  import opened Types
  import opened Layout

  /** A byte array of the right length for a `width` x `height` buffer. */
  predicate WellSized(data: seq<u8>, width: nat, height: nat) {
    |data| == BufferSize(width, height)
  }

  /** The four bytes of pixel (x, y) read back as one RGBA value. */
  function PixelAt(data: seq<u8>, width: nat, height: nat, x: nat, y: nat): (p: Rgba)
    requires WellSized(data, width, height) && InBounds(width, height, x, y)
  {
    OffsetInRange(width, height, x, y);
    var o := PixelOffset(width, x, y);
    Rgba(data[o], data[o + 1], data[o + 2], data[o + 3])
  }

  /** Write colour `c` as an opaque pixel at (x, y). Coordinates outside
      the buffer are a silent no-op; otherwise exactly the four bytes of
      that pixel change, to r, g, b and 0xFF. */
  function SetPixel(data: seq<u8>, width: u16, height: u16, x: nat, y: nat, c: Rgb): (r: seq<u8>)
    requires WellSized(data, width, height)
    ensures |r| == |data|
    ensures !InBounds(width, height, x, y) ==> r == data
    ensures InBounds(width, height, x, y) ==>
      var o := PixelOffset(width, x, y);
      && o + 3 < |data|
      && r[o] == c.r && r[o + 1] == c.g && r[o + 2] == c.b && r[o + 3] == OpaqueAlpha
      && (forall i | 0 <= i < |data| && !(o <= i < o + BytesPerPixel) :: r[i] == data[i])
  {
    if !InBounds(width, height, x, y) then
      data
    else
      OffsetInRange(width, height, x, y);
      var o := PixelOffset(width, x, y);
      data[o := c.r][o + 1 := c.g][o + 2 := c.b][o + 3 := OpaqueAlpha]
  }

  /** Read-after-write at pixel level: the written pixel reads back as the
      opaque colour, every other pixel reads back as before. An
      out-of-bounds write matches no in-bounds pixel, so it changes none. */
  lemma SetPixelReadBack(data: seq<u8>, width: u16, height: u16, x: nat, y: nat, c: Rgb)
    requires WellSized(data, width, height)
    ensures forall px: nat, py: nat | InBounds(width, height, px, py) ::
      PixelAt(SetPixel(data, width, height, x, y, c), width, height, px, py)
        == if px == x && py == y then Opaque(c) else PixelAt(data, width, height, px, py)
  {
    var r := SetPixel(data, width, height, x, y, c);
    forall px: nat, py: nat | InBounds(width, height, px, py)
      ensures PixelAt(r, width, height, px, py)
        == if px == x && py == y then Opaque(c) else PixelAt(data, width, height, px, py)
    {
      OffsetInRange(width, height, px, py);
      if InBounds(width, height, x, y) && (px != x || py != y) {
        OffsetsDisjoint(width, height, x, y, px, py);
      }
    }
  }

  /** Writing the same pixel twice is the same as writing it once. */
  lemma SetPixelIdempotent(data: seq<u8>, width: u16, height: u16, x: nat, y: nat, c: Rgb)
    requires WellSized(data, width, height)
    ensures SetPixel(SetPixel(data, width, height, x, y, c), width, height, x, y, c)
         == SetPixel(data, width, height, x, y, c)
  {
    var once := SetPixel(data, width, height, x, y, c);
    var twice := SetPixel(once, width, height, x, y, c);
    if InBounds(width, height, x, y) {
      var o := PixelOffset(width, x, y);
      forall i | 0 <= i < |data| ensures twice[i] == once[i] {
        if o <= i < o + BytesPerPixel {
          assert i == o || i == o + 1 || i == o + 2 || i == o + 3;
        }
      }
    }
  }

  /** The pixel view is faithful: two buffers of the right length whose
      pixels all agree are the same byte sequence. */
  lemma PixelsDetermineBytes(a: seq<u8>, b: seq<u8>, width: nat, height: nat)
    requires WellSized(a, width, height) && WellSized(b, width, height)
    requires forall px: nat, py: nat | InBounds(width, height, px, py) ::
      PixelAt(a, width, height, px, py) == PixelAt(b, width, height, px, py)
    ensures a == b
  {
    forall i | 0 <= i < |a| ensures a[i] == b[i] {
      Decompose(width, height, i);
      var p := i / BytesPerPixel;
      var px, py := p % width, p / width;
      assert PixelAt(a, width, height, px, py) == PixelAt(b, width, height, px, py);
      var o := PixelOffset(width, px, py);
      assert i == o || i == o + 1 || i == o + 2 || i == o + 3;
    }
  }
}
