/** Row-major RGBA layout of the framebuffer: where pixel (x, y) lives in
    the flat byte array, and the arithmetic facts that keep every write
    inside the buffer and every pixel's four bytes apart from its
    neighbours'. */
module Layout {
  import opened Types

  /** Bytes per pixel: R, G, B, A. */
  const BytesPerPixel: nat := 4

  /** Length of the byte array for a `width` x `height` buffer. */
  function BufferSize(width: nat, height: nat): nat {
    width * height * BytesPerPixel
  }

  /** The bounds test of the pixel writer: coordinates are unsigned, so
      only the upper bounds are checked. */
  predicate InBounds(width: nat, height: nat, x: nat, y: nat) {
    x < width && y < height
  }

  /** Start index of the 4-byte chunk of pixel (x, y). */
  function PixelOffset(width: nat, x: nat, y: nat): nat {
    (x + y * width) * BytesPerPixel
  }

  /** Row-major pixel numbering stays below the pixel count. */
  lemma {:induction false} PixelIndexBound(width: nat, height: nat, x: nat, y: nat)
    requires InBounds(width, height, x, y)
    ensures x + y * width < width * height
  {
    calc {
      x + y * width;
    <  width + y * width;
    == (y + 1) * width;
    <= { MulLeMono(y + 1, height, width); }
      height * width;
    }
  }

  /** Multiplication by a natural is monotone. */
  lemma {:induction false} MulLeMono(a: nat, b: nat, k: nat)
    requires a <= b
    ensures a * k <= b * k
  {
    assert b * k == a * k + (b - a) * k;
  }

  /** The four bytes of an in-bounds pixel lie inside the buffer. */
  lemma OffsetInRange(width: nat, height: nat, x: nat, y: nat)
    requires InBounds(width, height, x, y)
    ensures PixelOffset(width, x, y) + BytesPerPixel <= BufferSize(width, height)
  {
    PixelIndexBound(width, height, x, y);
  }

  /** Distinct in-bounds pixels have distinct row-major numbers. */
  lemma {:induction false} PixelIndexInjective(width: nat, height: nat, x1: nat, y1: nat, x2: nat, y2: nat)
    requires InBounds(width, height, x1, y1) && InBounds(width, height, x2, y2)
    requires x1 != x2 || y1 != y2
    ensures x1 + y1 * width != x2 + y2 * width
  {
    if y1 < y2 {
      MulLeMono(y1 + 1, y2, width);
    } else if y2 < y1 {
      MulLeMono(y2 + 1, y1, width);
    }
  }

  /** The 4-byte chunks of two distinct in-bounds pixels do not overlap. */
  lemma OffsetsDisjoint(width: nat, height: nat, x1: nat, y1: nat, x2: nat, y2: nat)
    requires InBounds(width, height, x1, y1) && InBounds(width, height, x2, y2)
    requires x1 != x2 || y1 != y2
    ensures PixelOffset(width, x1, y1) + BytesPerPixel <= PixelOffset(width, x2, y2)
         || PixelOffset(width, x2, y2) + BytesPerPixel <= PixelOffset(width, x1, y1)
  {
    PixelIndexInjective(width, height, x1, y1, x2, y2);
  }

  /** Every byte of the buffer belongs to exactly the pixel that row-major
      order assigns it: byte `i` is channel `i % 4` of pixel
      ((i / 4) % width, (i / 4) / width). */
  lemma {:induction false} Decompose(width: nat, height: nat, i: nat)
    requires i < BufferSize(width, height)
    ensures width > 0
    ensures InBounds(width, height, (i / BytesPerPixel) % width, (i / BytesPerPixel) / width)
    ensures i == PixelOffset(width, (i / BytesPerPixel) % width, (i / BytesPerPixel) / width) + i % BytesPerPixel
  {
    var p := i / BytesPerPixel;
    assert p < width * height;
    var x, y := p % width, p / width;
    assert p == x + y * width;
    if y >= height {
      MulLeMono(height, y, width);
      assert false;
    }
  }

  /** With a buffer of at most 2^31 bytes, every intermediate of the
      source's `int` offset computation (y * width, x + y * width, the
      byte offset and its last channel) is exact: no signed overflow. */
  lemma OffsetFitsInt32(width: nat, height: nat, x: nat, y: nat)
    requires BufferSize(width, height) <= Int32Max + 1
    requires InBounds(width, height, x, y)
    ensures y * width <= x + y * width <= Int32Max
    ensures PixelOffset(width, x, y) + 3 <= Int32Max
  {
    OffsetInRange(width, height, x, y);
  }
}
