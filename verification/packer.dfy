/** The packer: turns decoded image rows into a packed 1-bit bitmap
    (MSB-first, a set bit means dark), one `Stride(width)`-byte row per image row.

    A 1-bit image arrives already bit-packed with 1 meaning light, so each byte
    is inverted and the last byte of the row is masked.  An 8-bit RGB or RGBA
    image is classified pixel by pixel: exactly the pure-black pixels are dark.
 */
module Packer {
  import opened Bits
  import opened Bitmaps
  import opened Formats

  // ---------------------------------------------------------------------------
  // Monochrome path

  /** The byte whose `n` most significant bits are set and whose others are clear. */
  function HighBits(n: nat): (m: bv8)
    requires n <= 8
    ensures forall k | 0 <= k < 8 :: TestBit(m, k) == (k < n)
  {
    if n == 0 then 0
    else
      var m := HighBits(n - 1) | BitMask(n - 1);
      assert forall k | 0 <= k < 8 :: TestBit(m, k) == (k < n) by {
        forall k | 0 <= k < 8
          ensures TestBit(m, k) == (k < n)
        {
          BitOps(HighBits(n - 1), BitMask(n - 1), k);
          MaskBit(n - 1, k);
        }
      }
      m
  }

  /** The mask applied to the last byte of every monochrome row: it keeps the
      bits of that byte that lie inside the image and clears the rest. */
  function TrailMask(width: nat): (mask: bv8)
    requires width > 0
    ensures forall k | 0 <= k < 8 :: TestBit(mask, k) == (8 * (Stride(width) - 1) + k < width)
  {
    if width % 8 != 0 then HighBits(width % 8) else 0xFF
  }

  /** Widening a run of high bits by one: `m | (m >> 1)` on `HighBits(n)`. */
  lemma HighBitsGrow(n: nat)
    requires 1 <= n < 8
    ensures HighBits(n) | (HighBits(n) >> 1) == HighBits(n + 1)
  {
    var m := HighBits(n);
    var grown := m | (m >> 1);
    forall k | 0 <= k < 8
      ensures TestBit(grown, k) == TestBit(HighBits(n + 1), k)
    {
      BitOps(m, m >> 1, k);
      ShiftRightBit(m, k);
    }
    ByteExt(grown, HighBits(n + 1));
  }

  /** The mask as the converter builds it: start from the top bit and widen the
      run by one bit `width % 8 - 1` times, or take all ones for a whole last byte. */
  method BuildTrailMask(width: nat) returns (mask: bv8)
    requires width > 0
    ensures forall k | 0 <= k < 8 :: TestBit(mask, k) == (8 * (Stride(width) - 1) + k < width)
  {
    var mod := width % 8;
    if mod != 0 {
      mask := 0x80;
      assert mask == HighBits(1);
      while mod > 1
        invariant 1 <= mod <= width % 8
        invariant mask == HighBits(width % 8 - mod + 1)
      {
        HighBitsGrow(width % 8 - mod + 1);
        mask := mask | (mask >> 1);
        mod := mod - 1;
      }
    } else {
      mask := 0xFF;
    }
    assert mask == TrailMask(width);
  }

  /** One monochrome row: every decoded byte inverted, the last one masked. */
  function PackMonoRow(decoded: seq<bv8>, width: nat): (row: seq<bv8>)
    requires width > 0 && |decoded| == Stride(width)
    ensures |row| == Stride(width)
    ensures forall x | 0 <= x < width :: RowBit(row, x) == !RowBit(decoded, x)
    ensures forall x | width <= x < 8 * Stride(width) :: !RowBit(row, x)
  {
    var s := Stride(width);
    var mask := TrailMask(width);
    var row := seq(s, i requires 0 <= i < s => if i == s - 1 then !decoded[i] & mask else !decoded[i]);
    assert forall x | 0 <= x < 8 * s :: RowBit(row, x) == (x < width && !RowBit(decoded, x)) by {
      forall x | 0 <= x < 8 * s
        ensures RowBit(row, x) == (x < width && !RowBit(decoded, x))
      {
        MonoBit(decoded, width, row, x);
      }
    }
    row
  }

  /** One bit of `PackMonoRow`: inside the image it is the inverted sample,
      past the image the mask has cleared it. */
  lemma MonoBit(decoded: seq<bv8>, width: nat, row: seq<bv8>, x: nat)
    requires width > 0 && |decoded| == Stride(width) && |row| == Stride(width)
    requires forall i | 0 <= i < Stride(width) - 1 :: row[i] == !decoded[i]
    requires row[Stride(width) - 1] == !decoded[Stride(width) - 1] & TrailMask(width)
    requires x < 8 * Stride(width)
    ensures RowBit(row, x) == (x < width && !RowBit(decoded, x))
  {
    var s, i, k := Stride(width), x / 8, x % 8;
    assert x == 8 * i + k;
    InvertBit(decoded[i], TrailMask(width), k);
    if i == s - 1 {
      assert TestBit(TrailMask(width), k) == (x < width);
    } else {
      assert row[i] == !decoded[i];
      assert x < width;
    }
  }

  /** Inverting a byte inverts each bit; masking the inverted byte keeps only the mask's bits. */
  lemma InvertBit(d: bv8, mask: bv8, k: nat)
    requires k < 8
    ensures TestBit(!d, k) == !TestBit(d, k)
    ensures TestBit(!d & mask, k) == (!TestBit(d, k) && TestBit(mask, k))
  {
    BitOps(d, mask, k);
    BitOps(!d, mask, k);
  }

  /** A 1-bit image: row `y` of the result is row `y` of the decoded image,
      inverted and with its padding bits cleared. */
  function PackMono(width: nat, height: nat, decoded: seq<seq<bv8>>): (b: Bitmap)
    requires width > 0 && |decoded| == height
    requires forall y | 0 <= y < height :: |decoded[y]| == Stride(width)
    ensures b.width == width && b.height == height
    ensures b.Valid() && b.PaddingClean()
    ensures forall x, y | 0 <= x < width && 0 <= y < height :: b.Pixel(x, y) == !RowBit(decoded[y], x)
  {
    Bitmap(width, height, seq(height, y requires 0 <= y < height => PackMonoRow(decoded[y], width)))
  }

  /** A 1-bit image whose every in-range sample is light packs to all-zero
      bytes, whatever the decoder left in the bits past `width`. */
  lemma AllLightPacksToZero(width: nat, height: nat, decoded: seq<seq<bv8>>)
    requires width > 0 && |decoded| == height
    requires forall y | 0 <= y < height :: |decoded[y]| == Stride(width)
    requires forall x, y | 0 <= x < width && 0 <= y < height :: RowBit(decoded[y], x)
    ensures forall y, i | 0 <= y < height && 0 <= i < Stride(width) :: PackMono(width, height, decoded).rows[y][i] == 0
  {
    var b := PackMono(width, height, decoded);
    forall y, i | 0 <= y < height && 0 <= i < Stride(width)
      ensures b.rows[y][i] == 0
    {
      forall k | 0 <= k < 8
        ensures TestBit(b.rows[y][i], k) == TestBit(0, k)
      {
        var x := 8 * i + k;
        assert x / 8 == i && x % 8 == k;
        if x < width {
          assert b.Pixel(x, y) == !RowBit(decoded[y], x);
        } else {
          assert !RowBit(b.rows[y], x);
        }
      }
      ByteExt(b.rows[y][i], 0);
    }
  }

  /** A 1-bit image whose every in-range sample is dark packs to all-one bytes
      except the last byte of each row, which holds ones up to `width` only. */
  lemma AllDarkPacksToOnes(width: nat, height: nat, decoded: seq<seq<bv8>>)
    requires width > 0 && |decoded| == height
    requires forall y | 0 <= y < height :: |decoded[y]| == Stride(width)
    requires forall x, y | 0 <= x < width && 0 <= y < height :: !RowBit(decoded[y], x)
    ensures forall y, i | 0 <= y < height && 0 <= i < Stride(width) ::
      PackMono(width, height, decoded).rows[y][i] == if i == Stride(width) - 1 then TrailMask(width) else 0xFF
  {
    var b := PackMono(width, height, decoded);
    var s := Stride(width);
    forall y, i | 0 <= y < height && 0 <= i < s
      ensures b.rows[y][i] == if i == s - 1 then TrailMask(width) else 0xFF
    {
      var expected: bv8 := if i == s - 1 then TrailMask(width) else 0xFF;
      forall k | 0 <= k < 8
        ensures TestBit(b.rows[y][i], k) == TestBit(expected, k)
      {
        var x := 8 * i + k;
        assert x / 8 == i && x % 8 == k;
        BitOps(0, 0, k);
        assert TestBit(0xFF, k) == TestBit(!0, k);
        if x < width {
          assert b.Pixel(x, y) == !RowBit(decoded[y], x);
        } else {
          assert !RowBit(b.rows[y], x);
        }
      }
      ByteExt(b.rows[y][i], expected);
    }
  }

  // ---------------------------------------------------------------------------
  // RGB / RGBA path

  /** Pixel `x` of a decoded colour row is pure black: its first three bytes
      (red, green, blue) are all zero.  The alpha byte of RGBA plays no part. */
  predicate IsBlack(row: seq<bv8>, bpp: nat, x: nat) {
    && x * bpp + 2 < |row|
    && row[x * bpp] == 0 && row[x * bpp + 1] == 0 && row[x * bpp + 2] == 0
  }

  /** The bytes of pixel `x < width` lie inside a row of `width * bpp` bytes. */
  lemma PixelInRow(width: nat, bpp: nat, x: nat)
    requires bpp == 3 || bpp == 4
    requires x < width
    ensures x * bpp + bpp <= width * bpp
  {
  }

  /** One colour row classified: pixel `x` is dark exactly when it is pure black. */
  function PackRgbRow(decoded: seq<bv8>, width: nat, bpp: nat): (row: seq<bv8>)
    requires bpp == 3 || bpp == 4
    requires |decoded| == width * bpp
    ensures |row| == Stride(width)
    ensures forall x | 0 <= x < width :: RowBit(row, x) == IsBlack(decoded, bpp, x)
    ensures forall x | width <= x < 8 * Stride(width) :: !RowBit(row, x)
  {
    RowFrom(width, Stride(width), (x: nat) => IsBlack(decoded, bpp, x))
  }

  /** The classification loop as the converter runs it over one row: the row
      starts zeroed, a cursor of byte index and mask walks the pixels, and each
      pixel's bit is set (`|= mask`) when it is black and cleared (`&= ~mask`)
      otherwise, through that cursor. */
  method ClassifyRow(decoded: seq<bv8>, width: nat, bpp: nat) returns (row: seq<bv8>)
    requires bpp == 3 || bpp == 4
    requires |decoded| == width * bpp
    ensures row == PackRgbRow(decoded, width, bpp)
  {
    var s := Stride(width);
    row := seq(s, _ => 0);
    ClassifiedStart(decoded, width, bpp);
    var xb := 0;
    var mask: bv8 := 0x80;
    var x := 0;
    while x < width
      invariant 0 <= x <= width
      invariant xb == x / 8 && mask == BitMask(x % 8)
      invariant Classified(decoded, width, bpp, row, x)
    {
      PixelInRow(width, bpp, x);
      var black := decoded[x * bpp] == 0x00 && decoded[x * bpp + 1] == 0x00 && decoded[x * bpp + 2] == 0x00;
      ClassifyStep(decoded, width, bpp, row, x, xb, mask, black);
      if black {
        row := row[xb := row[xb] | mask];
      } else {
        row := row[xb := row[xb] & !mask];
      }
      MaskShift(x % 8);
      mask := mask >> 1;
      if mask == 0 {
        mask := 0x80;
        xb := xb + 1;
      }
      x := x + 1;
    }
    RowExt(row, PackRgbRow(decoded, width, bpp));
  }

  /** The row as the classification loop holds it before pixel `x`: one stride
      long, with exactly the black pixels left of `x` set. */
  predicate Classified(decoded: seq<bv8>, width: nat, bpp: nat, row: seq<bv8>, x: nat) {
    && |row| == Stride(width)
    && forall p | 0 <= p < 8 * Stride(width) :: RowBit(row, p) == (p < x && IsBlack(decoded, bpp, p))
  }

  /** The zero-filled row is where the classification loop starts. */
  lemma ClassifiedStart(decoded: seq<bv8>, width: nat, bpp: nat)
    ensures Classified(decoded, width, bpp, seq(Stride(width), _ => 0), 0)
  {
    var row: seq<bv8> := seq(Stride(width), _ => 0);
    forall p | 0 <= p < 8 * Stride(width)
      ensures !RowBit(row, p)
    {
      BitOps(0, 0, p % 8);
    }
  }

  /** One pass of the classification loop: writing pixel `x`'s class through the
      cursor `xb` and `mask` extends the classified prefix by that pixel. */
  lemma ClassifyStep(decoded: seq<bv8>, width: nat, bpp: nat, row: seq<bv8>, x: nat, xb: nat, mask: bv8, black: bool)
    requires x < width && xb == x / 8 && mask == BitMask(x % 8)
    requires black == IsBlack(decoded, bpp, x)
    requires Classified(decoded, width, bpp, row, x)
    ensures xb < |row|
    ensures Classified(decoded, width, bpp, row[xb := if black then row[xb] | mask else row[xb] & !mask], x + 1)
  {
    CursorWrite(row, x, xb, mask, black);
  }

  /** Writing through the loop's byte cursor `xb` and mask is `WriteBit` of pixel `x`. */
  lemma CursorWrite(row: seq<bv8>, x: nat, xb: nat, mask: bv8, on: bool)
    requires xb == x / 8 && xb < |row| && mask == BitMask(x % 8)
    ensures row[xb := if on then row[xb] | mask else row[xb] & !mask] == WriteBit(row, x, on)
  {
  }

  /** An 8-bit colour image with `bpp` bytes per pixel, classified row by row. */
  function PackRgb(width: nat, height: nat, bpp: nat, decoded: seq<seq<bv8>>): (b: Bitmap)
    requires bpp == 3 || bpp == 4
    requires |decoded| == height
    requires forall y | 0 <= y < height :: |decoded[y]| == width * bpp
    ensures b.width == width && b.height == height
    ensures b.Valid() && b.PaddingClean()
    ensures forall x, y | 0 <= x < width && 0 <= y < height :: b.Pixel(x, y) == IsBlack(decoded[y], bpp, x)
  {
    Bitmap(width, height, seq(height, y requires 0 <= y < height => PackRgbRow(decoded[y], width, bpp)))
  }

  /** The alpha byte never changes the result: two RGBA rows that differ only
      in their alpha bytes classify to the same packed row. */
  lemma AlphaIgnored(a: seq<bv8>, b: seq<bv8>, width: nat)
    requires |a| == |b| == width * 4
    requires forall i | 0 <= i < |a| && i % 4 != 3 :: a[i] == b[i]
    ensures PackRgbRow(a, width, 4) == PackRgbRow(b, width, 4)
  {
    var ra, rb := PackRgbRow(a, width, 4), PackRgbRow(b, width, 4);
    forall x | 0 <= x < 8 * Stride(width)
      ensures RowBit(ra, x) == RowBit(rb, x)
    {
      if x < width {
        BlackIgnoresAlpha(a, b, x);
      }
    }
    RowExt(ra, rb);
  }

  /** One pixel of `AlphaIgnored`. */
  lemma BlackIgnoresAlpha(a: seq<bv8>, b: seq<bv8>, x: nat)
    requires |a| == |b|
    requires forall i | 0 <= i < |a| && i % 4 != 3 :: a[i] == b[i]
    ensures IsBlack(a, 4, x) == IsBlack(b, 4, x)
  {
    var i := x * 4;
    if i + 2 < |a| {
      assert i % 4 == 0 && (i + 1) % 4 == 1 && (i + 2) % 4 == 2;
      assert a[i] == b[i] && a[i + 1] == b[i + 1] && a[i + 2] == b[i + 2];
    }
  }

  // ---------------------------------------------------------------------------
  // Dispatch

  /** Number of bytes the decoder delivers per row of a supported format. */
  function DecodedRowBytes(f: Format, width: nat): nat
    requires Supported(f)
  {
    if f.bitDepth == 1 then Stride(width) else width * BytesPerPixel(f.colorType)
  }

  /** The decoded rows match the declared size and format. */
  predicate RowsFit(f: Format, width: nat, height: nat, decoded: seq<seq<bv8>>)
    requires Supported(f)
  {
    && width > 0
    && |decoded| == height
    && forall y | 0 <= y < height :: |decoded[y]| == DecodedRowBytes(f, width)
  }

  /** The packer as a whole: an unsupported format is refused; a 1-bit image
      is inverted and masked; an 8-bit RGB or RGBA image is classified. */
  function Pack(f: Format, width: nat, height: nat, decoded: seq<seq<bv8>>): (r: Result<Bitmap>)
    requires Supported(f) ==> RowsFit(f, width, height, decoded)
    ensures r.Err? <==> !Supported(f)
    ensures r.Err? ==> r.error == UnsupportedFormat
    ensures r.Ok? ==> && r.value.width == width && r.value.height == height
                      && r.value.Valid() && r.value.PaddingClean()
    ensures r.Ok? && f.bitDepth == 1 ==>
      forall x, y | 0 <= x < width && 0 <= y < height :: r.value.Pixel(x, y) == !RowBit(decoded[y], x)
    ensures r.Ok? && f.bitDepth != 1 ==>
      forall x, y | 0 <= x < width && 0 <= y < height ::
        r.value.Pixel(x, y) == IsBlack(decoded[y], BytesPerPixel(f.colorType), x)
  {
    if !Supported(f) then Err(UnsupportedFormat)
    else if f.bitDepth == 1 then Ok(PackMono(width, height, decoded))
    else Ok(PackRgb(width, height, BytesPerPixel(f.colorType), decoded))
  }
}
