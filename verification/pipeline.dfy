/** The converter end to end: the rotation argument is checked first, then the
    decoded image's format, then the rows are packed and the bitmap rotated;
    the output file is the rotated bitmap's rows, row 0 first.
 */
module Converter {
  import opened Bits
  import opened Bitmaps
  import opened Formats
  import opened Packer
  import opened Rotator

  /** Dark or light, as the packer reads pixel `(x, y)` off the decoded rows:
      a 1-bit sample of 0 is dark, an 8-bit colour pixel is dark when its red,
      green and blue bytes are all zero. */
  predicate SourceDark(f: Format, decoded: seq<seq<bv8>>, x: nat, y: nat)
    requires Supported(f) && y < |decoded|
  {
    if f.bitDepth == 1 then !RowBit(decoded[y], x) else IsBlack(decoded[y], BytesPerPixel(f.colorType), x)
  }

  /** Size in bytes of a packed `width` by `height` bitmap, computed without
      truncation: `Stride(width) * height`. */
  function AllocBytes(width: nat, height: nat): (n: nat)
    ensures width * height <= 8 * n
    ensures height > 0 ==> 8 * n < (width + 8) * height
  {
    var s := Stride(width);
    assert width * height <= 8 * (s * height) && (height > 0 ==> 8 * (s * height) < (width + 8) * height) by {
      NatMulMono(width, 8 * s, height);
      if height > 0 {
        NatMulStrict(8 * s, width + 8, height);
      }
      assert 8 * (s * height) == (8 * s) * height;
    }
    s * height
  }

  /** Every valid bitmap's file image is exactly `AllocBytes` long. */
  lemma BytesFitAlloc(b: Bitmap)
    requires b.Valid()
    ensures |b.Bytes()| == AllocBytes(b.width, b.height)
  {
    FlattenLength(b.rows, Stride(b.width));
  }

  /** The conversion of one decoded image.  A rotation other than 0, 90, 180 or
      270 is refused before the image is looked at; an image that is neither
      1-bit nor 8-bit RGB/RGBA is refused next; anything else yields a valid
      bitmap of the rotated size whose padding bits are zero and whose file
      image is `AllocBytes` of that size. */
  function Convert(angle: int, f: Format, width: nat, height: nat, decoded: seq<seq<bv8>>): (r: Result<Bitmap>)
    requires Supported(f) ==> RowsFit(f, width, height, decoded)
    ensures r.Err? <==> !ValidAngle(angle) || !Supported(f)
    ensures !ValidAngle(angle) ==> r == Err(InvalidRotation)
    ensures ValidAngle(angle) && !Supported(f) ==> r == Err(UnsupportedFormat)
    ensures r.Ok? ==>
      && r.value.width == RotatedWidth(angle, width, height)
      && r.value.height == RotatedHeight(angle, width, height)
      && r.value.Valid() && r.value.PaddingClean()
      && |r.value.Bytes()| == AllocBytes(r.value.width, r.value.height)
  {
    if !ValidAngle(angle) then
      Err(InvalidRotation)
    else
      match Pack(f, width, height, decoded)
      case Err(e) => Err(e)
      case Ok(packed) =>
        var rotated := Rotate(packed, angle);
        BytesFitAlloc(rotated);
        Ok(rotated)
  }

  /** End to end: source pixel `(x, y)` of the decoded image lands at its
      rotated place `Dest(angle, ...)` in the output, dark exactly when the
      packer reads it as dark. */
  lemma ConvertPixel(angle: int, f: Format, width: nat, height: nat, decoded: seq<seq<bv8>>, x: nat, y: nat)
    requires ValidAngle(angle) && Supported(f) && RowsFit(f, width, height, decoded)
    requires x < width && y < height
    ensures var r := Convert(angle, f, width, height, decoded);
      var d := Dest(angle, width, height, x, y);
      && r.Ok? && d.0 < r.value.width && d.1 < r.value.height
      && r.value.Pixel(d.0, d.1) == SourceDark(f, decoded, x, y)
  {
    var packed := Pack(f, width, height, decoded).value;
    var d := Dest(angle, width, height, x, y);
    SourceOfDest(angle, width, height, x, y);
    RotatePixel(packed, angle, d.0, d.1);
  }

  /** Two decoded RGBA images that differ only in their alpha bytes convert to
      the same output. */
  lemma ConvertIgnoresAlpha(angle: int, width: nat, height: nat, a: seq<seq<bv8>>, b: seq<seq<bv8>>)
    requires |a| == |b| == height
    requires forall y | 0 <= y < height :: |a[y]| == |b[y]| == width * 4
    requires forall y, i | 0 <= y < height && 0 <= i < width * 4 && i % 4 != 3 :: a[y][i] == b[y][i]
    requires width > 0
    ensures var f := Format(8, COLOR_TYPE_RGB_ALPHA);
      RowsFit(f, width, height, a) && RowsFit(f, width, height, b)
      && Convert(angle, f, width, height, a) == Convert(angle, f, width, height, b)
  {
    var f := Format(8, COLOR_TYPE_RGB_ALPHA);
    assert DecodedRowBytes(f, width) == width * 4;
    forall y | 0 <= y < height
      ensures PackRgbRow(a[y], width, 4) == PackRgbRow(b[y], width, 4)
    {
      AlphaIgnored(a[y], b[y], width);
    }
    assert PackRgb(width, height, 4, a) == PackRgb(width, height, 4, b);
  }

  // ---------------------------------------------------------------------------
  // Buffer size held in 16 bits

  const UINT16_LIMIT: nat := 0x1_0000

  /** The buffer size the converter allocates, reads rows into, rotates and
      writes: `wbyte * hbyte` with both factors stored in `uint16_t`, so each is
      the true stride or height reduced modulo 65536. */
  function AllocBytesAsWritten(width: nat, height: nat): (n: nat)
    ensures n <= AllocBytes(width, height)
  {
    var wbyte, hbyte := Stride(width) % UINT16_LIMIT, height % UINT16_LIMIT;
    assert wbyte * hbyte <= Stride(width) * hbyte <= Stride(width) * height by {
      NatMulMono(wbyte, Stride(width), hbyte);
      NatMulMono(hbyte, height, Stride(width));
    }
    wbyte * hbyte
  }

  lemma NatMulMono(a: nat, b: nat, c: nat)
    requires a <= b
    ensures a * c <= b * c
  {
  }

  lemma NatMulStrict(a: nat, b: nat, c: nat)
    requires a < b && c > 0
    ensures a * c < b * c
  {
  }

  /** For a non-empty bitmap the 16-bit buffer holds exactly its file image
      iff both the stride and the height are below 65536; otherwise the buffer
      is strictly smaller than the rows the converter goes on to store in it. */
  lemma AllocAsWrittenShort(b: Bitmap)
    requires b.Valid() && b.width > 0 && b.height > 0
    ensures AllocBytesAsWritten(b.width, b.height) <= |b.Bytes()|
    ensures (AllocBytesAsWritten(b.width, b.height) == |b.Bytes()|)
        <==> (Stride(b.width) < UINT16_LIMIT && b.height < UINT16_LIMIT)
  {
    BytesFitAlloc(b);
    var s, h := Stride(b.width), b.height;
    var ws, hs := s % UINT16_LIMIT, h % UINT16_LIMIT;
    if s >= UINT16_LIMIT {
      NatMulMono(hs, h, ws);
      NatMulStrict(ws, s, h);
      assert ws * hs <= ws * h < s * h;
    } else if h >= UINT16_LIMIT {
      NatMulMono(ws, s, hs);
      NatMulStrict(hs, h, s);
      assert ws * hs <= s * hs < s * h;
    }
  }

  /** Any bitmap 8 pixels wide and 65536 rows tall: its file image is 65536
      bytes, the buffer the converter allocates for it has none. */
  lemma TallImageOverflows(b: Bitmap)
    requires b.Valid() && b.width == 8 && b.height == 65536
    ensures |b.Bytes()| == 65536
    ensures AllocBytesAsWritten(b.width, b.height) == 0
  {
    BytesFitAlloc(b);
    assert Stride(8) == 1;
  }
}
