/** The rotator: turns a packed 1-bit bitmap clockwise by 90, 180 or 270
    degrees.  The destination starts zero-filled and only in-range pixels are
    written, so every rotated bitmap has clean padding.  Any other angle
    (0 in particular) leaves the bitmap untouched.
 */
module Rotator {
  import opened Bits
  import opened Bitmaps

  /** Width of the rotated bitmap: a quarter turn swaps the sides. */
  function RotatedWidth(angle: int, w: nat, h: nat): nat {
    if angle == 90 || angle == 270 then h else w
  }

  /** Height of the rotated bitmap. */
  function RotatedHeight(angle: int, w: nat, h: nat): nat {
    if angle == 90 || angle == 270 then w else h
  }

  /** Where the source pixel `(rx, ry)` of a `w` by `h` bitmap lands, as the
      rotation loops place it. */
  function Dest(angle: int, w: nat, h: nat, rx: nat, ry: nat): (d: (nat, nat))
    requires rx < w && ry < h
    ensures d.0 < RotatedWidth(angle, w, h) && d.1 < RotatedHeight(angle, w, h)
  {
    if angle == 90 then (h - 1 - ry, rx)
    else if angle == 180 then (w - 1 - rx, h - 1 - ry)
    else if angle == 270 then (ry, w - 1 - rx)
    else (rx, ry)
  }

  /** The source pixel that the destination pixel `(wx, wy)` comes from. */
  function Source(angle: int, w: nat, h: nat, wx: nat, wy: nat): (s: (nat, nat))
    requires wx < RotatedWidth(angle, w, h) && wy < RotatedHeight(angle, w, h)
    ensures s.0 < w && s.1 < h
  {
    if angle == 90 then (wy, h - 1 - wx)
    else if angle == 180 then (w - 1 - wx, h - 1 - wy)
    else if angle == 270 then (w - 1 - wy, wx)
    else (wx, wy)
  }

  /** `Source` undoes `Dest` ... */
  lemma SourceOfDest(angle: int, w: nat, h: nat, rx: nat, ry: nat)
    requires rx < w && ry < h
    ensures var d := Dest(angle, w, h, rx, ry);
      Source(angle, w, h, d.0, d.1) == (rx, ry)
  {
  }

  /** ... and `Dest` undoes `Source`: the mapping is a bijection of the pixel grid. */
  lemma DestOfSource(angle: int, w: nat, h: nat, wx: nat, wy: nat)
    requires wx < RotatedWidth(angle, w, h) && wy < RotatedHeight(angle, w, h)
    ensures var s := Source(angle, w, h, wx, wy);
      Dest(angle, w, h, s.0, s.1) == (wx, wy)
  {
  }

  /** The angles the rotation loops act on; any other angle matches no case. */
  predicate QuarterTurn(angle: int) {
    angle == 90 || angle == 180 || angle == 270
  }

  /** The bitmap rotated clockwise by `angle` degrees.  For 90, 180 and 270 a
      fresh zero-filled bitmap of the rotated size receives every source pixel
      at its destination; for any other angle the input is returned as it is. */
  function Rotate(b: Bitmap, angle: int): (r: Bitmap)
    requires b.Valid()
    ensures r.Valid()
    ensures r.width == RotatedWidth(angle, b.width, b.height)
    ensures r.height == RotatedHeight(angle, b.width, b.height)
    ensures QuarterTurn(angle) ==> r.PaddingClean()
    ensures !QuarterTurn(angle) ==> r == b
  {
    if !QuarterTurn(angle) then b
    else
      var w, h := b.width, b.height;
      FromPixels(RotatedWidth(angle, w, h), RotatedHeight(angle, w, h),
        (wx: nat, wy: nat) =>
          wx < RotatedWidth(angle, w, h) && wy < RotatedHeight(angle, w, h) &&
          var s := Source(angle, w, h, wx, wy); b.Pixel(s.0, s.1))
  }

  /** Each destination pixel of a rotation is its source pixel. */
  lemma RotatePixel(b: Bitmap, angle: int, wx: nat, wy: nat)
    requires b.Valid()
    requires wx < RotatedWidth(angle, b.width, b.height) && wy < RotatedHeight(angle, b.width, b.height)
    ensures var s := Source(angle, b.width, b.height, wx, wy);
      Rotate(b, angle).Pixel(wx, wy) == b.Pixel(s.0, s.1)
  {
  }

  /** The rotation table: source pixel `(rx, ry)` of a `W` by `H` bitmap reappears
      at `(H-1-ry, rx)` after 90 degrees, at `(W-1-rx, H-1-ry)` after 180, at
      `(ry, W-1-rx)` after 270, and in place otherwise. */
  lemma RotateMapsPixel(b: Bitmap, angle: int, rx: nat, ry: nat)
    requires b.Valid() && rx < b.width && ry < b.height
    ensures var r, w, h := Rotate(b, angle), b.width, b.height;
      && (angle == 90 ==> h - 1 - ry < r.width && rx < r.height && r.Pixel(h - 1 - ry, rx) == b.Pixel(rx, ry))
      && (angle == 180 ==> w - 1 - rx < r.width && h - 1 - ry < r.height && r.Pixel(w - 1 - rx, h - 1 - ry) == b.Pixel(rx, ry))
      && (angle == 270 ==> ry < r.width && w - 1 - rx < r.height && r.Pixel(ry, w - 1 - rx) == b.Pixel(rx, ry))
      && (!QuarterTurn(angle) ==> r.Pixel(rx, ry) == b.Pixel(rx, ry))
  {
    var d := Dest(angle, b.width, b.height, rx, ry);
    SourceOfDest(angle, b.width, b.height, rx, ry);
    RotatePixel(b, angle, d.0, d.1);
  }

  /** The file image of a rotated bitmap is `Stride(width') * height'` bytes,
      with the stride recomputed from the rotated width. */
  lemma RotatedByteCount(b: Bitmap, angle: int)
    requires b.Valid()
    ensures var r := Rotate(b, angle);
      |r.Bytes()| == Stride(RotatedWidth(angle, b.width, b.height)) * RotatedHeight(angle, b.width, b.height)
  {
    var r := Rotate(b, angle);
    FlattenLength(r.rows, Stride(r.width));
  }

  /** A quarter turn followed by a three-quarter turn gives back a bitmap
      whose padding was clean. */
  lemma Rotate90Then270(b: Bitmap)
    requires b.Valid() && b.PaddingClean()
    ensures Rotate(Rotate(b, 90), 270) == b
  {
    var a := Rotate(b, 90);
    var c := Rotate(a, 270);
    forall x, y | 0 <= x < b.width && 0 <= y < b.height
      ensures c.Pixel(x, y) == b.Pixel(x, y)
    {
      var x', y' := b.height - 1 - y, x;
      assert Source(270, a.width, a.height, x, y) == (x', y');
      assert Source(90, b.width, b.height, x', y') == (x, y);
      RotatePixel(a, 270, x, y);
      RotatePixel(b, 90, x', y');
    }
    BitmapExt(c, b);
  }

  /** 270 then 90 also gives back a bitmap whose padding was clean. */
  lemma Rotate270Then90(b: Bitmap)
    requires b.Valid() && b.PaddingClean()
    ensures Rotate(Rotate(b, 270), 90) == b
  {
    var a := Rotate(b, 270);
    var c := Rotate(a, 90);
    forall x, y | 0 <= x < b.width && 0 <= y < b.height
      ensures c.Pixel(x, y) == b.Pixel(x, y)
    {
      var x', y' := y, b.width - 1 - x;
      assert Source(90, a.width, a.height, x, y) == (x', y');
      assert Source(270, b.width, b.height, x', y') == (x, y);
      RotatePixel(a, 90, x, y);
      RotatePixel(b, 270, x', y');
    }
    BitmapExt(c, b);
  }

  /** Two half turns give back a bitmap whose padding was clean. */
  lemma Rotate180Twice(b: Bitmap)
    requires b.Valid() && b.PaddingClean()
    ensures Rotate(Rotate(b, 180), 180) == b
  {
    var a := Rotate(b, 180);
    var c := Rotate(a, 180);
    forall x, y | 0 <= x < b.width && 0 <= y < b.height
      ensures c.Pixel(x, y) == b.Pixel(x, y)
    {
      var x', y' := b.width - 1 - x, b.height - 1 - y;
      assert Source(180, a.width, a.height, x, y) == (x', y');
      assert Source(180, b.width, b.height, x', y') == (x, y);
      RotatePixel(a, 180, x, y);
      RotatePixel(b, 180, x', y');
    }
    BitmapExt(c, b);
  }

  /** Two quarter turns are one half turn, whatever the input's padding. */
  lemma Rotate90Twice(b: Bitmap)
    requires b.Valid()
    ensures Rotate(Rotate(b, 90), 90) == Rotate(b, 180)
  {
    var a := Rotate(b, 90);
    var c, d := Rotate(a, 90), Rotate(b, 180);
    forall x, y | 0 <= x < b.width && 0 <= y < b.height
      ensures c.Pixel(x, y) == d.Pixel(x, y)
    {
      var x', y' := y, b.width - 1 - x;
      assert Source(90, a.width, a.height, x, y) == (x', y');
      assert Source(90, b.width, b.height, x', y') == Source(180, b.width, b.height, x, y);
      RotatePixel(a, 90, x, y);
      RotatePixel(b, 90, x', y');
      RotatePixel(b, 180, x, y);
    }
    BitmapExt(c, d);
  }

  /** Four quarter turns give back a bitmap whose padding was clean. */
  lemma Rotate90FourTimes(b: Bitmap)
    requires b.Valid() && b.PaddingClean()
    ensures Rotate(Rotate(Rotate(Rotate(b, 90), 90), 90), 90) == b
  {
    Rotate90Twice(b);
    Rotate90Twice(Rotate(Rotate(b, 90), 90));
    Rotate180Twice(b);
  }

  // ---------------------------------------------------------------------------
  // The rotation loops

  /** Destination pixel `(px, py)` already holds its source pixel once the loops
      have visited every source pixel before `(rx, ry)` in column-major order;
      every pixel not yet written, and every padding bit, is still zero. */
  predicate Written(b: Bitmap, angle: int, px: nat, py: nat, rx: nat, ry: nat)
    requires b.Valid()
  {
    && px < RotatedWidth(angle, b.width, b.height)
    && py < RotatedHeight(angle, b.width, b.height)
    && var s := Source(angle, b.width, b.height, px, py);
       (s.0 < rx || (s.0 == rx && s.1 < ry)) && b.Pixel(s.0, s.1)
  }

  /** The destination rows of the rotation loops once they have reached source
      pixel `(rx, ry)`: rotated shape, and exactly the pixels visited so far set. */
  predicate Progress(b: Bitmap, angle: int, rows: seq<seq<bv8>>, rx: nat, ry: nat)
    requires b.Valid()
  {
    var w2, h2 := RotatedWidth(angle, b.width, b.height), RotatedHeight(angle, b.width, b.height);
    && |rows| == h2
    && (forall y | 0 <= y < h2 :: |rows[y]| == Stride(w2))
    && forall px, py | 0 <= px < 8 * Stride(w2) && 0 <= py < h2 ::
         RowBit(rows[py], px) == Written(b, angle, px, py, rx, ry)
  }

  /** The zero-filled destination is where the loops start. */
  lemma ProgressStart(b: Bitmap, angle: int)
    requires b.Valid()
    ensures var w2, h2 := RotatedWidth(angle, b.width, b.height), RotatedHeight(angle, b.width, b.height);
      Progress(b, angle, seq(h2, _ => seq(Stride(w2), _ => 0 as bv8)), 0, 0)
  {
    var w2, h2 := RotatedWidth(angle, b.width, b.height), RotatedHeight(angle, b.width, b.height);
    var rows := seq(h2, _ => seq(Stride(w2), _ => 0 as bv8));
    forall px, py | 0 <= px < 8 * Stride(w2) && 0 <= py < h2
      ensures !RowBit(rows[py], px)
    {
      BitOps(0, 0, px % 8);
    }
  }

  /** Copying source pixel `(rx, ry)` to its destination advances the loops by one pixel. */
  lemma ProgressStep(b: Bitmap, angle: int, rows: seq<seq<bv8>>, rx: nat, ry: nat)
    requires b.Valid() && QuarterTurn(angle) && rx < b.width && ry < b.height
    requires Progress(b, angle, rows, rx, ry)
    ensures var d := Dest(angle, b.width, b.height, rx, ry);
      && d.1 < |rows| && d.0 / 8 < |rows[d.1]|
      && Progress(b, angle, rows[d.1 := WriteBit(rows[d.1], d.0, b.Pixel(rx, ry))], rx, ry + 1)
  {
    var d := Dest(angle, b.width, b.height, rx, ry);
    var rows' := rows[d.1 := WriteBit(rows[d.1], d.0, b.Pixel(rx, ry))];
    var w2, h2 := RotatedWidth(angle, b.width, b.height), RotatedHeight(angle, b.width, b.height);
    SourceOfDest(angle, b.width, b.height, rx, ry);
    forall px, py | 0 <= px < 8 * Stride(w2) && 0 <= py < h2
      ensures RowBit(rows'[py], px) == Written(b, angle, px, py, rx, ry + 1)
    {
      if px < w2 {
        DestOfSource(angle, b.width, b.height, px, py);
      }
    }
  }

  /** Having finished column `rx` is having started column `rx + 1`. */
  lemma ProgressNextColumn(b: Bitmap, angle: int, rows: seq<seq<bv8>>, rx: nat)
    requires b.Valid() && Progress(b, angle, rows, rx, b.height)
    ensures Progress(b, angle, rows, rx + 1, 0)
  {
    var w2, h2 := RotatedWidth(angle, b.width, b.height), RotatedHeight(angle, b.width, b.height);
    forall px, py | 0 <= px < 8 * Stride(w2) && 0 <= py < h2
      ensures Written(b, angle, px, py, rx, b.height) == Written(b, angle, px, py, rx + 1, 0)
    {
    }
  }

  /** Once every source column is copied, the destination is the rotated bitmap. */
  lemma ProgressDone(b: Bitmap, angle: int, rows: seq<seq<bv8>>)
    requires b.Valid() && QuarterTurn(angle) && Progress(b, angle, rows, b.width, 0)
    ensures Bitmap(RotatedWidth(angle, b.width, b.height), RotatedHeight(angle, b.width, b.height), rows) == Rotate(b, angle)
  {
    var r := Bitmap(RotatedWidth(angle, b.width, b.height), RotatedHeight(angle, b.width, b.height), rows);
    var expected := Rotate(b, angle);
    forall px, py | 0 <= px < r.width && 0 <= py < r.height
      ensures r.Pixel(px, py) == expected.Pixel(px, py)
    {
      RotatePixel(b, angle, px, py);
    }
    BitmapExt(r, expected);
  }

  /** `RotateBinImage` as the converter runs it: a zero-filled destination of
      the rotated size, then one pass over the source, column `rx` by column and
      row `ry` by row, copying each source bit to its destination with the
      destination counters `wx`, `wy` stepped as the C loops step them.  Any angle
      other than 90, 180 or 270 matches no case and leaves the bitmap as it was. */
  method RotateBinImage(b: Bitmap, angle: int) returns (r: Bitmap)
    requires b.Valid()
    ensures r == Rotate(b, angle)
  {
    if !QuarterTurn(angle) {
      return b;
    }
    var w, h := b.width, b.height;
    var wi: int, hi: int := w, h;
    var w2, h2 := RotatedWidth(angle, w, h), RotatedHeight(angle, w, h);
    var rows := seq(h2, _ => seq(Stride(w2), _ => 0 as bv8));
    ProgressStart(b, angle);
    var wx: int, wy: int := 0, 0;
    if angle == 90 {
      wy := 0;
    } else if angle == 180 {
      wx := wi - 1;
    } else {
      wy := wi - 1;
    }
    var rx := 0;
    while rx < w
      invariant 0 <= rx <= w
      invariant angle == 90 ==> wy == rx
      invariant angle == 180 ==> wx == wi - 1 - rx
      invariant angle == 270 ==> wy == wi - 1 - rx
      invariant Progress(b, angle, rows, rx, 0)
    {
      if angle == 90 {
        wx := hi - 1;
      } else if angle == 180 {
        wy := hi - 1;
      } else {
        wx := 0;
      }
      var ry := 0;
      while ry < h
        invariant 0 <= ry <= h
        invariant angle == 90 ==> wy == rx && wx == hi - 1 - ry
        invariant angle == 180 ==> wx == wi - 1 - rx && wy == hi - 1 - ry
        invariant angle == 270 ==> wy == wi - 1 - rx && wx == ry
        invariant Progress(b, angle, rows, rx, ry)
      {
        assert (wx, wy) == Dest(angle, w, h, rx, ry);
        ProgressStep(b, angle, rows, rx, ry);
        rows := rows[wy := WriteBit(rows[wy], wx, b.Pixel(rx, ry))];
        if angle == 90 {
          wx := wx - 1;
        } else if angle == 180 {
          wy := wy - 1;
        } else {
          wx := wx + 1;
        }
        ry := ry + 1;
      }
      ProgressNextColumn(b, angle, rows, rx);
      if angle == 90 {
        wy := wy + 1;
      } else if angle == 180 {
        wx := wx - 1;
      } else {
        wy := wy - 1;
      }
      rx := rx + 1;
    }
    ProgressDone(b, angle, rows);
    r := Bitmap(w2, h2, rows);
  }
}
