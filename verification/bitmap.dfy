/** The packed 1-bit-per-pixel bitmap that the packer produces, the rotator
    transforms and the writer emits row 0 first.
 */
module Bitmaps {
  import opened Bits

  /** `rows[y]` is row `y`, `Stride(width)` bytes long; a set bit means dark. */
  datatype Bitmap = Bitmap(width: nat, height: nat, rows: seq<seq<bv8>>) {

    /** There are `height` rows and each one is exactly one stride long. */
    predicate Valid() {
      && |rows| == height
      && forall y | 0 <= y < |rows| :: |rows[y]| == Stride(width)
    }

    /** The pixel in column `x` of row `y`; true means dark. */
    predicate Pixel(x: nat, y: nat)
      requires Valid() && x < width && y < height
    {
      RowBit(rows[y], x)
    }

    /** Every bit of a row's last byte that lies past `width` is zero. */
    predicate PaddingClean()
      requires Valid()
    {
      forall y, x | 0 <= y < height && width <= x < 8 * Stride(width) :: !RowBit(rows[y], x)
    }

    /** The bytes written to the output file. */
    function Bytes(): seq<bv8> {
      Flatten(rows)
    }
  }

  /** Concatenation of the rows, row 0 first. */
  function Flatten(rows: seq<seq<bv8>>): seq<bv8> {
    if |rows| == 0 then [] else rows[0] + Flatten(rows[1..])
  }

  /** A flat buffer of `|rows|` rows of `stride` bytes holds `stride * |rows|` bytes. */
  lemma {:induction false} FlattenLength(rows: seq<seq<bv8>>, stride: nat)
    requires forall y | 0 <= y < |rows| :: |rows[y]| == stride
    ensures |Flatten(rows)| == stride * |rows|
  {
    if |rows| > 0 {
      FlattenLength(rows[1..], stride);
      assert stride * |rows| == stride + stride * (|rows| - 1);
    }
  }

  /** Row `y` of a flat buffer of equal-length rows occupies the bytes
      `[y * stride, (y + 1) * stride)`. */
  lemma {:induction false} FlattenAt(rows: seq<seq<bv8>>, stride: nat, y: nat, i: nat)
    requires forall r | 0 <= r < |rows| :: |rows[r]| == stride
    requires y < |rows| && i < stride
    ensures y * stride + i < |Flatten(rows)|
    ensures Flatten(rows)[y * stride + i] == rows[y][i]
  {
    FlattenLength(rows, stride);
    if y > 0 {
      var rest := rows[1..];
      FlattenAt(rest, stride, y - 1, i);
      var j := (y - 1) * stride + i;
      assert y * stride + i == stride + j;
      assert Flatten(rows) == rows[0] + Flatten(rest);
      assert Flatten(rows)[stride + j] == Flatten(rest)[j];
    } else {
      assert Flatten(rows) == rows[0] + Flatten(rows[1..]);
    }
  }

  /** The bitmap of the given size whose in-range pixels are given by `pixel`,
      with every padding bit zero. */
  function FromPixels(width: nat, height: nat, pixel: (nat, nat) -> bool): (b: Bitmap)
    ensures b.width == width && b.height == height
    ensures b.Valid() && b.PaddingClean()
    ensures forall x, y | 0 <= x < width && 0 <= y < height :: b.Pixel(x, y) == pixel(x, y)
  {
    Bitmap(width, height, seq(height, y requires 0 <= y => var row: nat := y; RowFrom(width, Stride(width), (x: nat) => pixel(x, row))))
  }

  /** A valid bitmap with clean padding is determined by its size and its pixels. */
  lemma BitmapExt(a: Bitmap, b: Bitmap)
    requires a.Valid() && b.Valid() && a.PaddingClean() && b.PaddingClean()
    requires a.width == b.width && a.height == b.height
    requires forall x, y | 0 <= x < a.width && 0 <= y < a.height :: a.Pixel(x, y) == b.Pixel(x, y)
    ensures a == b
  {
    forall y | 0 <= y < a.height
      ensures a.rows[y] == b.rows[y]
    {
      forall x | 0 <= x < 8 * Stride(a.width)
        ensures RowBit(a.rows[y], x) == RowBit(b.rows[y], x)
      {
        if x < a.width {
          assert a.Pixel(x, y) == b.Pixel(x, y);
        }
      }
      RowExt(a.rows[y], b.rows[y]);
    }
  }
}
