/** Bit addressing shared by the packer and the rotator.

    A packed row is a sequence of bytes; pixel `x` of the row lives in byte
    `x / 8` under the mask `0x80 >> (x % 8)`, so the leftmost pixel of each
    byte is its most significant bit.
 */
module Bits {

  /** Number of bytes one packed row of `width` pixels occupies: the C code's
      `width%8 ? width/8+1 : width/8`, which is `ceil(width / 8)`. */
  function Stride(width: nat): (s: nat)
    ensures width <= 8 * s < width + 8
    ensures width > 0 ==> s > 0
  {
    if width % 8 != 0 then width / 8 + 1 else width / 8
  }

  /** The MSB-first mask that selects bit `k` of a byte, written out as a table
      so that proofs never convert between integers and bit-vectors. */
  function BitMask(k: nat): bv8
    requires k < 8
  {
    if k == 0 then 0x80 else if k == 1 then 0x40 else if k == 2 then 0x20
    else if k == 3 then 0x10 else if k == 4 then 0x08 else if k == 5 then 0x04
    else if k == 6 then 0x02 else 0x01
  }

  /** A byte with exactly one bit set. */
  predicate SingleBit(m: bv8) {
    m == 0x80 || m == 0x40 || m == 0x20 || m == 0x10 || m == 0x08 || m == 0x04 || m == 0x02 || m == 0x01
  }

  /** Each entry of the table is a single bit. */
  lemma MaskSingle(k: nat)
    requires k < 8
    ensures SingleBit(BitMask(k))
  {
  }

  /** The table agrees with the converter's `0x80 >> k`. */
  lemma MaskIsShift(k: nat)
    requires k < 8
    ensures BitMask(k) == 0x80 >> k
  {
    if k == 0 {
      assert BitMask(k) == 0x80;
    } else if k == 1 {
      assert BitMask(k) == 0x40;
    } else if k == 2 {
      assert BitMask(k) == 0x20;
    } else if k == 3 {
      assert BitMask(k) == 0x10;
    } else if k == 4 {
      assert BitMask(k) == 0x08;
    } else if k == 5 {
      assert BitMask(k) == 0x04;
    } else if k == 6 {
      assert BitMask(k) == 0x02;
    } else {
      assert BitMask(k) == 0x01;
    }
  }

  /** True when bit `k` (counted from the most significant end) of `b` is set. */
  predicate TestBit(b: bv8, k: nat)
    requires k < 8
  {
    b & BitMask(k) != 0
  }

  // Bitwise operators seen through a single-bit mask.

  lemma NotAt(a: bv8, m: bv8)
    requires SingleBit(m)
    ensures ((!a) & m != 0) == !(a & m != 0)
  {
  }

  lemma AndAt(a: bv8, b: bv8, m: bv8)
    requires SingleBit(m)
    ensures ((a & b) & m != 0) == (a & m != 0 && b & m != 0)
  {
  }

  lemma OrAt(a: bv8, b: bv8, m: bv8)
    requires SingleBit(m)
    ensures ((a | b) & m != 0) == (a & m != 0 || b & m != 0)
  {
  }

  /** Complement, and, and or act bit by bit. */
  lemma BitOps(a: bv8, b: bv8, k: nat)
    requires k < 8
    ensures TestBit(!a, k) == !TestBit(a, k)
    ensures TestBit(a & b, k) == (TestBit(a, k) && TestBit(b, k))
    ensures TestBit(a | b, k) == (TestBit(a, k) || TestBit(b, k))
  {
    MaskSingle(k);
    NotAt(a, BitMask(k));
    AndAt(a, b, BitMask(k));
    OrAt(a, b, BitMask(k));
  }

  /** Distinct bit positions have distinct masks. */
  lemma MaskInjective(j: nat, k: nat)
    requires j < 8 && k < 8
    ensures (BitMask(j) == BitMask(k)) == (j == k)
  {
  }

  /** The mask of bit `j` has bit `j` set and no other. */
  lemma MaskBit(j: nat, k: nat)
    requires j < 8 && k < 8
    ensures TestBit(BitMask(j), k) == (j == k)
  {
    MaskSingle(j);
    MaskSingle(k);
    MaskInjective(j, k);
  }

  /** Shifting the mask of bit `j` right by one selects bit `j + 1`, or nothing past bit 7. */
  lemma MaskShift(j: nat)
    requires j < 8
    ensures BitMask(j) >> 1 == if j == 7 then 0 else BitMask(j + 1)
  {
  }

  /** Shifting the mask of bit `k > 0` left by one selects bit `k - 1`. */
  lemma MaskShiftLeft(k: nat)
    requires 0 < k < 8
    ensures BitMask(k) << 1 == BitMask(k - 1)
  {
  }

  lemma ShiftAt(a: bv8, m: bv8)
    requires SingleBit(m)
    ensures ((a >> 1) & m != 0) == (m != 0x80 && a & (m << 1) != 0)
  {
  }

  /** Shifting a byte right by one moves each bit one place towards the low end. */
  lemma ShiftRightBit(a: bv8, k: nat)
    requires k < 8
    ensures TestBit(a >> 1, k) == (k > 0 && TestBit(a, k - 1))
  {
    MaskSingle(k);
    ShiftAt(a, BitMask(k));
    MaskInjective(k, 0);
    if k > 0 {
      MaskShiftLeft(k);
    }
  }

  /** Builds the byte whose eight MSB-first bits are `bits`. */
  function PackByte(bits: seq<bool>): (r: bv8)
    requires |bits| == 8
    ensures forall k | 0 <= k < 8 :: TestBit(r, k) == bits[k]
  {
    (if bits[0] then 0x80 else 0) | (if bits[1] then 0x40 else 0) |
    (if bits[2] then 0x20 else 0) | (if bits[3] then 0x10 else 0) |
    (if bits[4] then 0x08 else 0) | (if bits[5] then 0x04 else 0) |
    (if bits[6] then 0x02 else 0) | (if bits[7] then 0x01 else 0)
  }

  lemma ByteExtAt(a: bv8, b: bv8)
    requires (a & 0x80 != 0) == (b & 0x80 != 0) && (a & 0x40 != 0) == (b & 0x40 != 0)
    requires (a & 0x20 != 0) == (b & 0x20 != 0) && (a & 0x10 != 0) == (b & 0x10 != 0)
    requires (a & 0x08 != 0) == (b & 0x08 != 0) && (a & 0x04 != 0) == (b & 0x04 != 0)
    requires (a & 0x02 != 0) == (b & 0x02 != 0) && (a & 0x01 != 0) == (b & 0x01 != 0)
    ensures a == b
  {
  }

  /** Two bytes that agree on all eight bits are equal. */
  lemma ByteExt(a: bv8, b: bv8)
    requires forall k | 0 <= k < 8 :: TestBit(a, k) == TestBit(b, k)
    ensures a == b
  {
    assert TestBit(a, 0) == TestBit(b, 0) && TestBit(a, 1) == TestBit(b, 1);
    assert TestBit(a, 2) == TestBit(b, 2) && TestBit(a, 3) == TestBit(b, 3);
    assert TestBit(a, 4) == TestBit(b, 4) && TestBit(a, 5) == TestBit(b, 5);
    assert TestBit(a, 6) == TestBit(b, 6) && TestBit(a, 7) == TestBit(b, 7);
    ByteExtAt(a, b);
  }

  /** Pixel `x` of a packed row; a pixel past the row's last byte reads as clear. */
  predicate RowBit(row: seq<bv8>, x: nat) {
    x / 8 < |row| && TestBit(row[x / 8], x % 8)
  }

  lemma UpdateAt(b: bv8, mj: bv8, mk: bv8, on: bool)
    requires SingleBit(mj) && SingleBit(mk)
    ensures ((if on then b | mj else b & !mj) & mk != 0) == if mj == mk then on else b & mk != 0
  {
  }

  /** Setting or clearing bit `j` of a byte changes bit `j` alone. */
  lemma UpdateByteBit(b: bv8, j: nat, k: nat, on: bool)
    requires j < 8 && k < 8
    ensures TestBit(if on then b | BitMask(j) else b & !BitMask(j), k) == if k == j then on else TestBit(b, k)
  {
    MaskSingle(j);
    MaskSingle(k);
    MaskInjective(j, k);
    UpdateAt(b, BitMask(j), BitMask(k), on);
  }

  /** Sets (`on`) or clears pixel `x` of a row, as `row[x/8] |= mask` and
      `row[x/8] &= ~mask` do with `mask = 0x80 >> (x%8)`; no other pixel changes. */
  function WriteBit(row: seq<bv8>, x: nat, on: bool): (r: seq<bv8>)
    requires x / 8 < |row|
    ensures |r| == |row|
    ensures forall p: nat :: RowBit(r, p) == if p == x then on else RowBit(row, p)
  {
    var i, mask := x / 8, BitMask(x % 8);
    var r := row[i := if on then row[i] | mask else row[i] & !mask];
    assert forall p: nat :: RowBit(r, p) == if p == x then on else RowBit(row, p) by {
      forall p: nat
        ensures RowBit(r, p) == if p == x then on else RowBit(row, p)
      {
        WriteBitAt(row, x, on, p);
      }
    }
    r
  }

  /** One pixel of `WriteBit`'s result. */
  lemma WriteBitAt(row: seq<bv8>, x: nat, on: bool, p: nat)
    requires x / 8 < |row|
    ensures var i := x / 8;
      RowBit(row[i := if on then row[i] | BitMask(x % 8) else row[i] & !BitMask(x % 8)], p)
      == if p == x then on else RowBit(row, p)
  {
    var i := x / 8;
    if p / 8 == i {
      var k := p % 8;
      assert p == 8 * i + k && x == 8 * i + x % 8;
      UpdateByteBit(row[i], x % 8, k, on);
    }
  }

  /** The packed row of `stride` bytes whose pixel `x` is `x < width && pixel(x)`:
      bits at or beyond `width` are left zero. */
  function RowFrom(width: nat, stride: nat, pixel: nat -> bool): (row: seq<bv8>)
    ensures |row| == stride
    ensures forall x | 0 <= x < 8 * stride :: RowBit(row, x) == (x < width && pixel(x))
  {
    var row := seq(stride, i => PackByte(seq(8, k => 0 <= 8 * i + k < width && pixel(8 * i + k))));
    assert forall x | 0 <= x < 8 * stride :: RowBit(row, x) == (x < width && pixel(x)) by {
      forall x | 0 <= x < 8 * stride
        ensures RowBit(row, x) == (x < width && pixel(x))
      {
        assert 8 * (x / 8) + x % 8 == x;
      }
    }
    row
  }

  /** Two rows of the same length that agree on every bit are equal. */
  lemma RowExt(a: seq<bv8>, b: seq<bv8>)
    requires |a| == |b|
    requires forall x | 0 <= x < 8 * |a| :: RowBit(a, x) == RowBit(b, x)
    ensures a == b
  {
    forall i | 0 <= i < |a|
      ensures a[i] == b[i]
    {
      forall k | 0 <= k < 8
        ensures TestBit(a[i], k) == TestBit(b[i], k)
      {
        var x := 8 * i + k;
        assert x / 8 == i && x % 8 == k;
        assert RowBit(a, x) == RowBit(b, x);
      }
      ByteExt(a[i], b[i]);
    }
  }
}
