/**
 * Bytes, Go's byte-level operators and the reference meaning of a bit range.
 *
 * Bit 0 is the most significant bit of byte 0, and bit numbers grow from
 * left to right, byte after byte.  The reference meaning of "the bits
 * [start, start+len) of src" is the one the Go test suite uses: spell the
 * whole buffer out as one string of bits, cut the slice out of it and read
 * the slice back as a binary number.
 */
module Bits {

  /** A Go `byte` (`uint8`). */
  type Byte = x: int | 0 <= x < 256

  /** Go's largest `int` on a 64-bit platform. */
  const MaxInt: int := 0x7FFF_FFFF_FFFF_FFFF

  function Pow2(n: nat): (r: nat)
    ensures r >= 1
  {
    if n == 0 then 1 else 2 * Pow2(n - 1)
  }

  lemma {:induction false} Pow2Add(a: nat, b: nat)
    ensures Pow2(a + b) == Pow2(a) * Pow2(b)
  {
    if b > 0 {
      Pow2Add(a, b - 1);
      assert Pow2(a + b) == 2 * Pow2(a + b - 1);
    }
  }

  lemma {:induction false} Pow2Monotone(a: nat, b: nat)
    requires a <= b
    ensures Pow2(a) <= Pow2(b)
  {
    if a < b {
      Pow2Monotone(a, b - 1);
    }
  }

  lemma {:induction false} Pow2Byte(n: nat)
    requires n <= 8
    ensures Pow2(n) <= 256 && Pow2(8) == 256
  {
    Pow2Monotone(n, 8);
  }

  lemma {:induction false} MulSign(k: int, d: int)
    requires d > 0
    ensures k >= 1 ==> k * d >= d
    ensures k <= -1 ==> k * d <= -d
  {
  }

  lemma {:induction false} MulMonotone(a: int, b: int, c: int)
    requires a <= b && c >= 0
    ensures a * c <= b * c
  {
  }

  /** If x == q*d + r with 0 <= r < d, then q and r are x's quotient and remainder. */
  lemma {:induction false} DivModUnique(x: int, d: int, q: int, r: int)
    requires d > 0 && 0 <= r < d && x == q * d + r
    ensures x / d == q && x % d == r
  {
    var q', r' := x / d, x % d;
    assert (q - q') * d == r' - r;
    MulSign(q - q', d);
  }

  /** A value below m*p divided by p is below m. */
  lemma {:induction false} DivBelow(y: int, p: int, m: int)
    requires p > 0 && 0 <= y < m * p
    ensures y / p < m
  {
    var q := y / p;
    assert q * p <= y;
    MulSign(q - m + 1, p);
    assert (q - m + 1) * p == q * p - m * p + p;
  }

  lemma {:induction false} MulDistrib(a: int, b: int, c: int)
    ensures (a + b) * c == a * c + b * c
  {
  }

  lemma {:induction false} MulAssoc(a: int, b: int, c: int)
    ensures (a * b) * c == a * (b * c)
  {
  }

  /** Multiplying by pk and reducing modulo p*pk keeps the low part of x, moved up. */
  lemma {:induction false} MulMod(x: int, p: int, pk: int)
    requires x >= 0 && p > 0 && pk > 0
    ensures (x * pk) % (p * pk) == (x % p) * pk
    ensures (x * pk) / (p * pk) == x / p
  {
    var hi, lo := x / p, x % p;
    MulDistrib(hi * p, lo, pk);
    MulAssoc(hi, p, pk);
    MulMonotone(lo, p - 1, pk);
    MulDistrib(p, -1, pk);
    DivModUnique(x * pk, p * pk, hi, lo * pk);
  }

  /** Quotient and remainder modulo P = 2p, peeled one low bit at a time. */
  lemma {:induction false} DivModDouble(x: int, p: int, P: int)
    requires x >= 0 && p > 0 && P == 2 * p
    ensures x % P == 2 * ((x / 2) % p) + x % 2
    ensures x / P == (x / 2) / p
  {
    var h := x / 2;
    var q, lo := h / p, h % p;
    assert x == 2 * h + x % 2;
    assert h == q * p + lo;
    MulAssoc(q, p, 2);
    MulDistrib(q * p, lo, 2);
    DivModUnique(x, P, q, 2 * lo + x % 2);
  }

  lemma {:induction false} ProductBound(lo: int, a: int, b: int)
    requires 0 <= lo < a && b > 0
    ensures 0 <= lo * b <= a * b - b
  {
    MulMonotone(lo, a - 1, b);
    MulDistrib(a, -1, b);
  }

  // ---------------------------------------------------------------------
  // Go's operators on bytes

  /** `x << k` on a Go `uint8`: the bits shifted out of the byte are lost. */
  function Shl8(x: Byte, k: nat): Byte
  {
    (x * Pow2(k)) % 256
  }

  /** `x >> k` on an unsigned Go integer: k halvings. */
  function Shr(x: nat, k: nat): nat
  {
    if k == 0 then x else Shr(x / 2, k - 1)
  }

  /** Shifting right by k divides by 2^k. */
  lemma {:induction false} ShrDiv(x: nat, k: nat)
    ensures Shr(x, k) == x / Pow2(k)
  {
    if k > 0 {
      ShrDiv(x / 2, k - 1);
      DivModDouble(x, Pow2(k - 1), Pow2(k));
    } else {
      DivModUnique(x, 1, x, 0);
    }
  }

  /** Go's `|` on non-negative integers, bit by bit from the low end. */
  function Or(a: nat, b: nat): nat
    decreases a + b
  {
    if a == 0 then b
    else if b == 0 then a
    else 2 * Or(a / 2, b / 2) + (if a % 2 == 1 || b % 2 == 1 then 1 else 0)
  }

  /** Go's `&` on non-negative integers, bit by bit from the low end. */
  function And(a: nat, b: nat): nat
    decreases a + b
  {
    if a == 0 || b == 0 then 0
    else 2 * And(a / 2, b / 2) + (if a % 2 == 1 && b % 2 == 1 then 1 else 0)
  }

  /** Or-ing a value into the free low bits of another is addition. */
  lemma {:induction false} OrDisjoint(a: nat, b: nat, k: nat)
    requires a % Pow2(k) == 0 && b < Pow2(k)
    ensures Or(a, b) == a + b
  {
    if k == 0 {
      assert b == 0;
    } else if a != 0 && b != 0 {
      Pow2Add(1, k - 1);
      var p := Pow2(k - 1);
      assert Pow2(k) == 2 * p;
      var qa := a / Pow2(k);
      assert a == qa * (2 * p);
      DivModUnique(a, 2, qa * p, 0);
      DivModUnique(a / 2, p, qa, 0);
      assert b / 2 < p;
      OrDisjoint(a / 2, b / 2, k - 1);
    }
  }

  /** And-ing with 2^m - 1 keeps the low m bits. */
  lemma {:induction false} AndLowMask(x: nat, m: nat)
    ensures And(x, Pow2(m) - 1) == x % Pow2(m)
  {
    var mask := Pow2(m) - 1;
    if m == 0 {
      DivModUnique(x, 1, x, 0);
    } else if x == 0 {
      DivModUnique(0, Pow2(m), 0, 0);
    } else {
      var p := Pow2(m - 1);
      assert Pow2(m) == 2 * p;
      assert And(x, mask) == 2 * And(x / 2, p - 1) + x % 2 by {
        DivModUnique(mask, 2, p - 1, 1);
      }
      AndLowMask(x / 2, m - 1);
      DivModDouble(x, p, Pow2(m));
    }
  }

  /** A byte shifted left by k keeps exactly its low 8-k bits, moved up. */
  lemma {:induction false} ShiftLeftKeepsLow(x: Byte, k: nat)
    requires k <= 8
    ensures Shl8(x, k) == (x % Pow2(8 - k)) * Pow2(k)
  {
    Pow2Add(8 - k, k);
    Pow2Byte(8);
    MulMod(x, Pow2(8 - k), Pow2(k));
  }

  /** A byte shifted right by r fits in the low 8-r bits. */
  lemma {:induction false} ShiftRightBound(y: Byte, r: nat)
    requires r <= 8
    ensures Shr(y, r) < Pow2(8 - r)
  {
    ShrDiv(y, r);
    Pow2Add(8 - r, r);
    Pow2Byte(8);
    DivBelow(y, Pow2(r), Pow2(8 - r));
  }

  /** The byte the extractor assembles from the low bits of x and the high bits of y. */
  lemma {:induction false} ShiftOrByte(x: Byte, y: Byte, r: nat)
    requires 1 <= r <= 7
    ensures Or(Shl8(x, 8 - r), Shr(y, r)) == (x % Pow2(r)) * Pow2(8 - r) + y / Pow2(r)
    ensures Or(Shl8(x, 8 - r), Shr(y, r)) < 256
  {
    var pr, pl := Pow2(r), Pow2(8 - r);
    ShiftLeftKeepsLow(x, 8 - r);
    ShiftRightBound(y, r);
    ShrDiv(y, r);
    var lo := x % pr;
    DivModUnique(lo * pl, pl, lo, 0);
    OrDisjoint(lo * pl, Shr(y, r), 8 - r);
    Pow2Add(r, 8 - r);
    Pow2Byte(8);
    ProductBound(lo, pr, pl);
  }

  // ---------------------------------------------------------------------
  // Bit strings

  /** The n low bits of x, most significant first (Go's `%0*b`). */
  function ToBinary(x: nat, n: nat): (bs: seq<bool>)
    ensures |bs| == n
  {
    if n == 0 then [] else ToBinary(x / 2, n - 1) + [x % 2 == 1]
  }

  /** A string of bits read back as a binary number. */
  function FromBinary(bs: seq<bool>): nat
  {
    if |bs| == 0 then 0 else 2 * FromBinary(bs[..|bs| - 1]) + (if bs[|bs| - 1] then 1 else 0)
  }

  lemma {:induction false} FromToBinary(x: nat, n: nat)
    requires x < Pow2(n)
    ensures FromBinary(ToBinary(x, n)) == x
  {
    if n > 0 {
      FromToBinary(x / 2, n - 1);
      var bs := ToBinary(x, n);
      assert bs[..n - 1] == ToBinary(x / 2, n - 1);
    }
  }

  /** Writing a string of bits out again after reading it gives the same bits. */
  lemma {:induction false} ToFromBinary(bs: seq<bool>)
    ensures FromBinary(bs) < Pow2(|bs|)
    ensures ToBinary(FromBinary(bs), |bs|) == bs
  {
    if |bs| > 0 {
      var front := bs[..|bs| - 1];
      ToFromBinary(front);
      var v, bit := FromBinary(bs), if bs[|bs| - 1] then 1 else 0;
      DivModUnique(v, 2, FromBinary(front), bit);
      assert bs == front + [bs[|bs| - 1]];
    }
  }

  /** The n+k low bits of x are the n bits above its low k, then the low k. */
  lemma {:induction false} ToBinarySplit(x: nat, n: nat, k: nat)
    ensures ToBinary(x, n + k) == ToBinary(Shr(x, k), n) + ToBinary(x, k)
  {
    if k > 0 {
      var h, low := x / 2, [x % 2 == 1];
      ToBinarySplit(h, n, k - 1);
      var high, mid := ToBinary(Shr(x, k), n), ToBinary(h, k - 1);
      assert ToBinary(h, n + k - 1) == high + mid;
      assert ToBinary(x, n + k) == ToBinary(h, n + k - 1) + low;
      assert ToBinary(x, k) == mid + low;
    }
  }

  /** Only the low n bits of x show in ToBinary(x, n). */
  lemma {:induction false} ToBinaryMod(x: nat, n: nat)
    ensures ToBinary(x % Pow2(n), n) == ToBinary(x, n)
  {
    if n > 0 {
      var p := Pow2(n - 1);
      DivModDouble(x, p, Pow2(n));
      var y := x % Pow2(n);
      DivModUnique(y, 2, (x / 2) % p, x % 2);
      ToBinaryMod(x / 2, n - 1);
    }
  }

  /** The whole buffer as one string of bits, 8 per byte. */
  function BitString(src: seq<Byte>): (bs: seq<bool>)
    ensures |bs| == 8 * |src|
  {
    if |src| == 0 then [] else ToBinary(src[0], 8) + BitString(src[1..])
  }

  lemma {:induction false} BitStringByte(src: seq<Byte>, b: nat)
    requires b < |src|
    ensures BitString(src)[8 * b .. 8 * b + 8] == ToBinary(src[b], 8)
  {
    if b > 0 {
      BitStringByte(src[1..], b - 1);
      var bs, rest := BitString(src), BitString(src[1..]);
      assert bs == ToBinary(src[0], 8) + rest;
      assert src[1..][b - 1] == src[b];
      var here, there := bs[8 * b .. 8 * b + 8], rest[8 * (b - 1) .. 8 * (b - 1) + 8];
      forall i | 0 <= i < 8
        ensures here[i] == there[i]
      {
        assert here[i] == bs[8 * b + i];
        assert there[i] == rest[8 * b + i - 8];
      }
      assert here == there;
    }
  }

  /** Dropping k bytes from the front drops their 8k bits. */
  lemma {:induction false} BitStringDrop(src: seq<Byte>, k: nat)
    requires k <= |src|
    ensures BitString(src[k..]) == BitString(src)[8 * k ..]
  {
    if k > 0 {
      BitStringDrop(src[1..], k - 1);
      assert src[1..][k - 1 ..] == src[k..];
      assert BitString(src) == ToBinary(src[0], 8) + BitString(src[1..]);
    }
  }

  /** Bits [i, j) of a bit string read as a binary number, in place. */
  function FromBits(bs: seq<bool>, i: nat, j: nat): nat
    requires i <= j <= |bs|
    decreases j - i
  {
    if i == j then 0 else 2 * FromBits(bs, i, j - 1) + (if bs[j - 1] then 1 else 0)
  }

  lemma {:induction false} FromBitsBound(bs: seq<bool>, i: nat, j: nat)
    requires i <= j <= |bs|
    ensures FromBits(bs, i, j) < Pow2(j - i)
    decreases j - i
  {
    if i < j {
      FromBitsBound(bs, i, j - 1);
      assert Pow2(j - i) == 2 * Pow2(j - 1 - i);
    }
  }

  /** Reading [i, j) is reading [i, m), moving it up past [m, j), and adding [m, j). */
  lemma {:induction false} FromBitsConcat(bs: seq<bool>, i: nat, m: nat, j: nat)
    requires i <= m <= j <= |bs|
    ensures FromBits(bs, i, j) == FromBits(bs, i, m) * Pow2(j - m) + FromBits(bs, m, j)
    decreases j - m
  {
    if m < j {
      FromBitsConcat(bs, i, m, j - 1);
      var hi, lo, p := FromBits(bs, i, m), FromBits(bs, m, j - 1), Pow2(j - 1 - m);
      var bit := if bs[j - 1] then 1 else 0;
      assert FromBits(bs, i, j) == 2 * FromBits(bs, i, j - 1) + bit;
      assert FromBits(bs, m, j) == 2 * lo + bit;
      assert Pow2(j - m) == 2 * p;
      MulAssoc(hi, p, 2);
    }
  }

  /** Reading [i, j) in place is reading the cut-out slice. */
  lemma {:induction false} FromBitsSlice(bs: seq<bool>, i: nat, j: nat)
    requires i <= j <= |bs|
    ensures FromBits(bs, i, j) == FromBinary(bs[i .. j])
    decreases j - i
  {
    if i < j {
      FromBitsSlice(bs, i, j - 1);
      var cut := bs[i .. j];
      assert cut[.. |cut| - 1] == bs[i .. j - 1];
      assert cut[|cut| - 1] == bs[j - 1];
    }
  }

  /** The value of bits [start, start+len) of src. */
  function BitsValue(src: seq<Byte>, start: nat, len: nat): (v: nat)
    requires start + len <= 8 * |src|
    ensures v < Pow2(len)
  {
    FromBitsBound(BitString(src), start, start + len);
    FromBits(BitString(src), start, start + len)
  }

  /**
   * BitsValue is what the bit-string reference computes: spell the buffer
   * out in bits, cut [start, start+len) out of it, and parse that in base 2.
   */
  lemma {:induction false} BitsReference(src: seq<Byte>, start: nat, len: nat)
    requires start + len <= 8 * |src|
    ensures BitsValue(src, start, len) == FromBinary(BitString(src)[start .. start + len])
  {
    FromBitsSlice(BitString(src), start, start + len);
  }

  /** Bits counted from the start of src[k..] are the same bits counted 8k further into src (Go's data[k:]). */
  lemma {:induction false} BitsValueDrop(src: seq<Byte>, k: nat, start: nat, len: nat)
    requires k <= |src| && start + len <= 8 * (|src| - k)
    ensures BitsValue(src[k..], start, len) == BitsValue(src, 8 * k + start, len)
  {
    BitStringDrop(src, k);
    BitsReference(src[k..], start, len);
    BitsReference(src, 8 * k + start, len);
    assert BitString(src[k..])[start .. start + len] == BitString(src)[8 * k + start .. 8 * k + start + len];
  }

  /** Reading a bit range in two pieces. */
  lemma {:induction false} BitsSplit(src: seq<Byte>, start: nat, a: nat, b: nat, len: nat, mid: nat)
    requires len == a + b && mid == start + a && start + len <= 8 * |src|
    ensures BitsValue(src, start, len) == BitsValue(src, start, a) * Pow2(b) + BitsValue(src, mid, b)
  {
    FromBitsConcat(BitString(src), start, mid, start + len);
  }

  /** The same split, as the quotient and remainder by 2^b. */
  lemma {:induction false} BitsSplitDivMod(src: seq<Byte>, start: nat, a: nat, b: nat, len: nat, mid: nat)
    requires len == a + b && mid == start + a && start + len <= 8 * |src|
    ensures BitsValue(src, start, len) / Pow2(b) == BitsValue(src, start, a)
    ensures BitsValue(src, start, len) % Pow2(b) == BitsValue(src, mid, b)
  {
    BitsSplit(src, start, a, b, len, mid);
    DivModUnique(BitsValue(src, start, len), Pow2(b), BitsValue(src, start, a), BitsValue(src, mid, b));
  }

  /** A whole byte, read as 8 bits, is the byte. */
  lemma {:induction false} ByteBits(src: seq<Byte>, b: nat)
    requires b < |src|
    ensures BitsValue(src, 8 * b, 8) == src[b]
  {
    BitStringByte(src, b);
    BitsReference(src, 8 * b, 8);
    Pow2Byte(8);
    FromToBinary(src[b], 8);
  }

  /** The first k bits of byte b are its high bits, the rest its low bits. */
  lemma {:induction false} ByteSplit(src: seq<Byte>, b: nat, k: nat)
    requires b < |src| && k <= 8
    ensures BitsValue(src, 8 * b, k) == src[b] / Pow2(8 - k)
    ensures BitsValue(src, 8 * b + k, 8 - k) == src[b] % Pow2(8 - k)
  {
    ByteBits(src, b);
    BitsSplitDivMod(src, 8 * b, k, 8 - k, 8, 8 * b + k);
  }

  /** The 8 bits that end r bits into byte b+1. */
  lemma {:induction false} ByteWindow(src: seq<Byte>, b: nat, r: nat)
    requires b + 1 < |src| && 1 <= r <= 7
    ensures BitsValue(src, 8 * b + 8 - r, 8) == (src[b] % Pow2(r)) * Pow2(8 - r) + src[b + 1] / Pow2(r)
  {
    var s := 8 * b + 8 - r;
    BitsSplit(src, s, r, 8 - r, 8, 8 * (b + 1));
    ByteSplit(src, b, 8 - r);
    assert 8 - (8 - r) == r;
    assert BitsValue(src, s, r) == src[b] % Pow2(r);
    ByteSplit(src, b + 1, 8 - r);
    assert BitsValue(src, 8 * (b + 1), 8 - r) == src[b + 1] / Pow2(r);
  }

  // ---------------------------------------------------------------------
  // Big-endian byte strings

  /** The big-endian unsigned value of a byte string (`binary.BigEndian`, `big.Int.SetBytes`). */
  function BigEndian(bs: seq<Byte>): nat
  {
    if |bs| == 0 then 0 else BigEndian(bs[..|bs| - 1]) * 256 + bs[|bs| - 1]
  }

  lemma {:induction false} BigEndianBound(bs: seq<Byte>)
    ensures BigEndian(bs) < Pow2(8 * |bs|)
  {
    if bs != [] {
      var front := bs[..|bs| - 1];
      BigEndianBound(front);
      var p := Pow2(8 * |front|);
      Pow2Add(8 * |front|, 8);
      Pow2Byte(8);
      assert Pow2(8 * |bs|) == p * 256;
      ProductBound(BigEndian(front), p, 256);
    }
  }

  /** Appending a byte shifts the value up by 8 bits and adds the byte. */
  lemma {:induction false} BigEndianSnoc(bs: seq<Byte>, x: Byte)
    ensures BigEndian(bs + [x]) == BigEndian(bs) * 256 + x
  {
    assert (bs + [x])[..|bs|] == bs;
  }

  /** Leading zero bytes do not change a big-endian value. */
  lemma {:induction false} BigEndianLeadingZeros(z: seq<Byte>, bs: seq<Byte>)
    requires forall i :: 0 <= i < |z| ==> z[i] == 0
    ensures BigEndian(z + bs) == BigEndian(bs)
  {
    if bs == [] {
      assert z + bs == z;
      if z != [] {
        BigEndianLeadingZeros(z[..|z| - 1], []);
        assert z[..|z| - 1] + [] == z[..|z| - 1];
      }
    } else {
      assert (z + bs)[..|z + bs| - 1] == z + bs[..|bs| - 1];
      BigEndianLeadingZeros(z, bs[..|bs| - 1]);
    }
  }

  /** Bits the first byte of an extraction holds: 1..8, the rest of len after whole bytes. */
  function HeadBits(len: nat): (h: nat)
    requires len >= 1
    ensures 1 <= h <= 8
  {
    if len <= 8 then len else HeadBits(len - 8)
  }

  /** The number of bytes an extraction of len bits fills: the fewest that hold them. */
  function ByteCount(len: nat): (n: nat)
    requires len >= 1
    ensures n >= 1 && len == HeadBits(len) + 8 * (n - 1)
  {
    if len <= 8 then 1 else ByteCount(len - 8) + 1
  }

  /** HeadBits is len mod 8, except that a multiple of 8 leaves a whole first byte. */
  lemma {:induction false} HeadBitsMod(len: nat)
    requires len >= 1
    ensures HeadBits(len) == if len % 8 == 0 then 8 else len % 8
  {
    if len > 8 {
      HeadBitsMod(len - 8);
    }
  }

  /** Bits [s, s+w) of src, w <= 8 of them, as one byte. */
  function ByteOf(src: seq<Byte>, s: nat, w: nat): Byte
    requires w <= 8 && s + w <= 8 * |src|
  {
    Pow2Byte(w);
    BitsValue(src, s, w)
  }

  /**
   * The bytes an extraction of bits [start, start+len) of src produces: the
   * value right-aligned in the fewest whole bytes, byte 0 holding the
   * leading HeadBits(len) bits and every later byte the next 8.
   */
  function ExtractedBytes(src: seq<Byte>, start: nat, len: nat): (r: seq<Byte>)
    requires 1 <= len && start + len <= 8 * |src|
    ensures |r| == ByteCount(len)
  {
    var n := ByteCount(len);
    seq(n, j requires 0 <= j < n => ExtractedByte(src, start, len, j))
  }

  /** Byte j of an extraction: byte 0 the leading HeadBits(len) bits, byte j > 0 the j-th 8 after them. */
  function ExtractedByte(src: seq<Byte>, start: nat, len: nat, j: nat): Byte
    requires 1 <= len && start + len <= 8 * |src| && j < ByteCount(len)
  {
    var h := HeadBits(len);
    if j == 0 then ByteOf(src, start, h) else ByteOf(src, start + h + 8 * (j - 1), 8)
  }

  /** A longer range extracts to the bytes of all but its last 8 bits, then those. */
  lemma {:induction false} ExtractedSnoc(src: seq<Byte>, start: nat, len: nat)
    requires 8 < len && start + len <= 8 * |src|
    ensures ExtractedBytes(src, start, len)
            == ExtractedBytes(src, start, len - 8) + [ByteOf(src, start + len - 8, 8)]
  {
    var whole, front := ExtractedBytes(src, start, len), ExtractedBytes(src, start, len - 8);
    var n := ByteCount(len);
    assert n == ByteCount(len - 8) + 1 && HeadBits(len) == HeadBits(len - 8);
    forall j | 0 <= j < n - 1
      ensures whole[j] == front[j]
    {
      assert whole[j] == ExtractedByte(src, start, len, j);
      assert front[j] == ExtractedByte(src, start, len - 8, j);
    }
    assert start + HeadBits(len) + 8 * (n - 2) == start + len - 8;
    assert whole[n - 1] == ExtractedByte(src, start, len, n - 1);
    assert whole == front + [ByteOf(src, start + len - 8, 8)];
  }

  /** One more byte shifted in at the low end: equal prefixes give equal wholes. */
  lemma {:induction false} ShiftInByte(whole: int, front: int, value: int, prefix: int, last: int, p: int)
    requires whole == front * 256 + last && front == prefix
    requires value == prefix * p + last && p == 256
    ensures whole == value
  {
  }

  /** Read big-endian, a longer extraction is the shorter one shifted up a byte, plus its last byte. */
  lemma {:induction false} ExtractedValueStep(src: seq<Byte>, start: nat, len: nat)
    requires 8 < len && start + len <= 8 * |src|
    ensures BigEndian(ExtractedBytes(src, start, len))
            == BigEndian(ExtractedBytes(src, start, len - 8)) * 256 + ByteOf(src, start + len - 8, 8)
  {
    ExtractedSnoc(src, start, len);
    BigEndianSnoc(ExtractedBytes(src, start, len - 8), ByteOf(src, start + len - 8, 8));
  }

  /** An extraction of at most 8 bits is the one byte holding their value. */
  lemma {:induction false} ExtractedValueShort(src: seq<Byte>, start: nat, len: nat)
    requires 1 <= len <= 8 && start + len <= 8 * |src|
    ensures BigEndian(ExtractedBytes(src, start, len)) == BitsValue(src, start, len)
  {
    var r := ExtractedBytes(src, start, len);
    assert r[0] == ExtractedByte(src, start, len, 0);
    assert r[..0] == [];
  }

  /** The extracted bytes, read big-endian, are the value of the bit range. */
  lemma {:induction false} ExtractedValue(src: seq<Byte>, start: nat, len: nat)
    requires 1 <= len && start + len <= 8 * |src|
    ensures BigEndian(ExtractedBytes(src, start, len)) == BitsValue(src, start, len)
    decreases len
  {
    if len <= 8 {
      ExtractedValueShort(src, start, len);
    } else {
      ExtractedValueStep(src, start, len);
      ExtractedValue(src, start, len - 8);
      BitsSplit(src, start, len - 8, 8, len, start + len - 8);
      Pow2Byte(8);
      ShiftInByte(BigEndian(ExtractedBytes(src, start, len)), BigEndian(ExtractedBytes(src, start, len - 8)),
                  BitsValue(src, start, len), BitsValue(src, start, len - 8),
                  ByteOf(src, start + len - 8, 8), Pow2(8));
    }
  }

  /**
   * Byte j of an extraction: the leading HeadBits(len) bits for j == 0,
   * otherwise the 8 bits that end 8*(n-1-j) bits before the end of the range.
   */
  lemma {:induction false} ExtractedAt(src: seq<Byte>, start: nat, len: nat, j: nat)
    requires 1 <= len && start + len <= 8 * |src|
    requires j < |ExtractedBytes(src, start, len)|
    ensures j == 0 ==> ExtractedBytes(src, start, len)[j] == BitsValue(src, start, HeadBits(len))
    ensures j > 0 ==> ExtractedBytes(src, start, len)[j]
                      == BitsValue(src, start + len - 8 * (|ExtractedBytes(src, start, len)| - j), 8)
  {
    var r := ExtractedBytes(src, start, len);
    assert r[j] == ExtractedByte(src, start, len, j);
    if j > 0 {
      var x := start + HeadBits(len) + 8 * (j - 1);
      assert x == start + len - 8 * (ByteCount(len) - j);
      assert r[j] == BitsValue(src, x, 8);
    }
  }
}
