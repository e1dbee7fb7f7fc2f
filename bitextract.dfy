/**
 * BitExtractor: copies the bit range [start, start+len) of a byte buffer into
 * the fewest whole bytes, right-aligned (bitextract/bitextract.go).
 *
 * SetBounds precomputes where the range sits in the source; ExtractTo then
 * fills the destination with one of three shift/or loops, depending on how
 * the end of the range lines up with a byte boundary, and masks the first
 * destination byte.  Every method is proved against the bit-string reference
 * Bits.ExtractedBytes.
 */
module BitExtract {
  import opened Bits

  /** How the source bytes line up with the destination bytes. */
  datatype Bias =
    | Aligned   // the range ends on a byte boundary: a plain copy
    | BiasPrev  // destination byte i is built from source bytes i-1 and i
    | BiasNext  // destination byte i is built from source bytes i and i+1

  /** SetBounds' switch: no shift means aligned, otherwise the window length decides. */
  function BiasOf(rshift: nat, srcLen: nat, dstLen: nat): Bias
  {
    if rshift == 0 then Aligned
    else if srcLen == dstLen then BiasPrev
    else BiasNext
  }

  /** What SetBounds precomputes for a bit range. */
  datatype Layout = Layout(byteStart: nat, srcLen: nat, dstLen: nat,
                           rshift: nat, lshift: nat, mask: Byte, bias: Bias)

  /**
   * What a layout means for bits [start, start+len): byteStart is the byte
   * holding the first bit, the destination is the fewest whole bytes, the
   * source window ends rshift bits past the last bit on a byte boundary and
   * spans one byte more than the destination exactly when the bits straddle
   * one byte boundary more, and the mask keeps the bits of the first
   * destination byte.
   */
  ghost predicate Describes(l: Layout, start: nat, len: nat)
  {
    && len >= 1
    && 8 * l.byteStart <= start < 8 * l.byteStart + 8
    && l.dstLen == ByteCount(len) && 8 * (l.dstLen - 1) < len <= 8 * l.dstLen
    && l.rshift <= 7 && l.lshift == 8 - l.rshift
    && 8 * (l.byteStart + l.srcLen) == start + len + l.rshift
    && (l.srcLen == l.dstLen || l.srcLen == l.dstLen + 1)
    && (l.bias == Aligned <==> l.rshift == 0)
    && (l.bias == Aligned ==> l.srcLen == l.dstLen)
    && (l.bias == BiasPrev <==> (l.rshift != 0 && l.srcLen == l.dstLen))
    && l.mask == Pow2(HeadBits(len)) - 1
  }

  /**
   * The layout of bits [start, start+len), written from its meaning: the
   * source window runs from the byte holding the first bit to the byte
   * holding the last one, the destination is the fewest whole bytes, and
   * rshift is how far the last bit sits from the end of its byte.
   */
  function LayoutOf(start: nat, len: nat): (l: Layout)
    requires len >= 1
    ensures Describes(l, start, len)
  {
    var h := HeadBits(len);
    var dstLen := ByteCount(len);
    var e := start + len;
    var byteStart := start / 8;
    var rshift := (8 - e % 8) % 8;
    var srcLen := (e + rshift) / 8 - byteStart;
    WindowArithmetic(start, len, h, dstLen, byteStart, rshift, srcLen);
    Pow2Byte(h);
    Layout(byteStart, srcLen, dstLen, rshift, 8 - rshift, Pow2(h) - 1, BiasOf(rshift, srcLen, dstLen))
  }

  /** Describes pins the layout down: LayoutOf is the only layout of a bit range. */
  lemma {:induction false} DescribesUnique(l: Layout, start: nat, len: nat)
    requires Describes(l, start, len)
    ensures l == LayoutOf(start, len)
  {
    var m := LayoutOf(start, len);
    assert l.byteStart == m.byteStart;
    assert l.rshift == m.rshift;
  }

  /** The integer facts behind LayoutOf, on plain numbers. */
  lemma {:induction false} WindowArithmetic(start: nat, len: nat, h: int, n: int, bs: int, r: int, sl: int)
    requires 1 <= h <= 8 && n >= 1 && len == h + 8 * (n - 1)
    requires bs == start / 8 && r == (8 - (start + len) % 8) % 8 && sl == (start + len + r) / 8 - bs
    ensures 8 * bs <= start < 8 * bs + 8
    ensures 0 <= r <= 7 && 8 * (bs + sl) == start + len + r
    ensures r == 0 ==> sl == n
    ensures sl == n || sl == n + 1
  {
    var e := start + len;
    var q, m := e / 8, e % 8;
    assert e == 8 * q + m && 0 <= m < 8;
    assert start == 8 * bs + start % 8;
    if m == 0 {
      DivModUnique(e + r, 8, q, 0);
    } else {
      DivModUnique(e + r, 8, q + 1, 0);
    }
  }

  /** Eight more bits add one destination byte and change nothing else. */
  lemma {:induction false} LayoutLonger(start: nat, len: nat)
    requires len >= 1
    ensures LayoutOf(start, len + 8).dstLen == LayoutOf(start, len).dstLen + 1
    ensures LayoutOf(start, len + 8).byteStart == LayoutOf(start, len).byteStart
    ensures LayoutOf(start, len + 8).rshift == LayoutOf(start, len).rshift
    ensures LayoutOf(start, len + 8).lshift == LayoutOf(start, len).lshift
    ensures LayoutOf(start, len + 8).mask == LayoutOf(start, len).mask
  {
    assert HeadBits(len + 8) == HeadBits(len);
  }

  /** Starting eight bits later moves the window by one byte and changes nothing else. */
  lemma {:induction false} LayoutLater(start: nat, len: nat)
    requires len >= 1
    ensures LayoutOf(start + 8, len).byteStart == LayoutOf(start, len).byteStart + 1
    ensures LayoutOf(start + 8, len).dstLen == LayoutOf(start, len).dstLen
    ensures LayoutOf(start + 8, len).rshift == LayoutOf(start, len).rshift
    ensures LayoutOf(start + 8, len).lshift == LayoutOf(start, len).lshift
    ensures LayoutOf(start + 8, len).mask == LayoutOf(start, len).mask
  {
  }

  /** Starting one bit later: the right shift drops by one, or wraps from 0 to 7. */
  lemma {:induction false} LayoutNextBit(start: nat, len: nat)
    requires len >= 1
    ensures LayoutOf(start, len).byteStart <= LayoutOf(start + 1, len).byteStart <= LayoutOf(start, len).byteStart + 1
    ensures LayoutOf(start + 1, len).dstLen == LayoutOf(start, len).dstLen
    ensures LayoutOf(start, len).rshift == 0 || LayoutOf(start, len).rshift == LayoutOf(start + 1, len).rshift + 1
    ensures LayoutOf(start, len).lshift == 8 || LayoutOf(start, len).lshift == LayoutOf(start + 1, len).lshift - 1
  {
  }

  // ---------------------------------------------------------------------
  // The bytes each branch of ExtractTo reads

  /** Go's `x<<(8-r) | y>>r` on bytes: the low r bits of x followed by the high 8-r bits of y. */
  function ShiftOr(x: Byte, y: Byte, r: nat): Byte
    requires 1 <= r <= 7
  {
    ShiftOrByte(x, y, r);
    Or(Shl8(x, 8 - r), Shr(y, r))
  }

  /**
   * Byte j >= 1 of an n-byte extraction is a whole source byte b when the
   * range ends on a byte boundary 8*(n-j) bits after the start of b.
   */
  lemma {:induction false} WholeByteAt(src: seq<Byte>, start: nat, len: nat, n: nat, j: nat, b: nat)
    requires len >= 1 && start + len <= 8 * |src| && b < |src|
    requires n == ByteCount(len) && 1 <= j < n
    requires 8 * b == start + len - 8 * (n - j)
    ensures ExtractedBytes(src, start, len)[j] == src[b]
  {
    ExtractedAt(src, start, len, j);
    assert start + len - 8 * (|ExtractedBytes(src, start, len)| - j) == 8 * b;
    ByteBits(src, b);
  }

  /**
   * Byte j >= 1 of an n-byte extraction is the window over source bytes b
   * and b+1 when the range ends r bits before a byte boundary.
   */
  lemma {:induction false} WindowAt(src: seq<Byte>, start: nat, len: nat, n: nat, j: nat, b: nat, r: nat)
    requires len >= 1 && start + len <= 8 * |src| && b + 1 < |src| && 1 <= r <= 7
    requires n == ByteCount(len) && 1 <= j < n
    requires 8 * b + 8 - r == start + len - 8 * (n - j)
    ensures ExtractedBytes(src, start, len)[j] == ShiftOr(src[b], src[b + 1], r)
  {
    ExtractedAt(src, start, len, j);
    assert start + len - 8 * (|ExtractedBytes(src, start, len)| - j) == 8 * b + 8 - r;
    ByteWindow(src, b, r);
    ShiftOrByte(src[b], src[b + 1], r);
    assert ShiftOr(src[b], src[b + 1], r) == BitsValue(src, 8 * b + 8 - r, 8);
  }

  /** Aligned: the first destination byte is source byte b, masked. */
  lemma {:induction false} HeadAligned(src: seq<Byte>, start: nat, len: nat, b: nat)
    requires len >= 1 && start + len <= 8 * |src| && b < |src|
    requires 8 * b <= start && start + HeadBits(len) == 8 * b + 8
    ensures ExtractedBytes(src, start, len)[0] == src[b] % Pow2(HeadBits(len))
  {
    var h := HeadBits(len);
    ExtractedAt(src, start, len, 0);
    ByteBits(src, b);
    BitsSplitDivMod(src, 8 * b, 8 - h, h, 8, start);
    assert BitsValue(src, start, h) == src[b] % Pow2(h);
  }

  /** BiasPrev: the first destination byte is source byte b shifted right by r, masked. */
  lemma {:induction false} HeadPrev(src: seq<Byte>, start: nat, len: nat, b: nat, r: nat)
    requires len >= 1 && start + len <= 8 * |src| && b < |src| && r <= 7
    requires 8 * b <= start && start + HeadBits(len) == 8 * b + 8 - r
    ensures ExtractedBytes(src, start, len)[0] == Shr(src[b], r) % Pow2(HeadBits(len))
  {
    var h := HeadBits(len);
    var hi := BitsValue(src, 8 * b, 8 - r);
    ExtractedAt(src, start, len, 0);
    ByteSplit(src, b, 8 - r);
    assert 8 - (8 - r) == r;
    ShrDiv(src[b], r);
    assert hi == Shr(src[b], r);
    BitsSplitDivMod(src, 8 * b, 8 - r - h, h, 8 - r, start);
    assert BitsValue(src, start, h) == hi % Pow2(h);
  }

  /** BiasNext: the first destination byte is the window over source bytes b and b+1, masked. */
  lemma {:induction false} HeadNext(src: seq<Byte>, start: nat, len: nat, b: nat, r: nat)
    requires len >= 1 && start + len <= 8 * |src| && b + 1 < |src| && 1 <= r <= 7
    requires start + HeadBits(len) == 8 * b + 16 - r
    ensures ExtractedBytes(src, start, len)[0] == ShiftOr(src[b], src[b + 1], r) % Pow2(HeadBits(len))
  {
    var h := HeadBits(len);
    var w := BitsValue(src, 8 * b + 8 - r, 8);
    ExtractedAt(src, start, len, 0);
    ByteWindow(src, b, r);
    ShiftOrByte(src[b], src[b + 1], r);
    assert ShiftOr(src[b], src[b + 1], r) == w;
    BitsSplitDivMod(src, 8 * b + 8 - r, 8 - h, h, 8, start);
    assert ExtractedBytes(src, start, len)[0] == w % Pow2(h);
  }

  /**
   * What each branch of ExtractTo leaves in the buffer (before, after) ahead
   * of the final mask: the window at off holds want except that its first
   * byte still has to be cut to its low h bits, and nothing outside the
   * window has changed.
   */
  ghost predicate Unmasked(before: seq<Byte>, after: seq<Byte>, off: nat, want: seq<Byte>, h: nat)
  {
    && |before| == |after| && 1 <= |want| && off + |want| <= |after|
    && (forall k :: off + 1 <= k < off + |want| ==> after[k] == want[k - off])
    && want[0] == after[off] % Pow2(h)
    && (forall k :: 0 <= k < |after| && !(off <= k < off + |want|) ==> after[k] == before[k])
  }

  /** `b & mask` where mask keeps the low h bits. */
  function MaskHead(b: Byte, ghost h: nat, mask: Byte): (r: Byte)
    requires 1 <= h <= 8 && mask == Pow2(h) - 1
    ensures r == b % Pow2(h) && r <= mask
  {
    AndLowMask(b, h);
    Pow2Byte(h);
    And(b, mask)
  }

  /** The final mask turns an unmasked window into exactly want. */
  lemma {:induction false} MaskFinishes(before: seq<Byte>, after: seq<Byte>, off: nat, want: seq<Byte>, h: nat, mask: Byte)
    requires Unmasked(before, after, off, want, h)
    requires 1 <= h <= 8 && mask == Pow2(h) - 1
    ensures var done := after[off := MaskHead(after[off], h, mask)];
      && done[off .. off + |want|] == want
      && done[..off] == before[..off]
      && done[off + |want| ..] == before[off + |want| ..]
  {
  }

  /** The aligned branch of ExtractTo: a plain copy of n source bytes from b0. */
  method FillAligned(dest: array<Byte>, off: nat, src: seq<Byte>, ghost start: nat, ghost len: nat, b0: nat, n: nat)
    requires len >= 1 && n == ByteCount(len)
    requires 8 * b0 <= start && 8 * (b0 + n) == start + len && b0 + n <= |src| && off + n <= dest.Length
    modifies dest
    ensures Unmasked(old(dest[..]), dest[..], off, ExtractedBytes(src, start, len), HeadBits(len))
  {
    ghost var before := dest[..];
    forall j | 0 <= j < n {
      dest[off + j] := src[b0 + j];
    }
    AlignedFilled(before, dest[..], off, src, start, len, n, b0);
  }

  /** The BiasPrev branch of ExtractTo: byte i from source bytes b0+i-1 and b0+i. */
  method FillPrev(dest: array<Byte>, off: nat, src: seq<Byte>, ghost start: nat, ghost len: nat, b0: nat, n: nat, r: nat)
    requires len >= 1 && n == ByteCount(len) && 1 <= r <= 7 && 8 * b0 <= start
    requires 8 * (b0 + n) == start + len + r && b0 + n <= |src| && off + n <= dest.Length
    modifies dest
    ensures Unmasked(old(dest[..]), dest[..], off, ExtractedBytes(src, start, len), HeadBits(len))
  {
    ghost var before := dest[..];
    ShiftRightBound(src[b0], r);
    Pow2Byte(8 - r);
    dest[off] := Shr(src[b0], r);
    for i := 1 to n
      invariant dest[off] == Shr(src[b0], r)
      invariant forall k :: off + 1 <= k < off + i ==> dest[k] == ShiftOr(src[k - off + b0 - 1], src[k - off + b0], r)
      invariant forall k :: 0 <= k < dest.Length && !(off <= k < off + n) ==> dest[k] == old(dest[k])
    {
      dest[off + i] := ShiftOr(src[i + b0 - 1], src[i + b0], r);
    }
    PrevFilled(before, dest[..], off, src, start, len, n, b0, r);
  }

  /** The BiasNext branch of ExtractTo: byte i from source bytes b0+i and b0+i+1. */
  method FillNext(dest: array<Byte>, off: nat, src: seq<Byte>, ghost start: nat, ghost len: nat, b0: nat, n: nat, r: nat)
    requires len >= 1 && n == ByteCount(len) && 1 <= r <= 7
    requires 8 * (b0 + n + 1) == start + len + r && b0 + n + 1 <= |src| && off + n <= dest.Length
    modifies dest
    ensures Unmasked(old(dest[..]), dest[..], off, ExtractedBytes(src, start, len), HeadBits(len))
  {
    ghost var before := dest[..];
    for i := 0 to n
      invariant forall k :: off <= k < off + i ==> dest[k] == ShiftOr(src[k - off + b0], src[k - off + b0 + 1], r)
      invariant forall k :: 0 <= k < dest.Length && !(off <= k < off + n) ==> dest[k] == old(dest[k])
    {
      dest[off + i] := ShiftOr(src[i + b0], src[i + b0 + 1], r);
    }
    NextFilled(before, dest[..], off, src, start, len, n, b0, r);
  }

  /** The aligned copy leaves the window unmasked-correct. */
  lemma {:induction false} AlignedFilled(before: seq<Byte>, after: seq<Byte>, off: nat, src: seq<Byte>, start: nat, len: nat, n: nat, b0: nat)
    requires len >= 1 && n == ByteCount(len)
    requires 8 * b0 <= start && 8 * (b0 + n) == start + len && b0 + n <= |src|
    requires |before| == |after| && off + n <= |after|
    requires forall k :: off <= k < off + n ==> after[k] == src[k - off + b0]
    requires forall k :: 0 <= k < |after| && !(off <= k < off + n) ==> after[k] == before[k]
    ensures Unmasked(before, after, off, ExtractedBytes(src, start, len), HeadBits(len))
  {
    forall k | off + 1 <= k < off + n
      ensures after[k] == ExtractedBytes(src, start, len)[k - off]
    {
      WholeByteAt(src, start, len, n, k - off, k - off + b0);
    }
    HeadAligned(src, start, len, b0);
  }

  /** The BiasPrev loop leaves the window unmasked-correct. */
  lemma {:induction false} PrevFilled(before: seq<Byte>, after: seq<Byte>, off: nat, src: seq<Byte>, start: nat, len: nat, n: nat, b0: nat, r: nat)
    requires len >= 1 && n == ByteCount(len)
    requires 1 <= r <= 7 && 8 * b0 <= start
    requires 8 * (b0 + n) == start + len + r && b0 + n <= |src|
    requires |before| == |after| && off + n <= |after|
    requires after[off] == Shr(src[b0], r)
    requires forall k :: off + 1 <= k < off + n ==> after[k] == ShiftOr(src[k - off + b0 - 1], src[k - off + b0], r)
    requires forall k :: 0 <= k < |after| && !(off <= k < off + n) ==> after[k] == before[k]
    ensures Unmasked(before, after, off, ExtractedBytes(src, start, len), HeadBits(len))
  {
    forall k | off + 1 <= k < off + n
      ensures after[k] == ExtractedBytes(src, start, len)[k - off]
    {
      var b := k - off + b0 - 1;
      WindowAt(src, start, len, n, k - off, b, r);
      assert b + 1 == k - off + b0;
    }
    HeadPrev(src, start, len, b0, r);
  }

  /** The BiasNext loop leaves the window unmasked-correct. */
  lemma {:induction false} NextFilled(before: seq<Byte>, after: seq<Byte>, off: nat, src: seq<Byte>, start: nat, len: nat, n: nat, b0: nat, r: nat)
    requires len >= 1 && n == ByteCount(len)
    requires 1 <= r <= 7
    requires 8 * (b0 + n + 1) == start + len + r && b0 + n + 1 <= |src|
    requires |before| == |after| && off + n <= |after|
    requires forall k :: off <= k < off + n ==> after[k] == ShiftOr(src[k - off + b0], src[k - off + b0 + 1], r)
    requires forall k :: 0 <= k < |after| && !(off <= k < off + n) ==> after[k] == before[k]
    ensures Unmasked(before, after, off, ExtractedBytes(src, start, len), HeadBits(len))
  {
    forall k | off + 1 <= k < off + n
      ensures after[k] == ExtractedBytes(src, start, len)[k - off]
    {
      WindowAt(src, start, len, n, k - off, k - off + b0, r);
    }
    HeadNext(src, start, len, b0, r);
  }

  // ---------------------------------------------------------------------
  // The extractor

  /** Go's ifAligned: ifYes when size is a whole number of bytes. */
  function IfAligned(size: int, ifYes: int, ifNo: int): int
  {
    if size % 8 == 0 then ifYes else ifNo
  }

  /**
   * SetBounds' formulas compute LayoutOf: byteStart = start/8,
   * dstLen = len/8 (+1 unless aligned), the source ends in byte
   * (start+len)/8 (-1 when aligned), rshift = 7 - (start+len-1)%8 and the
   * mask keeps len%8 bits (all 8 when aligned).
   */
  lemma {:induction false} GoBounds(start: nat, len: nat)
    requires len >= 1
    ensures var l := LayoutOf(start, len);
      && l.byteStart == start / 8
      && l.dstLen == len / 8 + IfAligned(len, 0, 1)
      && l.srcLen == (start + len) / 8 - IfAligned(start + len, 1, 0) - start / 8 + 1
      && l.rshift == 8 - (start + len - 1) % 8 - 1
      && l.lshift == (start + len - 1) % 8 + 1
      && l.mask == IfAligned(len, 255, Pow2(len % 8) - 1)
  {
    var l := LayoutOf(start, len);
    HeadBitsMod(len);
    GoArithmetic(start, len, l.byteStart, l.dstLen, l.srcLen, l.rshift, HeadBits(len));
  }

  /** The integer facts behind GoBounds, on plain numbers. */
  lemma {:induction false} GoArithmetic(start: nat, len: nat, bs: nat, n: nat, sl: nat, r: nat, h: nat)
    requires 8 * bs <= start < 8 * bs + 8
    requires n >= 1 && len == h + 8 * (n - 1) && 1 <= h <= 8
    requires h == if len % 8 == 0 then 8 else len % 8
    requires r <= 7 && 8 * (bs + sl) == start + len + r
    ensures bs == start / 8
    ensures n == len / 8 + IfAligned(len, 0, 1)
    ensures sl == (start + len) / 8 - IfAligned(start + len, 1, 0) - start / 8 + 1
    ensures r == 8 - (start + len - 1) % 8 - 1
  {
    var e := start + len;
    DivModUnique(start, 8, bs, start - 8 * bs);
    if h == 8 {
      DivModUnique(len, 8, n, 0);
    } else {
      DivModUnique(len, 8, n - 1, h);
    }
    if r == 0 {
      DivModUnique(e, 8, bs + sl, 0);
      DivModUnique(e - 1, 8, bs + sl - 1, 7);
    } else {
      DivModUnique(e, 8, bs + sl - 1, 8 - r);
      DivModUnique(e - 1, 8, bs + sl - 1, 7 - r);
    }
  }

  class BitExtractor {
    var bitStart: nat
    var byteStart: nat
    var srcLen: nat
    var dstLen: nat
    var bias: Bias
    var rshift: nat
    var lshift: nat
    var mask: Byte
    /** The bit length; the Go struct does not keep it, it is implied by dstLen and mask. */
    ghost var length: nat

    function Bounds(): Layout
      reads this
    {
      Layout.Layout(byteStart, srcLen, dstLen, rshift, lshift, mask, bias)
    }

    /** The fields describe bits [bitStart, bitStart+length), and bitStart+length fits in a Go int. */
    ghost predicate Valid()
      reads this
    {
      length >= 1 && bitStart + length <= MaxInt && Describes(Bounds(), bitStart, length)
    }

    /** New(start, len). */
    constructor(start: int, len: int)
      requires start >= 0 && len >= 1 && start + len <= MaxInt
      ensures Valid() && bitStart == start && length == len
    {
      new;
      SetBounds(start, len);
    }

    /**
     * Go panics on a negative start, a length below 1, and a start+len that
     * overflows int; those are the preconditions.
     */
    method SetBounds(start: int, len: int)
      requires start >= 0 && len >= 1 && start + len <= MaxInt
      modifies this
      ensures Valid() && bitStart == start && length == len
      ensures Bounds() == LayoutOf(start, len)
    {
      ghost var l := LayoutOf(start, len);
      GoBounds(start, len);
      bitStart := start;
      byteStart := start / 8;
      dstLen := len / 8 + IfAligned(len, 0, 1);
      var srcEndByte := (start + len) / 8 - IfAligned(start + len, 1, 0);
      srcLen := srcEndByte - byteStart + 1;
      var srcEndOffset := (start + len - 1) % 8;
      rshift := 8 - srcEndOffset - 1;
      lshift := srcEndOffset + 1;
      Pow2Byte(len % 8);
      mask := IfAligned(len, 255, Pow2(len % 8) - 1);
      bias := BiasOf(rshift, srcLen, dstLen);
      length := len;
      assert Bounds() == l;
    }

    /** The number of bytes an extraction produces: the fewest that hold length bits. */
    function ByteLength(): (n: nat)
      reads this
      requires Valid()
      ensures n == ByteCount(length) && 8 * (n - 1) < length <= 8 * n
    {
      dstLen
    }

    /** A zeroed buffer of the size ExtractTo needs. */
    method Buffer() returns (b: array<Byte>)
      requires Valid()
      ensures fresh(b) && b.Length == ByteLength()
      ensures forall i :: 0 <= i < b.Length ==> b[i] == 0
    {
      b := new Byte[dstLen](_ => 0);
    }

    /**
     * Extracts the range into dest[off .. off+dstLen]; the Go slice dest is
     * the window of the array that starts at off.  Go panics when src is too
     * short or the window too small; those are the preconditions.
     */
    method ExtractTo(dest: array<Byte>, off: nat, src: seq<Byte>)
      requires Valid()
      requires |src| >= srcLen + byteStart
      requires off + dstLen <= dest.Length
      modifies dest
      ensures dest[off .. off + dstLen] == ExtractedBytes(src, bitStart, length)
      ensures dest[off] <= mask
      ensures dest[..off] == old(dest[..off]) && dest[off + dstLen ..] == old(dest[off + dstLen ..])
    {
      ghost var want, h := ExtractedBytes(src, bitStart, length), HeadBits(length);
      ghost var before := dest[..];
      match bias {
        case Aligned =>
          FillAligned(dest, off, src, bitStart, length, byteStart, dstLen);
        case BiasPrev =>
          FillPrev(dest, off, src, bitStart, length, byteStart, dstLen, rshift);
        case BiasNext =>
          FillNext(dest, off, src, bitStart, length, byteStart, dstLen, rshift);
      }
      ghost var unmasked := dest[..];
      dest[off] := MaskHead(dest[off], h, mask);
      MaskFinishes(before, unmasked, off, want, h, mask);
      assert dest[..] == unmasked[off := MaskHead(unmasked[off], h, mask)];
    }

    /** Extract: a fresh buffer holding the extracted bytes. */
    method Extract(src: seq<Byte>) returns (r: seq<Byte>)
      requires Valid()
      requires |src| >= srcLen + byteStart
      ensures |r| == ByteLength()
      ensures r == ExtractedBytes(src, bitStart, length)
      ensures BigEndian(r) == BitsValue(src, bitStart, length)
    {
      var dest := Buffer();
      ExtractTo(dest, 0, src);
      r := dest[..];
      assert r == dest[0 .. dstLen];
      ExtractedValue(src, bitStart, length);
    }

    /**
     * The extracted bytes read as a big-endian uint64: they are written to the
     * tail of a zeroed 8-byte buffer, so Go panics when dstLen exceeds 8.
     */
    method ExtractUInt64(src: seq<Byte>) returns (v: nat)
      requires Valid()
      requires |src| >= srcLen + byteStart
      requires dstLen <= 8
      ensures v == BitsValue(src, bitStart, length)
      ensures v < Pow2(length) && v < Pow2(64)
    {
      var buff := new Byte[8](_ => 0);
      ExtractTo(buff, 8 - dstLen, src);
      v := BigEndian(buff[..]);
      assert buff[..] == buff[..8 - dstLen] + buff[8 - dstLen .. 8];
      BigEndianLeadingZeros(buff[..8 - dstLen], buff[8 - dstLen .. 8]);
      ExtractedValue(src, bitStart, length);
      Pow2Monotone(length, 64);
    }
  }

  /**
   * An extractor's source window lies inside any buffer that holds its
   * bits, and a range of at most 64 bits needs at most 8 destination bytes.
   */
  lemma ExtractorFits(e: BitExtractor, src: seq<Byte>)
    requires e.Valid() && e.bitStart + e.length <= 8 * |src|
    ensures |src| >= e.srcLen + e.byteStart
    ensures e.length <= 64 ==> e.dstLen <= 8
  {
  }
}
