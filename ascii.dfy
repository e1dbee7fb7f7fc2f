/**
 * GS1 7-bit packed ASCII (epc/ascii.go): unpacking 7-bit characters from a
 * bit offset, the GS1 percent escapes, and the two GS1 character-set checks.
 *
 * DecodeASCIIAt is the Go loop over a fresh output buffer, driven by the
 * eight 7-bit extractors of the package; it is proved against Decoded, the
 * characters read straight off the bit string.  The packer of the Go test
 * suite is transcribed as GetASCII, and DecodePacked proves the round trip
 * the tests check.
 */
module Ascii {
  import opened Wrappers
  import opened Bits
  import opened Text
  import BitExtract

  const NullASCII: Byte := 0

  // ---------------------------------------------------------------------
  // Unpacking 7-bit characters

  /**
   * The start bits of asciiExtracts: entry k extracts 7 bits from bit
   * (8 - k) % 8 of the slice it is given.
   */
  const AsciiStarts: seq<nat> := [0, 7, 6, 5, 4, 3, 2, 1]

  /** asciiExtracts: eight extractors of 7 bits, one per start bit within a byte. */
  method NewAsciiExtracts() returns (es: seq<BitExtract.BitExtractor>)
    ensures AsciiTable(es)
  {
    var e0 := new BitExtract.BitExtractor(0, 7);
    var e1 := new BitExtract.BitExtractor(7, 7);
    var e2 := new BitExtract.BitExtractor(6, 7);
    var e3 := new BitExtract.BitExtractor(5, 7);
    var e4 := new BitExtract.BitExtractor(4, 7);
    var e5 := new BitExtract.BitExtractor(3, 7);
    var e6 := new BitExtract.BitExtractor(2, 7);
    var e7 := new BitExtract.BitExtractor(1, 7);
    es := [e0, e1, e2, e3, e4, e5, e6, e7];
    forall k | 0 <= k < 8
      ensures es[k].Valid() && es[k].bitStart == AsciiStarts[k] && es[k].length == 7
    {
      if k == 0 { assert es[k] == e0; }
      else if k == 1 { assert es[k] == e1; }
      else if k == 2 { assert es[k] == e2; }
      else if k == 3 { assert es[k] == e3; }
      else if k == 4 { assert es[k] == e4; }
      else if k == 5 { assert es[k] == e5; }
      else if k == 6 { assert es[k] == e6; }
      else { assert es[k] == e7; }
    }
  }

  /** Eight valid extractors of 7 bits, the k-th starting at bit AsciiStarts[k]. */
  ghost predicate AsciiTable(es: seq<BitExtract.BitExtractor>)
    reads es
  {
    |es| == 8 && forall k :: 0 <= k < 8 ==> es[k].Valid() && es[k].bitStart == AsciiStarts[k] && es[k].length == 7
  }

  /** The index of the first null character, or |s| when there is none. */
  function FirstNull(s: String): (n: nat)
    ensures n <= |s|
  {
    if |s| == 0 then 0
    else
      var k := FirstNull(s[..|s| - 1]);
      if k < |s| - 1 || s[|s| - 1] == NullASCII then k else |s|
  }

  /** FirstNull finds the first null: none comes before it, and it is one. */
  lemma {:induction false} FirstNullSpec(s: String)
    ensures forall j :: 0 <= j < FirstNull(s) ==> s[j] != NullASCII
    ensures FirstNull(s) < |s| ==> s[FirstNull(s)] == NullASCII
  {
    if |s| > 0 {
      var front := s[..|s| - 1];
      FirstNullSpec(front);
      assert forall j :: 0 <= j < |front| ==> s[j] == front[j];
    }
  }

  /** Whether a non-null character follows the first null. */
  function HasExtra(s: String): bool
  {
    if |s| == 0 then false
    else
      var front := s[..|s| - 1];
      HasExtra(front) || (FirstNull(front) < |front| && s[|s| - 1] != NullASCII)
  }

  /** HasExtra holds exactly when some non-null character comes after the first null. */
  lemma {:induction false} HasExtraSpec(s: String)
    ensures HasExtra(s) <==> exists j :: FirstNull(s) < j < |s| && s[j] != NullASCII
  {
    if |s| > 0 {
      var front := s[..|s| - 1];
      var last := |s| - 1;
      HasExtraSpec(front);
      assert forall j :: 0 <= j < |front| ==> s[j] == front[j];
      if FirstNull(front) < |front| {
        assert FirstNull(s) == FirstNull(front);
        if s[last] != NullASCII {
          assert FirstNull(s) < last;
        }
      }
    }
  }

  /** The loop's nullTerm variable: the first null, or -1 while none has been seen. */
  function NullMark(s: String): (m: int)
    ensures m == -1 <==> FirstNull(s) == |s|
  {
    if FirstNull(s) == |s| then -1 else FirstNull(s)
  }

  /** The n 7-bit characters that follow bit offset. */
  function Chars(data: seq<Byte>, offset: nat, n: nat): (cs: String)
    requires offset + 7 * n <= 8 * |data|
    ensures |cs| == n
  {
    if n == 0 then []
    else
      Pow2Byte(7);
      Chars(data, offset, n - 1) + [BitsValue(data, offset + 7 * (n - 1), 7)]
  }

  /** Character i of Chars is bits [offset+7i, offset+7i+7). */
  lemma {:induction false} CharsAt(data: seq<Byte>, offset: nat, n: nat)
    requires offset + 7 * n <= 8 * |data|
    ensures forall i :: 0 <= i < n ==> Chars(data, offset, n)[i] == BitsValue(data, offset + 7 * i, 7) < 128
  {
    if n > 0 {
      CharsAt(data, offset, n - 1);
      Pow2Byte(7);
    }
  }

  /** DecodeASCIIAt's three results. */
  datatype Decoding = Decoding(out: String, nullTerm: nat, extra: bool)

  /**
   * What DecodeASCIIAt returns.  When fewer than 7 bits follow the offset
   * there are no characters, and extra reports a single non-zero byte.
   */
  function Decoded(data: seq<Byte>, offset: nat): (r: Decoding)
    requires offset <= 7
    ensures |r.out| == if 8 * |data| - offset < 7 then 0 else (8 * |data| - offset) / 7
    ensures forall i :: 0 <= i < |r.out| ==>
      offset + 7 * i + 7 <= 8 * |data| && r.out[i] == BitsValue(data, offset + 7 * i, 7) && r.out[i] < 128
    ensures r.nullTerm <= |r.out|
    ensures forall j :: 0 <= j < r.nullTerm ==> r.out[j] != NullASCII
    ensures r.nullTerm < |r.out| ==> r.out[r.nullTerm] == NullASCII
    ensures |r.out| > 0 ==> (r.extra <==> exists j :: r.nullTerm < j < |r.out| && r.out[j] != NullASCII)
    ensures |r.out| == 0 ==> (r.extra <==> |data| == 1 && data[0] != NullASCII)
  {
    if 8 * |data| - offset < 7 then Decoding([], 0, |data| == 1 && data[0] != NullASCII)
    else
      var n := (8 * |data| - offset) / 7;
      var out := Chars(data, offset, n);
      CharsAt(data, offset, n);
      FirstNullSpec(out);
      HasExtraSpec(out);
      Decoding(out, FirstNull(out), HasExtra(out))
  }

  /** Decoded when at least one character fits: the n characters, their first null and the extra flag. */
  lemma DecodedChars(data: seq<Byte>, offset: nat, n: nat)
    requires offset <= 7 && 8 * |data| - offset >= 7 && n == (8 * |data| - offset) / 7
    ensures offset + 7 * n <= 8 * |data|
    ensures Decoded(data, offset) == Decoding(Chars(data, offset, n), FirstNull(Chars(data, offset, n)), HasExtra(Chars(data, offset, n)))
  {
  }

  /** Character i sits at bit (offset+7i) % 8 of byte i - (i+7-offset)/8, the extractor the loop picks. */
  lemma ExtractorLands(i: nat, offset: nat)
    requires offset <= 7
    ensures 0 <= i - (i + 7 - offset) / 8
    ensures 8 * (i - (i + 7 - offset) / 8) + AsciiStarts[((8 - offset) % 8 + i) % 8] == offset + 7 * i
  {
    var m := i + 7 - offset;
    var d, t := m / 8, m % 8;
    assert m == d * 8 + t;
    assert 8 * (i - d) == 8 * i - m + t;
    var a := (8 - offset) % 8 + i;
    var c := if offset == 0 then 1 else 0;
    assert (8 - offset) % 8 == 8 - offset - 8 * c;
    assert a == (d - c) * 8 + t + 1;
    if t == 7 {
      DivModUnique(a, 8, d - c + 1, 0);
      assert AsciiStarts[a % 8] == 0;
    } else {
      DivModUnique(a, 8, d - c, t + 1);
      StartsTable(t);
    }
  }

  /** The extractor after k whole characters of a byte starts at bit 7 - k. */
  lemma StartsTable(t: nat)
    requires t < 7
    ensures AsciiStarts[t + 1] == 7 - t
  {
  }

  /** How the first null and the extra flag move when a character is appended. */
  lemma NullSnoc(s: String, c: Byte)
    ensures FirstNull(s + [c]) == if FirstNull(s) < |s| || c == NullASCII then FirstNull(s) else |s| + 1
    ensures HasExtra(s + [c]) == (HasExtra(s) || (FirstNull(s) < |s| && c != NullASCII))
  {
    assert (s + [c])[..|s|] == s;
  }

  /**
   * One turn of the loop: asciiExtracts[ext % 8] copies character i out of
   * data[inbyte:] into outdata[i:].
   */
  method ExtractChar(asciiExtracts: seq<BitExtract.BitExtractor>, ext: nat, outdata: array<Byte>, i: nat, data: seq<Byte>, offset: nat)
    requires offset <= 7 && ext == (8 - offset) % 8 + i
    requires AsciiTable(asciiExtracts)
    requires i < outdata.Length && offset + 7 * i + 7 <= 8 * |data|
    modifies outdata
    ensures outdata[i] == BitsValue(data, offset + 7 * i, 7)
    ensures outdata[..i + 1] == old(outdata[..i]) + [outdata[i]]
  {
    var inbyte := i - (i + 7 - offset) / 8;
    ExtractorLands(i, offset);
    var e := asciiExtracts[ext % 8];
    BitExtract.ExtractorFits(e, data[inbyte..]);
    e.ExtractTo(outdata, i, data[inbyte..]);
    assert outdata[i] == outdata[i .. i + 1][0];
    BitsValueDrop(data, inbyte, e.bitStart, 7);
    assert outdata[..i + 1] == outdata[..i] + [outdata[i]];
  }

  /**
   * The rest of the turn: a null is remembered when it is the first, and a
   * non-null after a null sets extra.
   */
  method DecodeStep(asciiExtracts: seq<BitExtract.BitExtractor>, ext: nat, outdata: array<Byte>, i: nat, data: seq<Byte>, offset: nat,
                    nt: int, extra: bool, ghost seen: String) returns (nt': int, extra': bool)
    requires offset <= 7 && ext == (8 - offset) % 8 + i
    requires AsciiTable(asciiExtracts)
    requires i < outdata.Length && offset + 7 * i + 7 <= 8 * |data|
    requires outdata[..i] == seen && nt == NullMark(seen) && extra == HasExtra(seen)
    modifies outdata
    ensures outdata[..i + 1] == seen + [BitsValue(data, offset + 7 * i, 7)]
    ensures nt' == NullMark(outdata[..i + 1]) && extra' == HasExtra(outdata[..i + 1])
  {
    ExtractChar(asciiExtracts, ext, outdata, i, data, offset);
    NullSnoc(seen, outdata[i]);
    nt', extra' := nt, extra;
    if outdata[i] == NullASCII {
      if nt == -1 {
        nt' := i;
      }
    } else if nt != -1 {
      extra' := true;
    }
  }

  /**
   * Unpacks the 7-bit characters of data that start at bit offset.  Go
   * panics on an offset outside [0, 7]; that is the precondition.
   */
  method DecodeASCIIAt(data: seq<Byte>, offset: int) returns (out: String, nullTerm: nat, extra: bool)
    requires 0 <= offset <= 7
    ensures Decoding(out, nullTerm, extra) == Decoded(data, offset)
  {
    // Go computes outbyteLen with a division that truncates toward zero; it
    // is at most 0 exactly when fewer than 7 bits follow the offset.
    if 8 * |data| - offset < 7 {
      return [], 0, |data| == 1 && data[0] != NullASCII;
    }
    var outbyteLen := (8 * |data| - offset) / 7;
    var asciiExtracts := NewAsciiExtracts();
    var outdata := new Byte[outbyteLen];
    var nt;
    nt, extra := UnpackChars(asciiExtracts, outdata, data, offset);
    out := outdata[..];
    nullTerm := if nt == -1 then |out| else nt;
    DecodedChars(data, offset, outbyteLen);
  }

  /**
   * DecodeASCIIAt's loop: outdata receives the characters one by one, while
   * nt remembers the first null and extra records a non-null after it.
   */
  method UnpackChars(asciiExtracts: seq<BitExtract.BitExtractor>, outdata: array<Byte>, data: seq<Byte>, offset: nat)
    returns (nt: int, extra: bool)
    requires offset <= 7 && AsciiTable(asciiExtracts)
    requires offset + 7 * outdata.Length <= 8 * |data|
    modifies outdata
    ensures outdata[..] == Chars(data, offset, outdata.Length)
    ensures nt == NullMark(outdata[..]) && extra == HasExtra(outdata[..])
  {
    nt := -1;
    var ext := (8 - offset) % 8;
    extra := false;
    var i := 0;
    ghost var seen: String := [];
    while i < outdata.Length
      invariant 0 <= i <= outdata.Length
      invariant ext == (8 - offset) % 8 + i
      invariant AsciiTable(asciiExtracts)
      invariant outdata[..i] == seen && seen == Chars(data, offset, i)
      invariant nt == NullMark(seen) && extra == HasExtra(seen)
    {
      nt, extra := DecodeStep(asciiExtracts, ext, outdata, i, data, offset, nt, extra, seen);
      ext := ext + 1;
      seen := outdata[..i + 1];
      i := i + 1;
    }
    assert outdata[..] == seen;
  }

  // ---------------------------------------------------------------------
  // The packer of the Go test suite

  function Zeros(n: nat): (bs: seq<bool>)
    ensures |bs| == n
  {
    seq(n, _ => false)
  }

  function Ones(n: nat): (bs: seq<bool>)
    ensures |bs| == n
  {
    seq(n, _ => true)
  }

  /** `%08b` of each byte with its leading 0 removed: 7 bits per character, most significant first. */
  function SevenBits(s: String): (bs: seq<bool>)
    ensures |bs| == 7 * |s|
  {
    if |s| == 0 then [] else SevenBits(s[..|s| - 1]) + ToBinary(s[|s| - 1], 7)
  }

  /** The zeros that round a bit string of length len up to whole bytes. */
  function Padding(len: nat): (p: nat)
    ensures p < 8 && (len + p) % 8 == 0
  {
    if len % 8 != 0 then 8 - len % 8 else 0
  }

  /** Bits grouped 8 to a byte, most significant first. */
  function BytesOf(bs: seq<bool>): (r: seq<Byte>)
    requires |bs| % 8 == 0
    ensures |r| == |bs| / 8
    ensures BitString(r) == bs
  {
    if |bs| == 0 then []
    else
      ToFromBinary(bs[..8]);
      Pow2Byte(8);
      var rest := BytesOf(bs[8..]);
      assert bs == bs[..8] + bs[8..];
      [FromBinary(bs[..8])] + rest
  }

  /**
   * The bit string getASCII builds: a leading 00000001 byte, offset
   * one-bits, 7 bits per character, and zeros up to whole bytes.
   */
  function PackerBits(s: String, offset: nat): (bs: seq<bool>)
    requires forall i :: 0 <= i < |s| ==> s[i] < 128
    ensures |bs| % 8 == 0 && |bs| >= 8 + offset + 7 * |s|
  {
    var bitStr := Zeros(7) + [true] + Ones(offset) + SevenBits(s);
    bitStr + Zeros(Padding(|bitStr|))
  }

  /**
   * The bytes of the number PackerBits spells, without the leading byte
   * (which only keeps leading zero bytes from being dropped).
   */
  function Unmasked(s: String, offset: nat): (b: seq<Byte>)
    requires forall i :: 0 <= i < |s| ==> s[i] < 128
    ensures 8 * |b| == offset + 7 * |s| + Padding(offset + 7 * |s|)
    ensures BitString(b) == Ones(offset) + SevenBits(s) + Zeros(Padding(offset + 7 * |s|))
  {
    PackerLength(s, offset);
    BytesOfTail(PackerBits(s, offset));
    BytesOf(PackerBits(s, offset))[1..]
  }

  /** `b[0] &= 0xFF >> offset`: the first offset bits become zeros. */
  function MaskFirst(b: seq<Byte>, offset: nat): (r: seq<Byte>)
    requires offset <= 7 && |b| >= 1
    ensures |r| == |b|
    ensures BitString(r) == Zeros(offset) + BitString(b)[offset..]
  {
    MaskFirstBits(b, offset);
    b[0 := And(b[0], Shr(255, offset))]
  }

  /**
   * getASCII: the bytes PackerBits spells, with the offset bits masked
   * out.  The helper is meant for ASCII text; Go panics on an offset above 7.
   */
  function GetASCII(s: String, offset: nat): (b: seq<Byte>)
    requires offset <= 7
    requires forall i :: 0 <= i < |s| ==> s[i] < 128
    ensures |s| > 0 ==> 8 * |b| == offset + 7 * |s| + Padding(offset + 7 * |s|)
    ensures |s| > 0 ==> BitString(b) == Zeros(offset) + SevenBits(s) + Zeros(Padding(offset + 7 * |s|))
  {
    if |s| == 0 then []
    else
      var b := Unmasked(s, offset);
      var tail := SevenBits(s) + Zeros(Padding(offset + 7 * |s|));
      assert BitString(b) == Ones(offset) + tail;
      DropFront(Ones(offset), tail);
      MaskFirst(b, offset)
  }

  /** After its leading byte, PackerBits is the offset ones, the characters and the padding. */
  lemma PackerLength(s: String, offset: nat)
    requires forall i :: 0 <= i < |s| ==> s[i] < 128
    ensures |PackerBits(s, offset)| == 8 + offset + 7 * |s| + Padding(offset + 7 * |s|)
    ensures PackerBits(s, offset)[8..] == Ones(offset) + SevenBits(s) + Zeros(Padding(offset + 7 * |s|))
  {
    var head := Zeros(7) + [true];
    var rest := Ones(offset) + SevenBits(s);
    var L := offset + 7 * |s|;
    var pad := Zeros(Padding(L));
    assert PackerBits(s, offset) == head + rest + pad by {
      var bitStr := Zeros(7) + [true] + Ones(offset) + SevenBits(s);
      assert |bitStr| == L + 8 && bitStr == head + rest;
      PaddingShift(L);
    }
    DropFront(head, rest + pad);
  }

  /** Dropping a front part of a concatenation. */
  lemma DropFront<T>(a: seq<T>, b: seq<T>)
    ensures (a + b)[|a|..] == b
  {
  }

  /** Eight more bits need the same padding. */
  lemma PaddingShift(L: nat)
    ensures Padding(L + 8) == Padding(L)
  {
    DivModUnique(L + 8, 8, L / 8 + 1, L % 8);
  }

  /** The bits of BytesOf(bs) without its first byte are bs without its first 8 bits. */
  lemma BytesOfTail(bs: seq<bool>)
    requires |bs| % 8 == 0 && |bs| >= 8
    ensures BitString(BytesOf(bs)[1..]) == bs[8..]
  {
    BitStringDrop(BytesOf(bs), 1);
  }

  /** Masking the first byte with 0xFF >> offset turns its first offset bits to zeros. */
  lemma MaskFirstBits(b: seq<Byte>, offset: nat)
    requires offset <= 7 && |b| >= 1
    ensures And(b[0], Shr(255, offset)) < 256
    ensures BitString(b[0 := And(b[0], Shr(255, offset))]) == Zeros(offset) + BitString(b)[offset..]
  {
    var m := And(b[0], Shr(255, offset));
    MaskOffset(b[0], offset);
    var g := b[0 := m];
    var rest := BitString(b[1..]);
    assert BitString(g) == ToBinary(m, 8) + rest by {
      assert g[1..] == b[1..];
    }
    assert BitString(b)[offset..] == ToBinary(b[0], 8)[offset..] + rest by {
      DropConcat(ToBinary(b[0], 8), rest, offset);
    }
  }

  /** Dropping a prefix of the first part of a concatenation. */
  lemma DropConcat<T>(a: seq<T>, b: seq<T>, k: nat)
    requires k <= |a|
    ensures (a + b)[k..] == a[k..] + b
  {
  }

  /** `b &= 0xFF >> offset` clears the first offset bits of the byte and keeps the rest. */
  lemma MaskOffset(x: Byte, offset: nat)
    requires offset <= 7
    ensures And(x, Shr(255, offset)) < 256
    ensures ToBinary(And(x, Shr(255, offset)), 8) == Zeros(offset) + ToBinary(x, 8)[offset..]
  {
    var k := 8 - offset;
    var p, q := Pow2(k), Pow2(offset);
    Pow2Add(offset, k);
    Pow2Byte(8);
    ShrDiv(255, offset);
    DivModUnique(255, q, p - 1, q - 1);
    AndLowMask(x, k);
    var m := x % p;
    ToBinarySplit(m, offset, k);
    ToBinarySplit(x, offset, k);
    ToBinaryMod(x, k);
    ShrDiv(m, k);
    DivModUnique(m, p, 0, m);
    ToBinaryZero(offset);
  }

  lemma {:induction false} ToBinaryZero(n: nat)
    ensures ToBinary(0, n) == Zeros(n)
  {
    if n > 0 {
      ToBinaryZero(n - 1);
    }
  }

  /** Character i of a string is bits [7i, 7i+7) of its packed bits. */
  lemma {:induction false} SevenBitsAt(s: String, i: nat)
    requires i < |s|
    ensures SevenBits(s)[7 * i .. 7 * i + 7] == ToBinary(s[i], 7)
  {
    var front := s[..|s| - 1];
    assert SevenBits(s) == SevenBits(front) + ToBinary(s[|s| - 1], 7);
    if i < |s| - 1 {
      SevenBitsAt(front, i);
      assert SevenBits(s)[7 * i .. 7 * i + 7] == SevenBits(front)[7 * i .. 7 * i + 7];
    }
  }

  /** A slice that falls inside the middle part of a concatenation. */
  lemma SliceMiddle<T>(a: seq<T>, b: seq<T>, c: seq<T>, x: nat, y: nat)
    requires x <= y <= |b|
    ensures (a + b + c)[|a| + x .. |a| + y] == b[x..y]
  {
    var whole := a + b + c;
    forall k | 0 <= k < y - x
      ensures whole[|a| + x .. |a| + y][k] == b[x..y][k]
    {
      assert whole[|a| + x + k] == b[x + k];
    }
  }

  /** The shape of getASCII's output for a non-empty string, as its bits. */
  ghost predicate Packs(g: seq<Byte>, s: String, offset: nat) {
    8 * |g| == offset + 7 * |s| + Padding(offset + 7 * |s|)
    && BitString(g) == Zeros(offset) + SevenBits(s) + Zeros(Padding(offset + 7 * |s|))
  }

  /** Reading back character i of a packed string. */
  lemma PackedChar(g: seq<Byte>, s: String, offset: nat, i: nat)
    requires i < |s| && Packs(g, s, offset)
    requires forall k :: 0 <= k < |s| ==> s[k] < 128
    ensures offset + 7 * i + 7 <= 8 * |g|
    ensures BitsValue(g, offset + 7 * i, 7) == s[i]
  {
    var pad := Zeros(Padding(offset + 7 * |s|));
    BitsReference(g, offset + 7 * i, 7);
    SevenBitsAt(s, i);
    SliceMiddle(Zeros(offset), SevenBits(s), pad, 7 * i, 7 * i + 7);
    Pow2Byte(7);
    assert Pow2(7) == 128;
    FromToBinary(s[i], 7);
  }

  /** Reading back 7 bits of padding, when the padding holds 7 bits: a null. */
  lemma PackedPadChar(g: seq<Byte>, s: String, offset: nat)
    requires Packs(g, s, offset)
    requires offset + 7 * |s| + 7 <= 8 * |g|
    ensures BitsValue(g, offset + 7 * |s|, 7) == 0
  {
    var L := offset + 7 * |s|;
    var pad := Zeros(Padding(L));
    var front := Zeros(offset) + SevenBits(s);
    assert Padding(L) == 7;
    assert BitString(g)[L .. L + 7] == pad by {
      assert BitString(g) == front + pad && |front| == L;
    }
    BitsReference(g, L, 7);
    ToBinaryZero(7);
    FromToBinary(0, 7);
  }

  /** The null character the padding decodes to when 7 padding bits follow the last character. */
  function Trailer(s: String, offset: nat): (t: String)
    ensures |t| <= 1 && forall k :: 0 <= k < |t| ==> t[k] == NullASCII
  {
    if |s| > 0 && (offset + 7 * |s|) % 8 == 1 then [NullASCII] else []
  }

  /** The test packer's output holds the characters, and one more exactly when the padding is 7 bits. */
  lemma PackedCount(g: seq<Byte>, s: String, offset: nat)
    requires |s| > 0 && Packs(g, s, offset)
    ensures 8 * |g| - offset >= 7
    ensures (8 * |g| - offset) / 7 == |s| + |Trailer(s, offset)|
  {
    var pad := Padding(offset + 7 * |s|);
    assert 8 * |g| - offset == 7 * |s| + pad;
    DivModUnique(7 * |s| + pad, 7, |s| + |Trailer(s, offset)|, pad % 7);
  }

  /** The characters unpacked from the test packer's output. */
  lemma PackedChars(g: seq<Byte>, s: String, offset: nat, n: nat)
    requires |s| > 0 && Packs(g, s, offset)
    requires forall i :: 0 <= i < |s| ==> s[i] < 128
    requires n == |s| + |Trailer(s, offset)| && offset + 7 * n <= 8 * |g|
    ensures Chars(g, offset, n) == s + Trailer(s, offset)
  {
    var out := Chars(g, offset, n);
    CharsAt(g, offset, n);
    forall i | 0 <= i < n
      ensures out[i] == (s + Trailer(s, offset))[i]
    {
      if i < |s| {
        PackedChar(g, s, offset, i);
      } else {
        PackedPadChar(g, s, offset);
      }
    }
  }

  /** Unpacking any byte string of the packed shape. */
  lemma DecodePackedBits(g: seq<Byte>, s: String, offset: nat)
    requires offset <= 7 && |s| > 0 && Packs(g, s, offset)
    requires forall i :: 0 <= i < |s| ==> s[i] < 128
    ensures Decoded(g, offset) == Decoding(s + Trailer(s, offset), FirstNull(s), HasExtra(s))
  {
    PackedCount(g, s, offset);
    var n := |s| + |Trailer(s, offset)|;
    PackedChars(g, s, offset, n);
    DecodedChars(g, offset, n);
    if n > |s| {
      NullSnoc(s, NullASCII);
    } else {
      assert s + Trailer(s, offset) == s;
    }
  }

  /**
   * Unpacking what the test packer packed gives back the string, plus one
   * null when the padding holds 7 bits, with the string's own first null
   * and extra flag.
   */
  lemma DecodePacked(s: String, offset: nat)
    requires offset <= 7
    requires forall i :: 0 <= i < |s| ==> s[i] < 128
    ensures Decoded(GetASCII(s, offset), offset) == Decoding(s + Trailer(s, offset), FirstNull(s), HasExtra(s))
  {
    if |s| > 0 {
      var g := GetASCII(s, offset);
      assert Packs(g, s, offset);
      DecodePackedBits(g, s, offset);
    }
  }

  /**
   * The test suite's check: for text without nulls, the characters before
   * the first null are the text, and nothing follows them.
   */
  lemma DecodePackedText(s: String, offset: nat)
    requires offset <= 7
    requires forall i :: 0 <= i < |s| ==> 0 < s[i] < 128
    ensures Decoded(GetASCII(s, offset), offset).nullTerm == |s|
    ensures Decoded(GetASCII(s, offset), offset).out[..|s|] == s
    ensures !Decoded(GetASCII(s, offset), offset).extra
  {
    DecodePacked(s, offset);
    assert (s + Trailer(s, offset))[..|s|] == s;
  }

  // ---------------------------------------------------------------------
  // GS1 escapes

  const Percent: Byte := '%' as int

  /** A GS1 escape sequence: '%' and two hexadecimal digits. */
  function Esc(hi: Byte, lo: Byte): (e: String)
    ensures |e| == 3 && e[0] == Percent
  {
    [Percent, hi, lo]
  }

  /** The eight characters gs1Escaper replaces. */
  predicate Reserved(c: Byte) {
    c == '"' as int || c == '#' as int || c == '%' as int || c == '&' as int
    || c == '/' as int || c == '<' as int || c == '>' as int || c == '?' as int
  }

  /** gs1Escaper on one byte: a reserved character becomes its escape sequence and null is dropped. */
  function EscapeByte(c: Byte): (e: String)
    ensures e == [] <==> c == NullASCII
    ensures !Reserved(c) && c != NullASCII ==> e == [c]
    ensures forall k :: 0 <= k < |e| ==> e[k] != NullASCII && (Reserved(e[k]) ==> e[k] == Percent)
  {
    if c == '"' as int then Esc('2' as int, '2' as int)
    else if c == '#' as int then Esc('2' as int, '3' as int)
    else if c == '%' as int then Esc('2' as int, '5' as int)
    else if c == '&' as int then Esc('2' as int, '6' as int)
    else if c == '/' as int then Esc('2' as int, 'F' as int)
    else if c == '<' as int then Esc('3' as int, 'C' as int)
    else if c == '>' as int then Esc('3' as int, 'E' as int)
    else if c == '?' as int then Esc('3' as int, 'F' as int)
    else if c == NullASCII then []
    else [c]
  }

  /** gs1Unescaper's table: the character a 3-byte escape sequence stands for. */
  function UnescapeCode(t: String): (c: Option<Byte>)
    requires |t| == 3
    ensures c.Some? ==> t[0] == Percent
  {
    if t == Esc('2' as int, '2' as int) then Some('"' as int)
    else if t == Esc('2' as int, '3' as int) then Some('#' as int)
    else if t == Esc('2' as int, '5' as int) then Some('%' as int)
    else if t == Esc('2' as int, '6' as int) then Some('&' as int)
    else if t == Esc('2' as int, 'F' as int) then Some('/' as int)
    else if t == Esc('3' as int, 'C' as int) then Some('<' as int)
    else if t == Esc('3' as int, 'E' as int) then Some('>' as int)
    else if t == Esc('3' as int, 'F' as int) then Some('?' as int)
    else None
  }

  /** EscapeGS1: every byte replaced on its own. */
  function Escape(s: String): (r: String)
    ensures forall k :: 0 <= k < |r| ==> r[k] != NullASCII && (Reserved(r[k]) ==> r[k] == Percent)
  {
    if |s| == 0 then [] else EscapeByte(s[0]) + Escape(s[1..])
  }

  /**
   * UnescapeGS1: scanning left to right, an escape sequence is replaced by
   * its character and scanning resumes after it; any other byte is kept.
   */
  function Unescape(s: String): (r: String)
    ensures |r| <= |s|
  {
    if |s| == 0 then []
    else if |s| >= 3 && UnescapeCode(s[..3]).Some? then [UnescapeCode(s[..3]).value] + Unescape(s[3..])
    else [s[0]] + Unescape(s[1..])
  }

  /** s without its null bytes. */
  function DropNulls(s: String): (r: String)
    ensures forall k :: 0 <= k < |r| ==> r[k] != NullASCII
    ensures (forall k :: 0 <= k < |s| ==> s[k] != NullASCII) ==> r == s
  {
    if |s| == 0 then [] else (if s[0] == NullASCII then [] else [s[0]]) + DropNulls(s[1..])
  }

  /** Unescaping an escaped byte followed by anything. */
  lemma UnescapeFront(c: Byte, t: String)
    ensures Unescape(EscapeByte(c) + t) == DropNulls([c]) + Unescape(t)
  {
    var e := EscapeByte(c);
    assert (e + t)[..|e|] == e && (e + t)[|e|..] == t;
    assert DropNulls([c]) == (if c == NullASCII then [] else [c]) + DropNulls([]);
    if |e| == 3 {
      assert UnescapeCode(e) == Some(c);
    }
  }

  /** UnescapeGS1 undoes EscapeGS1, except that the nulls EscapeGS1 dropped stay dropped. */
  lemma {:induction false} UnescapeEscape(s: String)
    ensures Unescape(Escape(s)) == DropNulls(s)
    ensures (forall k :: 0 <= k < |s| ==> s[k] != NullASCII) ==> Unescape(Escape(s)) == s
  {
    if |s| > 0 {
      var rest := Escape(s[1..]);
      assert Escape(s) == EscapeByte(s[0]) + rest;
      UnescapeEscape(s[1..]);
      UnescapeFront(s[0], rest);
      assert DropNulls([s[0]]) == (if s[0] == NullASCII then [] else [s[0]]) + DropNulls([]);
      assert DropNulls(s) == DropNulls([s[0]]) + DropNulls(s[1..]);
    }
  }

  /** Dropping nulls first does not change the escaped text. */
  lemma {:induction false} EscapeDropNulls(s: String)
    ensures Escape(DropNulls(s)) == Escape(s)
  {
    if |s| > 0 {
      EscapeDropNulls(s[1..]);
      var head := if s[0] == NullASCII then [] else [s[0]];
      var rest := DropNulls(s[1..]);
      assert DropNulls(s) == head + rest;
      assert Escape(s) == EscapeByte(s[0]) + Escape(s[1..]);
      if s[0] != NullASCII {
        assert (head + rest)[0] == s[0] && (head + rest)[1..] == rest;
        assert Escape(head + rest) == EscapeByte(s[0]) + Escape(rest);
      } else {
        assert head + rest == rest;
      }
    }
  }

  /** On escaped text, unescaping and escaping again is the identity. */
  lemma EscapeUnescape(s: String)
    ensures Escape(Unescape(Escape(s))) == Escape(s)
  {
    UnescapeEscape(s);
    EscapeDropNulls(s);
  }

  /** EscapeGS1 leaves text without reserved characters and nulls unchanged. */
  lemma {:induction false} EscapePlain(s: String)
    requires forall k :: 0 <= k < |s| ==> s[k] != NullASCII && !Reserved(s[k])
    ensures Escape(s) == s
  {
    if |s| > 0 {
      EscapePlain(s[1..]);
      assert s == [s[0]] + s[1..];
    }
  }

  /** An escape sequence of gs1Unescaper's table starts at index k of s. */
  predicate EscapeAt(s: String, k: nat) {
    k + 3 <= |s| && UnescapeCode(s[k .. k + 3]).Some?
  }

  /** UnescapeGS1 leaves text without escape sequences unchanged ("%10", say). */
  lemma {:induction false} UnescapePlain(s: String)
    requires forall k :: 0 <= k < |s| ==> !EscapeAt(s, k)
    ensures Unescape(s) == s
  {
    if |s| > 0 {
      if |s| >= 3 {
        assert !EscapeAt(s, 0);
        assert s[..3] == s[0 .. 3];
      }
      forall k | 0 <= k < |s[1..]|
        ensures !EscapeAt(s[1..], k)
      {
        assert !EscapeAt(s, k + 1);
        if k + 3 <= |s[1..]| {
          assert s[1..][k .. k + 3] == s[k + 1 .. k + 4];
        }
      }
      UnescapePlain(s[1..]);
      assert s == [s[0]] + s[1..];
    }
  }

  // ---------------------------------------------------------------------
  // GS1 character sets

  /** The GS1 Application Identifier character set (gs1AICharSet). */
  predicate AIChar(c: int) {
    c == '!' as int || c == '"' as int || '%' as int <= c <= '/' as int || '0' as int <= c <= '?' as int
    || c == '_' as int || 'A' as int <= c <= 'Z' as int || 'a' as int <= c <= 'z' as int
  }

  /** The character set for GS1 Component and Parts identifiers (gs1AICPCharSet). */
  predicate CPChar(c: int) {
    c == '#' as int || c == '-' as int || c == '/' as int || '0' as int <= c <= '9' as int
    || 'A' as int <= c <= 'Z' as int
  }

  /** A lookup table for the bytes below size: entry c is set when c is in the set. */
  function Table(size: nat, inSet: int -> bool): (t: seq<bool>)
    ensures |t| == size && forall c :: 0 <= c < size ==> t[c] == inSet(c)
  {
    seq(size, c => inSet(c))
  }

  /**
   * The encodability loop from index i on: a byte before the first null
   * passes when it is at most 127 and table[byte & 0x7F] is set, and at the
   * first null the rest must be null.  (Go ranges over runes, but every byte
   * before a first byte above 127 is a rune of its own, so the verdict is
   * this one.)  The looked-up entries must lie inside the table.
   */
  function EncodableFrom(s: String, table: seq<bool>, i: nat): (ok: bool)
    requires i <= |s|
    requires forall j :: 0 <= j < i ==> s[j] != NullASCII
    requires forall k :: i <= k < FirstNull(s) && s[k] <= 127 ==> s[k] < |table|
    ensures ok <==> (forall k :: i <= k < FirstNull(s) ==> s[k] <= 127 && table[s[k]])
                    && (forall k :: FirstNull(s) <= k < |s| ==> s[k] == NullASCII)
    decreases |s| - i
  {
    FirstNullSpec(s);
    if i == |s| then
      assert FirstNull(s) == i;
      true
    else if s[i] == NullASCII then
      assert FirstNull(s) == i;
      // the inner loop: true when only nulls follow
      forall k :: i < k < |s| ==> s[k] == NullASCII
    else
      assert FirstNull(s) > i;
      var low := And(s[i], 0x7F);
      LowSevenBits(s[i]);
      if !(s[i] <= 127 && table[low]) then
        false
      else
        EncodableFrom(s, table, i + 1)
  }

  /** `c & 0x7F` is c itself for a 7-bit byte. */
  lemma LowSevenBits(c: Byte)
    ensures c <= 127 ==> And(c, 0x7F) == c
  {
    AndLowMask(c, 7);
    Pow2Byte(7);
    assert Pow2(7) == 128;
    if c <= 127 {
      DivModUnique(c, 128, 0, c);
    }
  }

  /** gs1AICharSet and gs1AICPCharSet as declared: [127]uint8, so entry 127 does not exist. */
  const AICharSet127: seq<bool> := Table(127, AIChar)
  const CPCharSet127: seq<bool> := Table(127, CPChar)

  /** The tables with all 128 entries a 7-bit index can reach. */
  const AICharSet: seq<bool> := Table(128, AIChar)
  const CPCharSet: seq<bool> := Table(128, CPChar)

  /** No DEL (127) before the first null: the bytes the [127] tables can be indexed with. */
  predicate NoDelBeforeNull(s: String) {
    forall k :: 0 <= k < FirstNull(s) ==> s[k] != 127
  }

  /** IsGS1AIEncodable as written; DEL before the first null indexes past the table and panics. */
  function IsGS1AIEncodableAsWritten(s: String): (ok: bool)
    requires NoDelBeforeNull(s)
    ensures ok == IsGS1AIEncodable(s)
  {
    EncodableFrom(s, AICharSet127, 0)
  }

  /** IsGS1CompPartEncodable as written; the same panic on DEL. */
  function IsGS1CompPartEncodableAsWritten(s: String): (ok: bool)
    requires NoDelBeforeNull(s)
    ensures ok == IsGS1CompPartEncodable(s)
  {
    EncodableFrom(s, CPCharSet127, 0)
  }

  /**
   * IsGS1AIEncodable over a 128-entry table: every byte before the first
   * null is in the GS1 AI character set, and only nulls follow it.
   */
  function IsGS1AIEncodable(s: String): (ok: bool)
    ensures ok <==> (forall k :: 0 <= k < FirstNull(s) ==> AIChar(s[k]))
                    && (forall k :: FirstNull(s) <= k < |s| ==> s[k] == NullASCII)
  {
    EncodableFrom(s, AICharSet, 0)
  }

  /** IsGS1CompPartEncodable over a 128-entry table, with the Component and Parts set. */
  function IsGS1CompPartEncodable(s: String): (ok: bool)
    ensures ok <==> (forall k :: 0 <= k < FirstNull(s) ==> CPChar(s[k]))
                    && (forall k :: FirstNull(s) <= k < |s| ==> s[k] == NullASCII)
  {
    EncodableFrom(s, CPCharSet, 0)
  }

  /**
   * The guard s[i] <= 127 lets DEL through to entry 127 of a 127-entry
   * table; with the full table DEL is simply not encodable.
   */
  lemma DelPastTable()
    ensures !NoDelBeforeNull([127])
    ensures And(127, 0x7F) == |AICharSet127| == |CPCharSet127|
    ensures !IsGS1AIEncodable([127]) && !IsGS1CompPartEncodable([127])
  {
    AndLowMask(127, 7);
    assert FirstNull([127]) == 1;
  }
}
