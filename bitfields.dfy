/**
 * BitExploder and BitReader (bitextract/bitfields.go): a list of bit widths
 * becomes a chain of BitExtractors at cumulative offsets, which explode a
 * byte buffer into one right-aligned byte slice per field; BitReader hands
 * the fields out one at a time.
 */
module BitFields {
  import opened Wrappers
  import opened Bits
  import opened BitExtract
  import Text

  /** Why a widths list or a data buffer is refused. */
  datatype Error =
    | EmptyWidths
    | NonPositiveWidth(index: nat, width: int)
    | ShortData(bits: nat, needed: nat)

  /** The two errors BitReader.Read reports: io.EOF and io.ErrShortBuffer. */
  datatype ReadError = EOF | ShortBuffer

  /** A Go byte slice: a window of len bytes of arr starting at off. */
  datatype Slice = Slice(arr: array<Byte>, off: nat, len: nat)

  /** The bit offset of field i: the sum of the widths before it. */
  function Offset(ws: seq<int>, i: nat): int
    requires i <= |ws|
  {
    if i == 0 then 0 else Offset(ws, i - 1) + ws[i - 1]
  }

  /** Widths before index i are all at least one bit. */
  predicate Positive(ws: seq<int>, i: nat)
    requires i <= |ws|
  {
    forall k :: 0 <= k < i ==> ws[k] >= 1
  }

  /** The index of the first width below 1 at or after i, or |ws| when there is none. */
  function FirstNonPositive(ws: seq<int>, i: nat): (p: nat)
    requires i <= |ws|
    ensures i <= p <= |ws|
    ensures forall k :: i <= k < p ==> ws[k] >= 1
    ensures p < |ws| ==> ws[p] <= 0
    decreases |ws| - i
  {
    if i == |ws| then |ws| else if ws[i] <= 0 then i else FirstNonPositive(ws, i + 1)
  }

  /** The destination bytes the first i fields take: each the fewest bytes its bits fit in. */
  function ExplodedBytes(ws: seq<int>, i: nat): nat
    requires i <= |ws| && Positive(ws, i)
  {
    if i == 0 then 0 else ExplodedBytes(ws, i - 1) + ByteCount(ws[i - 1])
  }

  /** Over positive widths the offsets only grow. */
  lemma {:induction false} OffsetMonotone(ws: seq<int>, i: nat, j: nat)
    requires i <= j <= |ws| && Positive(ws, j)
    ensures Offset(ws, i) <= Offset(ws, j)
    ensures i < j ==> Offset(ws, i) + ws[i] <= Offset(ws, j)
    decreases j - i
  {
    if i < j {
      OffsetMonotone(ws, i + 1, j);
    }
  }

  /** The exploded byte counts only grow too, by at least each field's bytes. */
  lemma {:induction false} ExplodedBytesMonotone(ws: seq<int>, i: nat, j: nat)
    requires i <= j <= |ws| && Positive(ws, j)
    ensures ExplodedBytes(ws, i) <= ExplodedBytes(ws, j)
    ensures i < j ==> ExplodedBytes(ws, i) + ByteCount(ws[i]) <= ExplodedBytes(ws, j)
    decreases j - i
  {
    if i < j {
      ExplodedBytesMonotone(ws, i + 1, j);
    }
  }

  /** Each field takes ceil(w/8) destination bytes. */
  lemma {:induction false} ByteCountCeil(w: nat)
    requires w >= 1
    ensures ByteCount(w) == (w + 7) / 8
  {
    if w > 8 {
      ByteCountCeil(w - 8);
    }
  }

  /** The widths 1, 8, 16, 2, 9, 17 explode into 10 bytes. */
  lemma ExplodedBytesExample()
    ensures ExplodedBytes([1, 8, 16, 2, 9, 17], 6) == 10
  {
    var ws := [1, 8, 16, 2, 9, 17];
    ByteCountCeil(16);
    ByteCountCeil(9);
    ByteCountCeil(17);
    assert ExplodedBytes(ws, 6) == ByteCount(1) + ByteCount(8) + ByteCount(16) + ByteCount(2) + ByteCount(9) + ByteCount(17);
  }

  /** A source whose bits cover a range also covers the extractor's source window. */
  lemma {:induction false} WindowFits(l: Layout, start: nat, len: nat, data: nat)
    requires Describes(l, start, len) && start + len <= 8 * data
    ensures l.byteStart + l.srcLen <= data
  {
  }

  /** The slices, taken over the first n, pairwise share no byte. */
  ghost predicate Disjoint(dst: seq<Slice>, n: nat)
    requires n <= |dst|
  {
    forall i, j :: 0 <= i < n && 0 <= j < n && i != j && dst[i].arr == dst[j].arr ==>
      dst[i].off + dst[i].len <= dst[j].off || dst[j].off + dst[j].len <= dst[i].off
  }

  /** Bytes off .. off+|w| of s are w. */
  ghost predicate Has(s: seq<Byte>, off: nat, w: seq<Byte>)
  {
    off + |w| <= |s| && forall k :: 0 <= k < |w| ==> s[off + k] == w[k]
  }

  /** Bytes off .. off+|w| of a hold w. */
  ghost predicate Holds(a: array<Byte>, off: nat, w: seq<Byte>)
    reads a
  {
    Has(a[..], off, w)
  }

  /**
   * Writing w over bytes off .. off+|w| of before, and nothing else, leaves
   * after holding w there and every other byte as it was.
   */
  lemma {:induction false} WindowWritten(before: seq<Byte>, after: seq<Byte>, off: nat, w: seq<Byte>)
    requires |before| == |after| && off + |w| <= |after|
    requires after[off .. off + |w|] == w
    requires after[..off] == before[..off] && after[off + |w| ..] == before[off + |w| ..]
    ensures Has(after, off, w)
    ensures forall k :: 0 <= k < |after| && (k < off || off + |w| <= k) ==> after[k] == before[k]
  {
    forall k | 0 <= k < |w|
      ensures after[off + k] == w[k]
    {
      assert after[off .. off + |w|][k] == w[k];
    }
    forall k | 0 <= k < |after| && (k < off || off + |w| <= k)
      ensures after[k] == before[k]
    {
      if k < off {
        assert after[..off][k] == before[..off][k];
      } else {
        assert after[off + |w| ..][k - off - |w|] == before[off + |w| ..][k - off - |w|];
      }
    }
  }

  /** A window the write does not touch keeps what it had. */
  lemma {:induction false} WindowKept(before: seq<Byte>, after: seq<Byte>, off: nat, d: nat, boff: nat, w: seq<Byte>)
    requires |before| == |after| && Has(before, boff, w)
    requires boff + |w| <= off || off + d <= boff
    requires forall k :: 0 <= k < |after| && (k < off || off + d <= k) ==> after[k] == before[k]
    ensures Has(after, boff, w)
  {
    forall k | 0 <= k < |w|
      ensures after[boff + k] == w[k]
    {
      assert before[boff + k] == w[k];
    }
  }

  /** An extractor set up for bits [start, start+len). */
  ghost predicate Extracts(e: BitExtractor?, start: int, len: int)
    reads e
  {
    e != null && e.Valid() && e.bitStart == start && e.length == len
  }

  /** Bytes off .. off+|w| of a read back as w. */
  lemma {:induction false} HoldsSlice(a: array<Byte>, off: nat, w: seq<Byte>)
    requires Holds(a, off, w)
    ensures a[off .. off + |w|] == w
  {
    forall k | 0 <= k < |w|
      ensures a[off .. off + |w|][k] == w[k]
    {
      assert a[..][off + k] == w[k];
    }
  }

  /**
   * Field i of data: the reference extraction of bits
   * [Offset(i), Offset(i) + ws[i]).
   */
  ghost function FieldOf(ws: seq<int>, data: seq<Byte>, i: nat): seq<Byte>
    requires i < |ws| && Positive(ws, |ws|) && Offset(ws, |ws|) <= 8 * |data|
  {
    OffsetMonotone(ws, 0, i);
    OffsetMonotone(ws, i, |ws|);
    ExtractedBytes(data, Offset(ws, i), ws[i])
  }

  /** The value of field i's bits of data, most significant bit first. */
  ghost function FieldValue(ws: seq<int>, data: seq<Byte>, i: nat): nat
    requires i < |ws| && Positive(ws, |ws|) && Offset(ws, |ws|) <= 8 * |data|
  {
    OffsetMonotone(ws, 0, i);
    OffsetMonotone(ws, i, |ws|);
    BitsValue(data, Offset(ws, i), ws[i])
  }

  /** Field i, read as a big-endian number, is the value of its bits. */
  lemma FieldOfValue(ws: seq<int>, data: seq<Byte>, i: nat)
    requires i < |ws| && Positive(ws, |ws|) && Offset(ws, |ws|) <= 8 * |data|
    ensures BigEndian(FieldOf(ws, data, i)) == FieldValue(ws, data, i)
  {
    OffsetMonotone(ws, 0, i);
    OffsetMonotone(ws, i, |ws|);
    ExtractedValue(data, Offset(ws, i), ws[i]);
  }

  /** Every field of data, in order. */
  ghost function Fields(ws: seq<int>, data: seq<Byte>): (r: seq<seq<Byte>>)
    requires Positive(ws, |ws|) && Offset(ws, |ws|) <= 8 * |data|
  {
    seq(|ws|, i requires 0 <= i < |ws| => FieldOf(ws, data, i))
  }

  /**
   * One step of ExplodeTo: extractor be writes want[idx] into the head of
   * dst[idx], keeping what the earlier fields hold and every byte outside
   * that head.
   */
  method ExtractOne(be: BitExtractor, dst: seq<Slice>, idx: nat, data: seq<Byte>, ghost want: seq<seq<Byte>>)
    requires idx < |dst| && idx < |want|
    requires be.Valid() && be.byteStart + be.srcLen <= |data| && be.bitStart + be.length <= 8 * |data|
    requires ExtractedBytes(data, be.bitStart, be.length) == want[idx]
    requires dst[idx].off + |want[idx]| <= dst[idx].arr.Length
    requires forall i {:trigger dst[i]} :: 0 <= i < idx && dst[i].arr == dst[idx].arr ==>
      dst[i].off + |want[i]| <= dst[idx].off || dst[idx].off + |want[idx]| <= dst[i].off
    requires forall i {:trigger want[i]} :: 0 <= i < idx ==> Holds(dst[i].arr, dst[i].off, want[i])
    modifies dst[idx].arr
    ensures forall i {:trigger want[i]} :: 0 <= i <= idx ==> Holds(dst[i].arr, dst[i].off, want[i])
    ensures forall k :: 0 <= k < dst[idx].arr.Length && (k < dst[idx].off || dst[idx].off + |want[idx]| <= k) ==>
      dst[idx].arr[k] == old(dst[idx].arr[k])
  {
    var a, off := dst[idx].arr, dst[idx].off;
    ghost var before := a[..];
    be.ExtractTo(a, off, data);
    WindowWritten(before, a[..], off, want[idx]);
    forall i | 0 <= i < idx && dst[i].arr == a
      ensures Holds(dst[i].arr, dst[i].off, want[i])
    {
      WindowKept(before, a[..], off, |want[idx]|, dst[i].off, want[i]);
    }
  }

  /**
   * The loop of ExplodeTo: extractor i writes its bytes, want[i], into the
   * head of dst[i]; bytes outside those heads are kept.
   */
  method ExtractAll(exs: seq<BitExtractor?>, dst: seq<Slice>, data: seq<Byte>, ghost want: seq<seq<Byte>>)
    requires |exs| == |want| <= |dst|
    requires forall i {:trigger exs[i]} :: 0 <= i < |exs| ==>
      && exs[i] != null && exs[i].Valid()
      && exs[i].byteStart + exs[i].srcLen <= |data|
      && exs[i].bitStart + exs[i].length <= 8 * |data|
      && ExtractedBytes(data, exs[i].bitStart, exs[i].length) == want[i]
    requires forall i {:trigger dst[i]} :: 0 <= i < |exs| ==> dst[i].off + |want[i]| <= dst[i].arr.Length
    requires forall i, j {:trigger dst[i], dst[j]} :: 0 <= i < j < |exs| && dst[i].arr == dst[j].arr ==>
      dst[i].off + |want[i]| <= dst[j].off || dst[j].off + |want[j]| <= dst[i].off
    modifies set i | 0 <= i < |exs| :: dst[i].arr
    ensures forall i {:trigger want[i]} :: 0 <= i < |exs| ==> Holds(dst[i].arr, dst[i].off, want[i])
    ensures forall i, k :: 0 <= i < |exs| && 0 <= k < dst[i].arr.Length && Unwritten(dst, want, |exs|, dst[i].arr, k) ==>
      dst[i].arr[k] == old(dst[i].arr[k])
  {
    var idx := 0;
    while idx < |exs|
      invariant idx <= |exs|
      invariant forall i {:trigger want[i]} :: 0 <= i < idx ==> Holds(dst[i].arr, dst[i].off, want[i])
      invariant forall i, k :: 0 <= i < |exs| && 0 <= k < dst[i].arr.Length && Unwritten(dst, want, idx, dst[i].arr, k) ==>
        dst[i].arr[k] == old(dst[i].arr[k])
    {
      label L:
      ExtractOne(exs[idx], dst, idx, data, want);
      forall i, k | 0 <= i < |exs| && 0 <= k < dst[i].arr.Length && Unwritten(dst, want, idx + 1, dst[i].arr, k)
        ensures dst[i].arr[k] == old(dst[i].arr[k])
      {
        assert Unwritten(dst, want, idx, dst[i].arr, k);
        assert dst[i].arr[k] == old@L(dst[i].arr[k]);
      }
      idx := idx + 1;
    }
  }

  /** What the slices hold, read back: want, when each slice holds its entry. */
  method SliceContents(bt: seq<Slice>, ghost want: seq<seq<Byte>>) returns (fields: seq<seq<Byte>>)
    requires |bt| == |want|
    requires forall i {:trigger bt[i]} :: 0 <= i < |bt| ==> bt[i].len == |want[i]| && Holds(bt[i].arr, bt[i].off, want[i])
    ensures fields == want
  {
    fields := seq(|bt|, i requires 0 <= i < |bt| reads set j | 0 <= j < |bt| :: bt[j].arr =>
      if bt[i].off + bt[i].len <= bt[i].arr.Length then bt[i].arr[bt[i].off .. bt[i].off + bt[i].len] else []);
    forall i | 0 <= i < |bt|
      ensures fields[i] == want[i]
    {
      HoldsSlice(bt[i].arr, bt[i].off, want[i]);
    }
  }

  /** n zero bytes. */
  function Zeros(n: nat): (r: seq<Byte>)
    ensures |r| == n && forall i :: 0 <= i < n ==> r[i] == 0
  {
    seq(n, _ => 0)
  }

  /** Bytes right-aligned behind zeros read, big-endian, as the bytes alone. */
  lemma {:induction false} RightAligned(s: seq<Byte>, z: nat, w: seq<Byte>)
    requires z + |w| == |s| && s[..z] == Zeros(z) && s[z .. z + |w|] == w
    ensures s == Zeros(z) + w
    ensures BigEndian(s) == BigEndian(w)
  {
    assert s == s[..z] + s[z .. z + |w|];
    BigEndianLeadingZeros(Zeros(z), w);
  }

  /**
   * The body of BitReader.Read once the buffer is known to be large enough:
   * the bytes before the last dstLen are zeroed and the field is extracted
   * into the tail, so p read big-endian is the value of the field's bits.
   */
  method ExtractRight(ex: BitExtractor, p: array<Byte>, data: seq<Byte>, ghost w: seq<Byte>)
    requires ex.Valid() && ex.byteStart + ex.srcLen <= |data| && ex.dstLen <= p.Length
    requires ex.bitStart + ex.length <= 8 * |data|
    requires w == ExtractedBytes(data, ex.bitStart, ex.length)
    modifies p
    ensures p[..] == Zeros(p.Length - |w|) + w
    ensures BigEndian(p[..]) == BigEndian(w)
  {
    var z := p.Length - ex.dstLen;
    ZeroPrefix(p, z);
    ex.ExtractTo(p, z, data);
    RightAligned(p[..], z, w);
  }

  /** Read's clearing loop: p[..z] becomes zero, the rest of p is kept. */
  method ZeroPrefix(p: array<Byte>, z: nat)
    requires z <= p.Length
    modifies p
    ensures p[..z] == Zeros(z)
    ensures p[z..] == old(p[z..])
  {
    var i := 0;
    while i < z
      invariant i <= z
      invariant forall k :: 0 <= k < i ==> p[k] == 0
      invariant p[z..] == old(p[z..])
    {
      p[i] := 0;
      i := i + 1;
    }
    assert p[..z] == Zeros(z);
  }

  /**
   * Lays slices of the given lengths end to end over big, as Buffer does:
   * slice i starts where the fields before it end.
   */
  method Carve(big: array<Byte>, exs: seq<BitExtractor?>, ghost ws: seq<int>) returns (bt: seq<Slice>)
    requires |exs| == |ws| >= 1 && Positive(ws, |ws|) && ExplodedBytes(ws, |ws|) <= big.Length
    requires forall i {:trigger exs[i]} :: 0 <= i < |exs| ==> exs[i] != null && exs[i].dstLen == ByteCount(ws[i])
    ensures |bt| == |exs|
    ensures forall i {:trigger bt[i]} :: 0 <= i < |bt| ==>
      && bt[i] == Slice(big, ExplodedBytes(ws, i), ByteCount(ws[i]))
      && bt[i].off + bt[i].len <= big.Length
    ensures forall i {:trigger bt[i]} :: 0 <= i < |bt| - 1 ==> bt[i].off + bt[i].len == bt[i + 1].off
  {
    bt := [];
    var pos := 0;
    var i := 0;
    while i < |exs|
      invariant i <= |exs| && |bt| == i && pos == ExplodedBytes(ws, i)
      invariant forall k {:trigger bt[k]} :: 0 <= k < i ==> bt[k] == Slice(big, ExplodedBytes(ws, k), ByteCount(ws[k]))
    {
      var n := exs[i].dstLen;
      bt := bt + [Slice(big, pos, n)];
      pos := pos + n;
      i := i + 1;
    }
    forall k | 0 <= k < |bt|
      ensures bt[k].off + bt[k].len <= big.Length
    {
      ExplodedBytesMonotone(ws, k + 1, |ws|);
    }
  }

  /**
   * The loop of SetWidths: one fresh extractor per width, each starting
   * where the previous one ends, until the first width below 1, with the
   * bits and destination bytes of the extractors made.
   */
  method NewExtractors(ws: seq<int>) returns (exs: seq<BitExtractor?>, bits: nat, bytes: nat, ghost repr: set<BitExtractor>)
    requires Offset(ws, FirstNonPositive(ws, 0)) <= MaxInt
    ensures var p := FirstNonPositive(ws, 0);
      && |exs| == |ws| && bits == Offset(ws, p) && bytes == ExplodedBytes(ws, p)
      && (forall i {:trigger exs[i]} :: 0 <= i < p ==>
            exs[i] in repr && fresh(exs[i]) && Extracts(exs[i], Offset(ws, i), ws[i]))
      && (forall i {:trigger exs[i]} :: p <= i < |ws| ==> exs[i] == null)
    ensures fresh(repr)
  {
    ghost var p := FirstNonPositive(ws, 0);
    exs := seq(|ws|, _ => null);
    bits, bytes, repr := 0, 0, {};
    var i := 0;
    while i < |ws|
      invariant i <= p && |exs| == |ws| && fresh(repr)
      invariant bits == Offset(ws, i) && bytes == ExplodedBytes(ws, i)
      invariant forall k {:trigger exs[k]} :: 0 <= k < i ==>
        exs[k] in repr && fresh(exs[k]) && Extracts(exs[k], Offset(ws, k), ws[k])
      invariant forall k {:trigger exs[k]} :: i <= k < |ws| ==> exs[k] == null
    {
      var w := ws[i];
      if w <= 0 {
        return;
      }
      OffsetMonotone(ws, i + 1, p);
      var be := new BitExtractor(bits, w);
      var n := be.ByteLength();
      exs, repr, bits, bytes := exs[i := be], repr + {be}, bits + w, bytes + n;
      i := i + 1;
    }
  }

  /** Byte k of a lies outside the head of dst[j] that fields[j] is written to, for every j below m. */
  ghost predicate Unwritten(dst: seq<Slice>, fields: seq<seq<Byte>>, m: nat, a: array<Byte>, k: int)
    requires m <= |fields| && m <= |dst|
  {
    forall j {:trigger dst[j]} :: 0 <= j < m && dst[j].arr == a ==>
      k < dst[j].off || dst[j].off + |fields[j]| <= k
  }

  /** The slices fit their arrays, hold their fields' bytes and do not overlap. */
  ghost predicate Destinations(dst: seq<Slice>, ws: seq<int>)
    requires Positive(ws, |ws|)
  {
    && |dst| >= |ws|
    && (forall i {:trigger dst[i]} :: 0 <= i < |ws| ==>
          dst[i].off + dst[i].len <= dst[i].arr.Length && ByteCount(ws[i]) <= dst[i].len)
    && Disjoint(dst, |ws|)
  }

  /** Slices laid end to end are Destinations. */
  lemma {:induction false} CarvedDestinations(bt: seq<Slice>, ws: seq<int>)
    requires |bt| == |ws| && Positive(ws, |ws|)
    requires forall i {:trigger bt[i]} :: 0 <= i < |bt| ==>
      && bt[i] == Slice(bt[0].arr, ExplodedBytes(ws, i), ByteCount(ws[i]))
      && bt[i].off + bt[i].len <= bt[i].arr.Length
    ensures Destinations(bt, ws)
  {
    forall i, j | 0 <= i < j < |bt|
      ensures bt[i].off + bt[i].len <= bt[j].off
    {
      ExplodedBytesMonotone(ws, i, j);
    }
  }

  class BitExploder {
    var bitLength: nat
    var expByteLen: nat
    var extractors: seq<BitExtractor?>
    /** The widths of the last SetWidths call. */
    ghost var widths: seq<int>
    /** The extractors the exploder owns. */
    ghost var Repr: set<BitExtractor>

    /**
     * After a successful SetWidths: extractor i covers bits
     * [Offset(i), Offset(i) + widths[i]); the bit length is the sum of the
     * widths and fits a Go int; the exploded length covers every field.
     */
    ghost predicate Valid()
      reads this, Repr
    {
      && |widths| >= 1 && |extractors| == |widths|
      && Positive(widths, |widths|)
      && bitLength == Offset(widths, |widths|) <= MaxInt
      && expByteLen >= ExplodedBytes(widths, |widths|)
      && forall i {:trigger extractors[i]} :: 0 <= i < |extractors| ==>
           extractors[i] in Repr && Extracts(extractors[i], Offset(widths, i), widths[i])
    }

    /** The zero value BitExploder{}. */
    constructor()
      ensures bitLength == 0 && expByteLen == 0 && extractors == []
    {
      bitLength, expByteLen, extractors := 0, 0, [];
    }

    /**
     * SetWidths: an empty list is refused with nothing changed; otherwise the
     * extractors are rebuilt width by width until a width below 1 stops it
     * with an error, leaving the fields before it set up and the rest nil.
     * expByteLen is added to and never reset.  Go's SetBounds panics when an
     * offset overflows int; that is the precondition.
     */
    method SetWidths(ws: seq<int>) returns (err: Outcome<Error>)
      requires Offset(ws, FirstNonPositive(ws, 0)) <= MaxInt
      modifies this
      ensures |ws| == 0 ==> err == Fail(EmptyWidths) && unchanged(this)
      ensures |ws| > 0 ==>
        var p := FirstNonPositive(ws, 0);
        && widths == ws && |extractors| == |ws|
        && bitLength == Offset(ws, p)
        && expByteLen == old(expByteLen) + ExplodedBytes(ws, p)
        && (forall i {:trigger extractors[i]} :: 0 <= i < p ==>
              Extracts(extractors[i], Offset(ws, i), ws[i]) && fresh(extractors[i]))
        && (forall i {:trigger extractors[i]} :: p <= i < |ws| ==> extractors[i] == null)
        && (p == |ws| ==> err == Pass)
        && (p < |ws| ==> err == Fail(NonPositiveWidth(p, ws[p])))
      ensures err == Pass ==> Valid()
    {
      if |ws| == 0 {
        return Fail(EmptyWidths);
      }
      var exs, bits, bytes, repr := NewExtractors(ws);
      extractors, bitLength, expByteLen, widths, Repr := exs, bits, expByteLen + bytes, ws, repr;
      var p := FirstNonPositive(ws, 0);
      if p < |ws| {
        return Fail(NonPositiveWidth(p, ws[p]));
      }
      return Pass;
    }

    /** The number of fields: one per width. */
    function NumFields(): (n: nat)
      reads this, Repr
      requires Valid()
      ensures n == |widths| >= 1
    {
      |extractors|
    }

    /** The total bit length: where the last field ends. */
    function BitLength(): (n: nat)
      reads this, Repr
      requires Valid()
      ensures n == Offset(widths, |widths| - 1) + widths[|widths| - 1]
    {
      bitLength
    }

    /** Destination bytes needed: at least every field's byte count. */
    function ExplodedByteLength(): (n: nat)
      reads this, Repr
      requires Valid()
      ensures n >= ExplodedBytes(widths, |widths|)
    {
      expByteLen
    }

    /**
     * Field i of data into the tail of p, the bytes before it zeroed, so
     * that p read big-endian is the field's value.
     */
    method FieldInto(i: nat, data: seq<Byte>, p: array<Byte>)
      requires Valid() && i < |widths| && bitLength <= 8 * |data|
      requires ByteCount(widths[i]) <= p.Length
      modifies p
      ensures var w := FieldOf(widths, data, i);
        && p[..] == Zeros(p.Length - |w|) + w
        && BigEndian(p[..]) == FieldValue(widths, data, i)
    {
      FieldStep(i);
      DataFits(data);
      var ex := extractors[i];
      ghost var w := FieldOf(widths, data, i);
      FieldOfValue(widths, data, i);
      ExtractRight(ex, p, data, w);
    }

    /** Extractor i is set up for field i: its bits, its byte count. */
    lemma FieldStep(i: nat)
      requires Valid() && i < |extractors|
      ensures extractors[i] != null && extractors[i].Valid()
      ensures extractors[i].bitStart == Offset(widths, i) && extractors[i].length == widths[i]
      ensures extractors[i].dstLen == ByteCount(widths[i])
    {
      assert Extracts(extractors[i], Offset(widths, i), widths[i]);
    }

    /**
     * Every extractor's source check (the panic in ExtractTo) passes on data
     * exactly when data has at least BitLength bits.
     */
    lemma {:induction false} DataFits(data: seq<Byte>)
      requires Valid()
      ensures bitLength <= 8 * |data| <==>
        forall i {:trigger extractors[i]} :: 0 <= i < |extractors| ==>
          extractors[i].byteStart + extractors[i].srcLen <= |data|
    {
      if bitLength <= 8 * |data| {
        forall i | 0 <= i < |extractors|
          ensures extractors[i].byteStart + extractors[i].srcLen <= |data|
        {
          OffsetMonotone(widths, i, |widths|);
          WindowFits(extractors[i].Bounds(), Offset(widths, i), widths[i], |data|);
        }
      } else {
        var last := |extractors| - 1;
        assert Extracts(extractors[last], Offset(widths, last), widths[last]);
      }
    }

    /**
     * Buffer: one zeroed array of ExplodedByteLength bytes carved into
     * NumFields consecutive slices, slice i as long as field i's bytes.
     */
    method Buffer() returns (bt: seq<Slice>)
      requires Valid()
      ensures |bt| == NumFields()
      ensures fresh(bt[0].arr) && bt[0].arr.Length == expByteLen
      ensures forall k :: 0 <= k < bt[0].arr.Length ==> bt[0].arr[k] == 0
      ensures forall i {:trigger bt[i]} :: 0 <= i < |bt| ==>
        && bt[i] == Slice(bt[0].arr, ExplodedBytes(widths, i), ByteCount(widths[i]))
        && bt[i].off + bt[i].len <= expByteLen
      ensures forall i {:trigger bt[i]} :: 0 <= i < |bt| - 1 ==> bt[i].off + bt[i].len == bt[i + 1].off
    {
      var big := new Byte[expByteLen](_ => 0);
      assert forall k :: 0 <= k < big.Length ==> big[k] == 0;
      forall i | 0 <= i < |extractors|
        ensures extractors[i] != null && extractors[i].dstLen == ByteCount(widths[i])
      {
        FieldStep(i);
      }
      bt := Carve(big, extractors, widths);
      assert bt[0].arr == big;
    }

    /**
     * ExplodeTo: field i into the head of dst[i], every byte no field is
     * written to kept.  Go panics when there are fewer slices than fields, a
     * slice is shorter than its field or data is shorter than BitLength bits
     * (DataFits); those are preconditions, and so is that the slices do not
     * overlap.
     */
    method ExplodeTo(dst: seq<Slice>, data: seq<Byte>)
      requires Valid() && Destinations(dst, widths)
      requires bitLength <= 8 * |data|
      modifies set i | 0 <= i < |widths| :: dst[i].arr
      ensures forall i {:trigger dst[i]} :: 0 <= i < |widths| ==>
        Holds(dst[i].arr, dst[i].off, FieldOf(widths, data, i))
      ensures forall i, k :: 0 <= i < |widths| && 0 <= k < dst[i].arr.Length && Unwritten(dst, Fields(widths, data), |widths|, dst[i].arr, k) ==>
        dst[i].arr[k] == old(dst[i].arr[k])
    {
      DataFits(data);
      ghost var want := Fields(widths, data);
      forall i | 0 <= i < |extractors|
        ensures extractors[i] != null && extractors[i].Valid()
        ensures extractors[i].byteStart + extractors[i].srcLen <= |data|
        ensures extractors[i].bitStart + extractors[i].length <= 8 * |data|
        ensures ExtractedBytes(data, extractors[i].bitStart, extractors[i].length) == want[i]
        ensures dst[i].off + |want[i]| <= dst[i].arr.Length
      {
        FieldStep(i);
      }
      forall i, j | 0 <= i < j < |extractors| && dst[i].arr == dst[j].arr
        ensures dst[i].off + |want[i]| <= dst[j].off || dst[j].off + |want[j]| <= dst[i].off
      {
        assert dst[i].off + dst[i].len <= dst[j].off || dst[j].off + dst[j].len <= dst[i].off;
      }
      ExtractAll(extractors, dst, data, want);
    }

    /**
     * Explode: an error exactly when data has fewer than BitLength bits;
     * otherwise field i is the reference extraction of bits
     * [Offset(i), Offset(i) + widths[i]), whose big-endian value is the
     * value of those bits.
     */
    method Explode(data: seq<Byte>) returns (r: Result<seq<seq<Byte>>, Error>)
      requires Valid()
      ensures r.Failure? <==> 8 * |data| < bitLength
      ensures r.Failure? ==> r.error == ShortData(8 * |data|, bitLength)
      ensures r.Success? ==> r.value == Fields(widths, data)
      ensures r.Success? ==> forall i {:trigger r.value[i]} :: 0 <= i < |r.value| ==>
        BigEndian(r.value[i]) == FieldValue(widths, data, i)
    {
      if 8 * |data| < bitLength {
        return Failure(ShortData(8 * |data|, bitLength));
      }
      var bt := Buffer();
      CarvedDestinations(bt, widths);
      ExplodeTo(bt, data);
      ghost var want := Fields(widths, data);
      var fields := SliceContents(bt, want);
      forall i | 0 <= i < |fields|
        ensures BigEndian(fields[i]) == FieldValue(widths, data, i)
      {
        FieldOfValue(widths, data, i);
      }
      return Success(fields);
    }

    /**
     * A copy of the exploder, as Go copies a BitExploder value: the copy
     * shares the extractors, which no method changes once built, and
     * SetWidths on either one replaces only that one's extractor list.
     */
    method Copy() returns (c: BitExploder)
      requires Valid()
      ensures fresh(c) && c.Valid()
      ensures c.bitLength == bitLength && c.expByteLen == expByteLen
      ensures c.extractors == extractors && c.widths == widths && c.Repr == Repr
    {
      c := new BitExploder();
      c.bitLength, c.expByteLen, c.extractors := bitLength, expByteLen, extractors;
      c.widths, c.Repr := widths, Repr;
    }

    /**
     * NewBitReader: a reader over data, set up as SetData would, around its
     * own copy of the exploder (the method has a value receiver), so a later
     * SetWidths on this exploder leaves the reader's fields as they were.
     */
    method NewBitReader(data: seq<Byte>) returns (br: BitReader, err: Outcome<Error>)
      requires Valid()
      ensures fresh(br) && fresh(br.exp) && br.exp != this && br.field == 0 && br.Valid()
      ensures br.exp.widths == widths && br.exp.extractors == extractors
      ensures br.exp.bitLength == bitLength && br.exp.expByteLen == expByteLen
      ensures err == Pass <==> bitLength <= 8 * |data|
      ensures err == Pass ==> br.data == data
      ensures err != Pass ==> br.data == [] && err == Fail(ShortData(8 * |data|, bitLength))
    {
      var own := Copy();
      br := new BitReader(own);
      err := br.SetData(data);
    }
  }

  /** NewBitExploder: a zero exploder given the widths, and SetWidths' outcome. */
  method NewBitExploder(ws: seq<int>) returns (exp: BitExploder, err: Outcome<Error>)
    requires Offset(ws, FirstNonPositive(ws, 0)) <= MaxInt
    ensures fresh(exp)
    ensures err == Pass <==> |ws| >= 1 && FirstNonPositive(ws, 0) == |ws|
    ensures err == Pass ==> exp.Valid() && exp.widths == ws && exp.expByteLen == ExplodedBytes(ws, |ws|)
  {
    exp := new BitExploder();
    err := exp.SetWidths(ws);
  }

  /**
   * A reader keeps the fields it was made with: SetWidths on the exploder
   * afterwards changes the exploder, not the reader's copy.
   */
  method ReaderKeepsWidths(exp: BitExploder, data: seq<Byte>, ws: seq<int>) returns (br: BitReader)
    requires exp.Valid() && Offset(ws, FirstNonPositive(ws, 0)) <= MaxInt
    modifies exp
    ensures br.Valid() && br.exp.widths == old(exp.widths) && br.exp.bitLength == old(exp.bitLength)
  {
    var err;
    br, err := exp.NewBitReader(data);
    err := exp.SetWidths(ws);
  }

  /**
   * BitReader: a cursor over the fields of an exploder; each Read hands out
   * the next field, right-aligned in the caller's buffer.
   */
  class BitReader {
    const exp: BitExploder
    var field: nat
    var data: seq<Byte>

    /** The exploder is set up, and the data is either unset or long enough for it. */
    ghost predicate Valid()
      reads this, exp, exp.Repr
    {
      exp.Valid() && field <= exp.NumFields() && (data == [] || exp.bitLength <= 8 * |data|)
    }

    /** &BitReader{exp: exp}. */
    constructor(exp: BitExploder)
      requires exp.Valid()
      ensures this.exp == exp && field == 0 && data == [] && Valid()
    {
      this.exp, field, data := exp, 0, [];
    }

    /** Reset: back to field 0. */
    method Reset()
      requires Valid()
      modifies this
      ensures Valid() && field == 0 && data == old(data)
    {
      field := 0;
    }

    /** SetData: data shorter than the exploder's bits is refused with nothing changed; otherwise it replaces the data and resets. */
    method SetData(data: seq<Byte>) returns (err: Outcome<Error>)
      requires Valid()
      modifies this
      ensures Valid()
      ensures 8 * |data| < exp.bitLength ==> err == Fail(ShortData(8 * |data|, exp.bitLength)) && unchanged(this)
      ensures 8 * |data| >= exp.bitLength ==> err == Pass && this.data == data && field == 0
    {
      if 8 * |data| < exp.bitLength {
        return Fail(ShortData(8 * |data|, exp.bitLength));
      }
      this.data := data;
      field := 0;
      return Pass;
    }

    /**
     * Read: EOF once every field has been read; ShortBuffer, without moving
     * on, when p cannot hold the current field; otherwise the field goes
     * into the tail of p, the bytes before it are zeroed, the cursor moves
     * to the next field and the whole length of p is reported.  Go's
     * ExtractTo panics when data is too short for the field; that is the
     * precondition.
     */
    method Read(p: array<Byte>) returns (r: Result<nat, ReadError>)
      requires Valid()
      requires field < exp.NumFields() ==> exp.bitLength <= 8 * |data|
      modifies this, p
      ensures Valid() && data == old(data)
      ensures old(field) >= exp.NumFields() ==>
        r == Failure(EOF) && field == old(field) && unchanged(p)
      ensures old(field) < exp.NumFields() && p.Length < ByteCount(exp.widths[old(field)]) ==>
        r == Failure(ShortBuffer) && field == old(field) && unchanged(p)
      ensures old(field) < exp.NumFields() && p.Length >= ByteCount(exp.widths[old(field)]) ==>
        var w := FieldOf(exp.widths, data, old(field));
        && r == Success(p.Length) && field == old(field) + 1
        && p[..] == Zeros(p.Length - |w|) + w
        && BigEndian(p[..]) == FieldValue(exp.widths, data, old(field))
    {
      if field >= exp.NumFields() {
        r := Failure(EOF);
      } else if exp.extractors[field].dstLen > p.Length {
        exp.FieldStep(field);
        r := Failure(ShortBuffer);
      } else {
        exp.FieldStep(field);
        exp.FieldInto(field, data, p);
        field := field + 1;
        r := Success(p.Length);
      }
    }
  }

  // ---------------------------------------------------------------------
  // SplitWidths: widths from a configuration string
  // ---------------------------------------------------------------------

  /** SplitWidths's errors: piece `index` is empty once trimmed, or Atoi refuses it. */
  datatype WidthsError =
    | EmptyWidth(index: nat)
    | BadWidth(index: nat, cause: Text.NumError)

  /** What piece i of a configuration string stands for: trimmed, then read by Atoi. */
  function ParsedWidth(piece: Text.String, i: nat): (r: Result<int, WidthsError>)
    ensures r.Failure? ==> r.error.index == i
  {
    var t := Text.TrimSpace(piece);
    if t == [] then Failure(EmptyWidth(i))
    else match Text.Atoi(t)
      case Failure(e) => Failure(BadWidth(i, e))
      case Success(w) => Success(w)
  }

  /** A conversion of piece number i of a configuration string. */
  type PieceReader = (Text.String, nat) -> Result<int, WidthsError>

  /**
   * The pieces read in order: all their values, or the error of the first
   * piece that does not read.
   */
  function ReadAll(pieces: seq<Text.String>, read: PieceReader): (r: Result<seq<int>, WidthsError>)
    ensures r.Success? ==> |r.value| == |pieces|
    decreases |pieces|
  {
    if pieces == [] then Success([])
    else
      var prev := ReadAll(pieces[..|pieces| - 1], read);
      if prev.Failure? then prev
      else
        var w := read(pieces[|pieces| - 1], |pieces| - 1);
        if w.Failure? then Failure(w.error) else Success(prev.value + [w.value])
  }

  /** Once a prefix of the pieces fails to read, the whole list fails with the same error. */
  lemma {:induction false} ReadAllFailed(pieces: seq<Text.String>, read: PieceReader, k: nat)
    requires k <= |pieces|
    requires ReadAll(pieces[..k], read).Failure?
    ensures ReadAll(pieces, read) == ReadAll(pieces[..k], read)
    decreases |pieces|
  {
    if k < |pieces| {
      var init := pieces[..|pieces| - 1];
      assert init[..k] == pieces[..k];
      ReadAllFailed(init, read, k);
    } else {
      assert pieces[..k] == pieces;
    }
  }

  /**
   * ReadAll succeeds exactly when every piece reads, and then holds each
   * piece's value; otherwise its error is that of the first piece that
   * does not read.
   */
  lemma {:induction false} ReadAllMeaning(pieces: seq<Text.String>, read: PieceReader)
    ensures var r := ReadAll(pieces, read);
      r.Success? <==> forall i | 0 <= i < |pieces| :: read(pieces[i], i).Success?
    ensures var r := ReadAll(pieces, read);
      r.Success? ==> forall i | 0 <= i < |pieces| :: read(pieces[i], i) == Success(r.value[i])
    ensures var r := ReadAll(pieces, read);
      r.Failure? ==> exists k | 0 <= k < |pieces| ::
        && read(pieces[k], k) == Failure(r.error)
        && forall j | 0 <= j < k :: read(pieces[j], j).Success?
    decreases |pieces|
  {
    if pieces != [] {
      var n := |pieces| - 1;
      var init := pieces[..n];
      ReadAllMeaning(init, read);
      assert forall j | 0 <= j < n :: init[j] == pieces[j];
    }
  }

  /**
   * SplitWidths: the configuration split on the delimiter, each piece
   * trimmed and converted by Atoi; the first piece that is empty or not an
   * int decides the error, otherwise there is one width per piece.
   */
  method SplitWidths(conf: Text.String, delim: Text.String) returns (r: Result<seq<int>, WidthsError>)
    ensures r == ReadAll(Text.Split(conf, delim), ParsedWidth)
  {
    var pieces := Text.Split(conf, delim);
    var ws: seq<int> := [];
    for i := 0 to |pieces|
      invariant ReadAll(pieces[..i], ParsedWidth) == Success(ws)
    {
      var t := Text.TrimSpace(pieces[i]);
      if t == [] {
        r := Failure(EmptyWidth(i));
        assert pieces[..i + 1][..i] == pieces[..i];
        ReadAllFailed(pieces, ParsedWidth, i + 1);
        return;
      }
      var w := Text.Atoi(t);
      if w.Failure? {
        r := Failure(BadWidth(i, w.error));
        assert pieces[..i + 1][..i] == pieces[..i];
        ReadAllFailed(pieces, ParsedWidth, i + 1);
        return;
      }
      assert pieces[..i + 1][..i] == pieces[..i];
      ws := ws + [w.value];
    }
    assert pieces[..|pieces|] == pieces;
    return Success(ws);
  }

  /**
   * What SplitWidths promises about the pieces: success exactly when every
   * piece reads, one width per piece, and otherwise the error of the first
   * piece that is empty or not an int, carrying that piece's number.
   */
  lemma SplitWidthsMeaning(pieces: seq<Text.String>)
    ensures var r := ReadAll(pieces, ParsedWidth);
      r.Success? <==> forall i | 0 <= i < |pieces| :: ParsedWidth(pieces[i], i).Success?
    ensures var r := ReadAll(pieces, ParsedWidth);
      r.Success? ==> forall i | 0 <= i < |pieces| :: ParsedWidth(pieces[i], i) == Success(r.value[i])
    ensures var r := ReadAll(pieces, ParsedWidth);
      r.Failure? ==>
        && r.error.index < |pieces|
        && ParsedWidth(pieces[r.error.index], r.error.index) == Failure(r.error)
        && forall j | 0 <= j < r.error.index :: ParsedWidth(pieces[j], j).Success?
  {
    ReadAllMeaning(pieces, ParsedWidth);
  }

  /** The rendering of widths that SplitWidths reads: each width in decimal. */
  function Rendered(ws: seq<int>): (r: seq<Text.String>)
    ensures |r| == |ws|
  {
    seq(|ws|, i requires 0 <= i < |ws| => Text.FormatInt(ws[i]))
  }

  /**
   * Round trip: widths written in decimal and joined with a one-byte
   * delimiter that is neither a digit, a sign nor white space split back
   * into exactly those widths.
   */
  lemma {:induction false} SplitWidthsRoundTrip(ws: seq<int>, c: Byte)
    requires |ws| >= 1 && forall i | 0 <= i < |ws| :: Text.MinInt <= ws[i] <= MaxInt
    requires !Text.IsDigit(c) && c != Text.Minus && c != Text.Plus && !Text.IsSpace(c)
    ensures ReadAll(Text.Split(Text.Join(Rendered(ws), [c]), [c]), ParsedWidth) == Success(ws)
  {
    var parts := Rendered(ws);
    forall k | 0 <= k < |parts|
      ensures c !in parts[k]
    {
      RenderedBytes(ws[k], c);
    }
    Text.SplitJoin(parts, c);
    forall i | 0 <= i < |ws|
      ensures ParsedWidth(parts[i], i) == Success(ws[i])
    {
      RenderedReads(ws[i], i);
    }
    ReadAllMeaning(parts, ParsedWidth);
    assert ReadAll(parts, ParsedWidth).value == ws;
  }

  /**
   * With an empty delimiter every byte of an ASCII configuration is a
   * width of its own: single digits d_0 d_1 ... read as those widths.
   */
  lemma {:induction false} SplitWidthsDigits(ws: seq<int>)
    requires forall i | 0 <= i < |ws| :: 0 <= ws[i] <= 9
    ensures ReadAll(Text.Split(seq(|ws|, i requires 0 <= i < |ws| => Text.Zero + ws[i]), []), ParsedWidth) == Success(ws)
  {
    var conf: Text.String := seq(|ws|, i requires 0 <= i < |ws| => Text.Zero + ws[i]);
    Text.ExplodeAscii(conf);
    var pieces := Text.Split(conf, []);
    assert |pieces| == |ws|;
    forall i | 0 <= i < |ws|
      ensures ParsedWidth(pieces[i], i) == Success(ws[i])
    {
      Text.FormatDigit(ws[i]);
      assert pieces[i] == Text.FormatInt(ws[i]);
      RenderedReads(ws[i], i);
    }
    ReadAllMeaning(pieces, ParsedWidth);
    assert ReadAll(pieces, ParsedWidth).value == ws;
  }

  /** Piece i holding an int64 written in decimal reads back as that int. */
  lemma RenderedReads(n: int, i: nat)
    requires Text.MinInt <= n <= MaxInt
    ensures ParsedWidth(Text.FormatInt(n), i) == Success(n)
  {
    var s := Text.FormatInt(n);
    RenderedEnds(n);
    Text.AsciiEnds(s);
    Text.TrimSpaceKeeps(s);
    Text.AtoiFormatInt(n);
  }

  /** A decimal rendering holds only digits and a leading '-'. */
  lemma {:induction false} RenderedBytes(n: int, c: Byte)
    requires !Text.IsDigit(c) && c != Text.Minus
    ensures c !in Text.FormatInt(n)
  {
    var s := Text.FormatInt(n);
    if n < 0 {
      assert s == [Text.Minus] + Text.Decimal(-n);
      assert forall k | 1 <= k < |s| :: Text.IsDigit(s[k]);
    }
  }

  /** A decimal rendering starts and ends with an ASCII byte that is not white space. */
  lemma {:induction false} RenderedEnds(n: int)
    ensures var s := Text.FormatInt(n);
      s[0] < 0x80 && !Text.IsSpace(s[0]) && s[|s| - 1] < 0x80 && !Text.IsSpace(s[|s| - 1])
  {
    var s := Text.FormatInt(n);
    if n < 0 {
      assert s[|s| - 1] == Text.Decimal(-n)[|Text.Decimal(-n)| - 1];
    }
  }
}
