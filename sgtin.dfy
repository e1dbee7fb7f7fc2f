/**
 * The SGTIN (serialised global trade item number) of the EPC Tag Data
 * Standard: the value, its range checks, the GS1 check digit, its GTIN-14
 * and pure-identity URI renderings, and the decoding of SGTIN-96 and
 * SGTIN-198 tag memory through bit extractors.
 */
module Sgtin {
  import opened Wrappers
  import opened Bits
  import Text
  import BitExtract

  // ---------------------------------------------------------------------
  // Constants and the SGTIN value
  // ---------------------------------------------------------------------

  const SGTIN96NumBytes: nat := 12
  const SGTIN198NumBytes: nat := 25
  const SGTIN96Header: Byte := 0x30
  const SGTIN198Header: Byte := 0x36

  /** "urn:epc:id:sgtin". */
  const PureURIPrefix: Text.String := Text.Ascii("urn:epc:id:sgtin")

  /**
   * An SGTIN: the tag encoding's filter and partition, and the GS1 company
   * prefix, indicator digit, item reference and serial.  The Go struct holds
   * plain ints, so nothing here is range-checked until ValidateRanges.
   */
  datatype SGTIN = SGTIN(
    filter: int,
    partition: int,
    companyPrefix: int,
    indicator: int,
    itemRef: int,
    serial: Text.String)

  /** The number of item references partition p leaves room for: 10^p. */
  const MaxItems: seq<int> := [1, 10, 100, 1000, 10000, 100000, 1000000]

  /** The largest company prefix partition p allows: 10^(12-p) - 1. */
  const MaxPrefix: seq<int> := [999999999999, 99999999999, 9999999999, 999999999, 99999999, 9999999, 999999]

  /** The tables are the powers of ten they stand for. */
  lemma TablesArePowers(p: nat)
    requires p <= 6
    ensures MaxItems[p] == Text.Pow10(p)
    ensures MaxPrefix[p] == Text.Pow10(12 - p) - 1
  {
    if p == 0 {
      assert Text.Pow10(12) == 1000000000000;
    } else if p == 1 {
      assert Text.Pow10(1) == 10 && Text.Pow10(11) == 100000000000;
    } else if p == 2 {
      assert Text.Pow10(2) == 100 && Text.Pow10(10) == 10000000000;
    } else if p == 3 {
      assert Text.Pow10(3) == 1000 && Text.Pow10(9) == 1000000000;
    } else if p == 4 {
      assert Text.Pow10(4) == 10000 && Text.Pow10(8) == 100000000;
    } else if p == 5 {
      assert Text.Pow10(5) == 100000 && Text.Pow10(7) == 10000000;
    } else {
      assert Text.Pow10(6) == 1000000;
    }
  }

  // ---------------------------------------------------------------------
  // ValidateRanges and NewSGTIN
  // ---------------------------------------------------------------------

  /** ValidateRanges's errors, in the order it checks them. */
  datatype RangeError =
    | BadIndicator(indicator: int)
    | BadPartition(partition: int)
    | BadItemRef(partition: int, itemRef: int)
    | BadCompanyPrefix(partition: int, companyPrefix: int)
    | EmptySerial
    | LongSerial(length: nat)

  /**
   * What the ranges of an SGTIN must be: a single indicator digit, a
   * partition of 0 to 6, an item reference of at most p digits, a company
   * prefix of at most 12-p digits, and a serial of 1 to 20 bytes.  The
   * filter is not among them.
   */
  predicate InRanges(s: SGTIN) {
    && 0 <= s.indicator <= 9
    && 0 <= s.partition <= 6
    && 0 <= s.itemRef < Text.Pow10(s.partition)
    && 0 <= s.companyPrefix < Text.Pow10(12 - s.partition)
    && 1 <= |s.serial| <= 20
  }

  /** ValidateRanges: the first range check s fails, or Pass. */
  function ValidateRanges(s: SGTIN): (r: Outcome<RangeError>)
    ensures r.Pass? <==> InRanges(s)
    ensures !(0 <= s.indicator <= 9) ==> r == Fail(BadIndicator(s.indicator))
    ensures 0 <= s.indicator <= 9 && !(0 <= s.partition <= 6) ==> r == Fail(BadPartition(s.partition))
  {
    if s.indicator < 0 || s.indicator > 9 then Fail(BadIndicator(s.indicator))
    else if s.partition < 0 || s.partition > 6 then Fail(BadPartition(s.partition))
    else
      TablesArePowers(s.partition);
      if s.itemRef < 0 || s.itemRef > MaxItems[s.partition] - 1 then Fail(BadItemRef(s.partition, s.itemRef))
      else if s.companyPrefix < 0 || s.companyPrefix > MaxPrefix[s.partition] then
        Fail(BadCompanyPrefix(s.partition, s.companyPrefix))
      else if s.serial == [] then Fail(EmptySerial)
      else if |s.serial| > 20 then Fail(LongSerial(|s.serial|))
      else Pass
  }

  /** NewSGTIN: the SGTIN of the given values, and ValidateRanges's verdict on it. */
  function NewSGTIN(filter: int, partition: int, indicator: int, companyPrefix: int, itemRef: int, serial: Text.String)
    : (r: (SGTIN, Outcome<RangeError>))
    ensures r.0.filter == filter && r.0.partition == partition && r.0.indicator == indicator
    ensures r.0.companyPrefix == companyPrefix && r.0.itemRef == itemRef && r.0.serial == serial
    ensures r.1.Pass? <==> InRanges(r.0)
  {
    var s := SGTIN(filter, partition, companyPrefix, indicator, itemRef, serial);
    (s, ValidateRanges(s))
  }

  // ---------------------------------------------------------------------
  // CanSGTIN96
  // ---------------------------------------------------------------------

  /** Why a serial cannot be written as SGTIN-96. */
  datatype SerialError =
    | NoSerial
    | NotNumber(cause: Text.NumError)
    | LeadingZeros

  /**
   * The SGTIN-96 serial rule: decimal digits worth less than 2^38, with no
   * leading '0' unless the serial is "0".
   */
  predicate Serial96(x: Text.String) {
    && 1 <= |x| && Text.AllDigits(x) && Text.DigitsValue(x) < Pow2(38)
    && (x[0] == Text.Zero ==> |x| == 1)
  }

  /** CanSGTIN96: whether the serial fits SGTIN-96, checked through strconv.ParseUint(serial, 10, 38). */
  function CanSGTIN96(s: SGTIN): (r: Outcome<SerialError>)
    ensures r.Pass? <==> Serial96(s.serial)
    ensures s.serial == [] ==> r == Fail(NoSerial)
  {
    if s.serial == [] then Fail(NoSerial)
    else match Text.ParseUint(s.serial, 38)
      case Failure(e) => Fail(NotNumber(e))
      case Success(_) =>
        if s.serial[0] == Text.Zero && s.serial != [Text.Zero] then Fail(LeadingZeros) else Pass
  }

  /** Every serial SGTIN-96 accepts is the decimal rendering of its value... */
  lemma Serial96Canonical(x: Text.String)
    requires Serial96(x)
    ensures x == Text.Decimal(Text.DigitsValue(x))
  {
    Text.ValueDecimal(x);
  }

  /** ...and the rendering of every number below 2^38 is accepted. */
  lemma DecimalSerial96(n: nat)
    requires n < Pow2(38)
    ensures Serial96(Text.Decimal(n))
  {
    Text.DecimalValue(n);
    if n == 0 {
      assert Text.Decimal(n) == [Text.Zero];
    }
  }

  // ---------------------------------------------------------------------
  // checkSum and checkDigit
  // ---------------------------------------------------------------------

  /**
   * The GS1 weight of the digit at position d, counted from the ones place
   * of the 13 data digits: ((d & 1) << 1) | 1, that is 3 at odd positions
   * and 1 at even ones.
   */
  function Weight(d: int): (w: int)
    ensures w == (if d % 2 == 1 then 3 else 1)
  {
    2 * (d % 2) + 1
  }

  /**
   * What checkSum(n, d1) adds up: n's digits from the ones place upwards,
   * the ones digit weighed at position d1, the tens digit at d1 - 1, and so
   * on.  A number that is not positive contributes nothing.
   */
  function CheckSumOf(n: int, d1: int): (sum: nat)
    decreases n
  {
    if n <= 0 then 0 else (n % 10) * Weight(d1) + CheckSumOf(n / 10, d1 - 1)
  }

  /** checkSum: the loop over n's digits, proved to compute CheckSumOf. */
  method CheckSum(n: int, d1: int) returns (sum: int)
    ensures sum == CheckSumOf(n, d1)
  {
    sum := 0;
    var m, i := n, 0;
    while m > 0
      invariant sum + CheckSumOf(m, d1 - i) == CheckSumOf(n, d1)
      decreases m
    {
      sum := sum + (m % 10) * Weight(d1 - i);
      m := m / 10;
      i := i + 1;
    }
  }

  /** The weighted sum checkDigit completes: item reference, company prefix and indicator. */
  function DataSum(s: SGTIN): nat {
    CheckSumOf(s.itemRef, 1) + CheckSumOf(s.companyPrefix, 13 - s.partition) + CheckSumOf(s.indicator, 13)
  }

  /** checkDigit: the digit that brings the weighted sum to a multiple of ten. */
  function CheckDigit(s: SGTIN): (c: int)
    ensures 0 <= c <= 9
    ensures (DataSum(s) + c) % 10 == 0
  {
    (10 - DataSum(s) % 10) % 10
  }

  /** A sum that adds the check digit to the data sum is a multiple of ten. */
  lemma CheckDigitCompletes(s: SGTIN, t: int)
    requires t == DataSum(s) + CheckDigit(s)
    ensures t % 10 == 0
  {
  }

  /** The check digit is the only digit that completes the sum. */
  lemma CheckDigitUnique(s: SGTIN, c: int)
    requires 0 <= c <= 9 && (DataSum(s) + c) % 10 == 0
    ensures c == CheckDigit(s)
  {
  }

  /**
   * The GS1 weighted sum of a string of digits whose last digit stands at
   * position pos, the one before it at pos + 1, and so on.
   */
  function WeightedSum(g: Text.String, pos: int): int
    requires Text.AllDigits(g)
    decreases |g|
  {
    if g == [] then 0 else WeightedSum(g[..|g| - 1], pos + 1) + (g[|g| - 1] - Text.Zero) * Weight(pos)
  }

  /** The weighted sum of a concatenation is the sum of its parts' at their positions. */
  lemma {:induction false} WeightedSumConcat(a: Text.String, b: Text.String, pos: int)
    requires Text.AllDigits(a) && Text.AllDigits(b)
    ensures Text.AllDigits(a + b)
    ensures WeightedSum(a + b, pos) == WeightedSum(a, pos + |b|) + WeightedSum(b, pos)
    decreases |b|
  {
    if b != [] {
      var b' := b[..|b| - 1];
      assert (a + b)[..|a + b| - 1] == a + b';
      WeightedSumConcat(a, b', pos + 1);
    } else {
      assert a + b == a;
    }
  }

  /** Only the parity of the position matters to checkSum. */
  lemma {:induction false} CheckSumParity(n: int, a: int, k: int)
    ensures CheckSumOf(n, a) == CheckSumOf(n, a + 2 * k)
    decreases n
  {
    if n > 0 {
      CheckSumParity(n / 10, a - 1, k);
    }
  }

  /** Appending a digit d to v: d is weighed at pos, v's digits move one position up. */
  lemma CheckSumAppend(v: nat, d: int, pos: int)
    requires 0 <= d <= 9
    ensures CheckSumOf(10 * v + d, pos) == d * Weight(pos) + CheckSumOf(v, pos - 1)
  {
    var n := 10 * v + d;
    if n > 0 {
      assert n % 10 == d && n / 10 == v;
    }
  }

  /** checkSum of a number is the weighted sum of its digits, written in any width. */
  lemma {:induction false} CheckSumDigits(g: Text.String, pos: int)
    requires Text.AllDigits(g)
    ensures CheckSumOf(Text.DigitsValue(g), pos) == WeightedSum(g, pos)
    decreases |g|
  {
    if g != [] {
      var g' := g[..|g| - 1];
      CheckSumDigits(g', pos + 1);
      CheckSumParity(Text.DigitsValue(g'), pos - 1, 1);
      CheckSumAppend(Text.DigitsValue(g'), g[|g| - 1] - Text.Zero, pos);
    }
  }

  /** checkSum of a single non-zero digit d moved up k places weighs d at position pos - k. */
  lemma {:induction false} CheckSumShifted(d: int, k: nat, pos: int)
    requires 1 <= d <= 9
    ensures CheckSumOf(d * Text.Pow10(k), pos) == d * Weight(pos - k)
    decreases k
  {
    if k == 0 {
      CheckSumAppend(0, d, pos);
    } else {
      var m := d * Text.Pow10(k - 1);
      assert d * Text.Pow10(k) == 10 * m + 0;
      CheckSumAppend(m, 0, pos);
      CheckSumShifted(d, k - 1, pos - 1);
    }
  }

  /** The check digit when the only non-zero data digit is d: 10 - d at even positions, (10 - 3d % 10) % 10 at odd ones. */
  function SingleDigitCheck(d: int, pos: int): int {
    if pos % 2 == 0 then 10 - d else (10 - (3 * d) % 10) % 10
  }

  /**
   * The check digit of an SGTIN whose 13 data digits are all 0 but for
   * d at position pos (1 the last digit of the item reference, 13 the
   * indicator).
   */
  lemma CheckDigitSingle(s: SGTIN, d: int, pos: nat)
    requires 1 <= d <= 9 && 0 <= s.partition <= 6 && 1 <= pos <= 13
    requires s.itemRef == (if pos <= s.partition then d * Text.Pow10(pos - 1) else 0)
    requires s.companyPrefix == (if s.partition < pos <= 12 then d * Text.Pow10(pos - s.partition - 1) else 0)
    requires s.indicator == (if pos == 13 then d else 0)
    ensures CheckDigit(s) == SingleDigitCheck(d, pos)
  {
    SingleDigitSum(s, d, pos);
    if pos % 2 == 0 {
      assert DataSum(s) == d;
    } else {
      assert DataSum(s) == 3 * d;
    }
  }

  /** With a single non-zero data digit d at position pos, the data sum is d weighed at pos. */
  lemma SingleDigitSum(s: SGTIN, d: int, pos: nat)
    requires 1 <= d <= 9 && 0 <= s.partition <= 6 && 1 <= pos <= 13
    requires s.itemRef == (if pos <= s.partition then d * Text.Pow10(pos - 1) else 0)
    requires s.companyPrefix == (if s.partition < pos <= 12 then d * Text.Pow10(pos - s.partition - 1) else 0)
    requires s.indicator == (if pos == 13 then d else 0)
    ensures DataSum(s) == d * Weight(pos)
  {
    var p := s.partition;
    if pos <= p {
      assert s.companyPrefix == 0 && s.indicator == 0;
      CheckSumShifted(d, pos - 1, 1);
      assert 1 - (pos - 1) == 2 - pos;
      WeightShift(2 - pos, pos - 1);
      assert DataSum(s) == CheckSumOf(s.itemRef, 1);
    } else if pos <= 12 {
      assert s.itemRef == 0 && s.indicator == 0;
      CheckSumShifted(d, pos - p - 1, 13 - p);
      assert 13 - p - (pos - p - 1) == pos + 2 * (7 - pos);
      WeightShift(pos, 7 - pos);
      assert DataSum(s) == CheckSumOf(s.companyPrefix, 13 - p);
    } else {
      assert s.itemRef == 0 && s.companyPrefix == 0 && s.indicator == d;
      CheckSumShifted(d, 0, 13);
      assert d * Text.Pow10(0) == d;
      assert DataSum(s) == CheckSumOf(d, 13);
    }
  }

  /** Weights repeat every two positions. */
  lemma WeightShift(x: int, k: int)
    ensures Weight(x + 2 * k) == Weight(x)
  {
    assert (x + 2 * k) % 2 == x % 2;
  }

  // ---------------------------------------------------------------------
  // GTIN and URI
  // ---------------------------------------------------------------------

  /**
   * GTIN: the GS1 element string, the indicator digit, the company prefix
   * padded to 12 - partition digits, the item reference padded to partition
   * digits (left out for partition 0) and the check digit.
   */
  function GTIN(s: SGTIN): (g: Text.String)
    ensures |g| >= 1 && g[|g| - 1] == Text.Zero + CheckDigit(s)
  {
    Text.FormatDigit(CheckDigit(s));
    var head := Text.FormatInt(s.indicator) + Text.PaddedAny(s.companyPrefix, 12 - s.partition);
    if s.partition == 0 then head + Text.FormatInt(CheckDigit(s))
    else head + Text.PaddedAny(s.itemRef, s.partition) + Text.FormatInt(CheckDigit(s))
  }

  /**
   * Past partition 10^6 + 12 both widths are beyond fmt's bound: each padded
   * field becomes BadWidth followed by the bare number.
   */
  lemma GTINBadWidth(s: SGTIN)
    requires s.partition > Text.MaxWidth + 12
    ensures GTIN(s) == Text.FormatInt(s.indicator) + Text.BadWidth + Text.FormatInt(s.companyPrefix)
                       + Text.BadWidth + Text.FormatInt(s.itemRef) + Text.FormatInt(CheckDigit(s))
  {
    var a, b := Text.PaddedAny(s.companyPrefix, 12 - s.partition), Text.PaddedAny(s.itemRef, s.partition);
    assert a == Text.BadWidth + Text.FormatInt(s.companyPrefix);
    assert b == Text.BadWidth + Text.FormatInt(s.itemRef);
  }

  /** A GTIN-14 that passes the GS1 check: 14 digits whose weighted sum, check digit included, is a multiple of ten. */
  predicate GS1Valid(g: Text.String) {
    |g| == 14 && Text.AllDigits(g) && WeightedSum(g, 0) % 10 == 0
  }

  /** The digit strings an in-range SGTIN's GTIN is made of. */
  lemma GTINPieces(s: SGTIN) returns (ind: Text.String, cp: Text.String, ir: Text.String, c: Text.String)
    requires InRanges(s)
    ensures GTIN(s) == ind + cp + ir + c
    ensures ind == Text.FormatInt(s.indicator) && cp == Text.Padded(s.companyPrefix, 12 - s.partition)
    ensures ir == if s.partition == 0 then [] else Text.Padded(s.itemRef, s.partition)
    ensures ind == [Text.Zero + s.indicator] && c == [Text.Zero + CheckDigit(s)]
    ensures |cp| == 12 - s.partition && Text.AllDigits(cp) && Text.DigitsValue(cp) == s.companyPrefix
    ensures |ir| == s.partition && Text.AllDigits(ir) && Text.DigitsValue(ir) == s.itemRef
  {
    ind, c := Text.FormatInt(s.indicator), Text.FormatInt(CheckDigit(s));
    Text.FormatDigit(s.indicator);
    Text.FormatDigit(CheckDigit(s));
    cp := Text.Padded(s.companyPrefix, 12 - s.partition);
    Text.PaddedDigits(s.companyPrefix, 12 - s.partition);
    ir := if s.partition == 0 then [] else Text.Padded(s.itemRef, s.partition);
    if s.partition > 0 {
      Text.PaddedDigits(s.itemRef, s.partition);
    }
    GTINConcat(s, ind, cp, ir, c);
  }

  /** For a partition of 0..6 the GTIN is the four pieces one after the other. */
  lemma GTINConcat(s: SGTIN, ind: Text.String, cp: Text.String, ir: Text.String, c: Text.String)
    requires 0 <= s.partition <= 6
    requires ind == Text.FormatInt(s.indicator) && c == Text.FormatInt(CheckDigit(s))
    requires cp == Text.Padded(s.companyPrefix, 12 - s.partition)
    requires ir == if s.partition == 0 then [] else Text.Padded(s.itemRef, s.partition)
    ensures GTIN(s) == ind + cp + ir + c
  {
    assert Text.PaddedAny(s.companyPrefix, 12 - s.partition) == cp;
    if s.partition == 0 {
      assert ind + cp + ir + c == ind + cp + c;
    } else {
      assert Text.PaddedAny(s.itemRef, s.partition) == ir;
    }
  }

  /** The weighted sum of the GTIN's digit strings is the data sum plus the check digit. */
  lemma GTINSum(s: SGTIN, ind: Text.String, cp: Text.String, ir: Text.String, c: Text.String)
    requires 0 <= s.partition <= 6 && 0 <= s.indicator <= 9
    requires ind == [Text.Zero + s.indicator] && c == [Text.Zero + CheckDigit(s)]
    requires |cp| == 12 - s.partition && Text.AllDigits(cp) && Text.DigitsValue(cp) == s.companyPrefix
    requires |ir| == s.partition && Text.AllDigits(ir) && Text.DigitsValue(ir) == s.itemRef
    ensures Text.AllDigits(ind + cp + ir + c)
    ensures WeightedSum(ind + cp + ir + c, 0) == DataSum(s) + CheckDigit(s)
  {
    var p := s.partition;
    WeightedSumConcat(ind, cp, p + 1);
    WeightedSumConcat(ind + cp, ir, 1);
    WeightedSumConcat(ind + cp + ir, c, 0);
    CheckSumDigits(cp, p + 1);
    CheckSumParity(s.companyPrefix, p + 1, 6 - p);
    CheckSumDigits(ir, 1);
    CheckSumDigits(ind, 13);
    assert Text.DigitsValue(ind) == s.indicator;
    assert WeightedSum(c, 0) == CheckDigit(s);
    assert WeightedSum(ind + cp + ir + c, 0)
      == WeightedSum(ind, 13) + WeightedSum(cp, p + 1) + WeightedSum(ir, 1) + WeightedSum(c, 0);
  }

  /**
   * The GTIN of an in-range SGTIN is a valid GTIN-14: the indicator digit,
   * then 12 - partition digits worth the company prefix, then partition
   * digits worth the item reference, then the check digit.
   */
  lemma GTINValid(s: SGTIN)
    requires InRanges(s)
    ensures GS1Valid(GTIN(s))
    ensures var g := GTIN(s);
      && |g| == 14 && g[0] == Text.Zero + s.indicator && g[13] == Text.Zero + CheckDigit(s)
      && Text.AllDigits(g[1 .. 13 - s.partition]) && Text.DigitsValue(g[1 .. 13 - s.partition]) == s.companyPrefix
      && Text.AllDigits(g[13 - s.partition .. 13]) && Text.DigitsValue(g[13 - s.partition .. 13]) == s.itemRef
  {
    var ind, cp, ir, c := GTINPieces(s);
    GTINSum(s, ind, cp, ir, c);
    var g := ind + cp + ir + c;
    CheckDigitCompletes(s, WeightedSum(g, 0));
    FourPieces(ind, cp, ir, c);
  }

  /** The four pieces of a concatenation, read back by position. */
  lemma FourPieces(a: Text.String, b: Text.String, c: Text.String, d: Text.String)
    requires |a| == 1 && |d| == 1
    ensures var g := a + b + c + d;
      && |g| == |b| + |c| + 2
      && g[0] == a[0] && g[1 .. 1 + |b|] == b && g[1 + |b| .. 1 + |b| + |c|] == c && g[|g| - 1] == d[0]
  {
    var g := a + b + c + d;
    assert g[1 .. 1 + |b|] == b;
    assert g[1 + |b| .. 1 + |b| + |c|] == c;
  }

  /**
   * URI: the pure-identity URI, "urn:epc:id:sgtin:" then the company
   * prefix padded to 12 - partition digits, '.', the indicator and the item
   * reference padded to partition digits (none for partition 0), '.', and
   * the serial.
   */
  function URI(s: SGTIN): (u: Text.String)
    ensures Text.HasPrefix(u, PureURIPrefix + [Text.Colon])
  {
    PureURIPrefix + [Text.Colon] + URIFieldText(s)
  }

  /** What follows "urn:epc:id:sgtin:": the three dot-separated fields. */
  function URIFieldText(s: SGTIN): Text.String {
    Text.PaddedAny(s.companyPrefix, 12 - s.partition) + [Text.Dot] + IndicatorItemRef(s) + [Text.Dot] + s.serial
  }

  /** The URI's middle field: the indicator, then the item reference padded to partition digits (none for partition 0). */
  function IndicatorItemRef(s: SGTIN): Text.String {
    if s.partition == 0 then Text.FormatInt(s.indicator)
    else Text.FormatInt(s.indicator) + Text.PaddedAny(s.itemRef, s.partition)
  }

  /** The URI's fields are what follows its prefix. */
  lemma URIAfterPrefix(s: SGTIN)
    ensures URI(s)[|PureURIPrefix| + 1 ..] == URIFieldText(s)
  {
    var h := PureURIPrefix + [Text.Colon];
    assert URI(s) == h + URIFieldText(s);
  }

  /** A digit string has no dot. */
  lemma DigitsLackDot(g: Text.String)
    requires Text.AllDigits(g)
    ensures Text.Dot !in g
  {
    forall k | 0 <= k < |g|
      ensures g[k] != Text.Dot
    {
      assert Text.IsDigit(g[k]);
    }
  }

  /** Splitting off the first two dot-free fields of a string. */
  lemma SplitThree(a: Text.String, b: Text.String, rest: Text.String)
    requires Text.Dot !in a && Text.Dot !in b
    ensures Text.SplitAtMost(a + [Text.Dot] + b + [Text.Dot] + rest, [Text.Dot], 3) == [a, b, rest]
  {
    var tail := b + [Text.Dot] + rest;
    assert a + [Text.Dot] + b + [Text.Dot] + rest == a + [Text.Dot] + tail;
    Text.IndexAfterPart(a, Text.Dot, tail);
    Text.Pieces(a, [Text.Dot], tail);
    Text.IndexAfterPart(b, Text.Dot, rest);
    Text.Pieces(b, [Text.Dot], rest);
  }

  /**
   * The URI of an in-range SGTIN reads back: after the prefix, the three
   * dot-separated fields are 12 - partition digits worth the company prefix,
   * the indicator digit followed by partition digits worth the item
   * reference, and the serial, dots and all.
   */
  lemma URIFields(s: SGTIN)
    requires InRanges(s)
    ensures var f := Text.SplitAtMost(URI(s)[|PureURIPrefix| + 1 ..], [Text.Dot], 3);
      && |f| == 3 && f[2] == s.serial
      && |f[0]| == 12 - s.partition && Text.AllDigits(f[0]) && Text.DigitsValue(f[0]) == s.companyPrefix
      && |f[1]| == s.partition + 1 && f[1][0] == Text.Zero + s.indicator
      && Text.AllDigits(f[1][1..]) && Text.DigitsValue(f[1][1..]) == s.itemRef
  {
    var ind, cp, ir, c := GTINPieces(s);
    var iir := ind + ir;
    assert iir[1..] == ir;
    assert Text.AllDigits(iir);
    DigitsLackDot(cp);
    DigitsLackDot(iir);
    assert Text.PaddedAny(s.companyPrefix, 12 - s.partition) == cp;
    if s.partition == 0 {
      assert iir == ind;
    } else {
      assert Text.PaddedAny(s.itemRef, s.partition) == ir;
    }
    assert IndicatorItemRef(s) == iir;
    URIAfterPrefix(s);
    SplitThree(cp, iir, s.serial);
  }

  // ---------------------------------------------------------------------
  // IsValid (FilterValue)
  // ---------------------------------------------------------------------

  /** FilterValue.IsValid: 0 to 7, except the GS1-reserved 3 and 5. */
  predicate FilterIsValid(fv: int) {
    0 <= fv <= 7 && !(fv == 3 || fv == 5)
  }

  /** The valid filter values, listed. */
  lemma FilterValues(fv: int)
    ensures FilterIsValid(fv) <==> fv in {0, 1, 2, 4, 6, 7}
  {
  }

  // ---------------------------------------------------------------------
  // DecodeSGTIN
  // ---------------------------------------------------------------------

  /** The company prefix starts after the header, filter and partition. */
  const GCPStartBit: nat := 8 + 3 + 3
  /** The serial starts after the 44 bits of company prefix and IIR field. */
  const SerialStartBit: nat := GCPStartBit + 44

  /** The width of the company prefix field, by partition. */
  const CompanyWidths: seq<nat> := [40, 37, 34, 30, 27, 24, 20]
  /** The width of the indicator and item reference (IIR) field, by partition. */
  const IIRWidths: seq<nat> := [4, 7, 10, 14, 17, 20, 24]

  /** The first bit of partition p's IIR field, just after the company prefix. */
  function IIRStart(p: nat): (start: nat)
    requires p <= 6
    ensures start == GCPStartBit + CompanyWidths[p] && start + IIRWidths[p] == SerialStartBit
  {
    SerialStartBit - IIRWidths[p]
  }

  /**
   * The partition table: the two fields share 44 bits, the company prefix
   * field holds every prefix of 12 - p digits and the IIR field every
   * indicator digit followed by p item-reference digits.
   */
  lemma PartitionTable(p: nat)
    requires p <= 6
    ensures CompanyWidths[p] + IIRWidths[p] == 44
    ensures Text.Pow10(12 - p) <= Pow2(CompanyWidths[p])
    ensures Text.Pow10(p + 1) <= Pow2(IIRWidths[p])
  {
    CompanyWidthsFit(p);
    IIRWidthsFit(p);
  }

  /** Powers of ten add their exponents. */
  lemma {:induction false} Pow10Add(a: nat, b: nat)
    ensures Text.Pow10(a + b) == Text.Pow10(a) * Text.Pow10(b)
    decreases b
  {
    if b > 0 {
      Pow10Add(a, b - 1);
      MulAssoc(10, Text.Pow10(a), Text.Pow10(b - 1));
    }
  }

  /** 10^(3m) <= 2^(10m), since 1000 <= 1024. */
  lemma {:induction false} ThousandBelow(m: nat)
    ensures Text.Pow10(3 * m) <= Pow2(10 * m)
    decreases m
  {
    if m > 0 {
      ThousandBelow(m - 1);
      Pow10Add(3 * (m - 1), 3);
      Pow2Add(10 * (m - 1), 10);
      assert Text.Pow10(3) == 1000 && Pow2(10) == 1024;
      MulMonotone(Text.Pow10(3 * (m - 1)), Pow2(10 * (m - 1)), 1000);
    }
  }

  /** 10^(3m + k) <= 2^(10m + w) for the (k, w) pairs the partition table needs. */
  lemma DecimalDigitsFit(m: nat, k: nat, w: nat)
    requires (k == 0 && w == 0) || (k == 1 && w == 4) || (k == 2 && w == 7)
    ensures Text.Pow10(3 * m + k) <= Pow2(10 * m + w)
  {
    ThousandBelow(m);
    Pow10Add(3 * m, k);
    Pow2Add(10 * m, w);
    assert Text.Pow10(k) <= Pow2(w);
    MulMonotone(Text.Pow10(3 * m), Pow2(10 * m), Text.Pow10(k));
    MulMonotone(Text.Pow10(k), Pow2(w), Pow2(10 * m));
  }

  lemma CompanyWidthsFit(p: nat)
    requires p <= 6
    ensures Text.Pow10(12 - p) <= Pow2(CompanyWidths[p])
  {
    var n := 12 - p;
    var m, k := n / 3, n % 3;
    var w := if k == 0 then 0 else if k == 1 then 4 else 7;
    DecimalDigitsFit(m, k, w);
    assert n == 3 * m + k && CompanyWidths[p] == 10 * m + w;
  }

  lemma IIRWidthsFit(p: nat)
    requires p <= 6
    ensures Text.Pow10(p + 1) <= Pow2(IIRWidths[p])
  {
    var n := p + 1;
    var m, k := n / 3, n % 3;
    var w := if k == 0 then 0 else if k == 1 then 4 else 7;
    DecimalDigitsFit(m, k, w);
    assert n == 3 * m + k && IIRWidths[p] == 10 * m + w;
  }

  /** Why DecodeSGTIN refuses its input. */
  datatype DecodeError =
    | NoData
    | WrongLength(header: Byte, length: nat)
    | NotSGTIN(header: Byte)
    | PartitionTooLarge(partition: nat)

  /** The lengths DecodeSGTIN accepts: 12 bytes after an SGTIN-96 header, 25 after an SGTIN-198 one. */
  predicate Framed(b: seq<Byte>) {
    |b| >= 1 && ((b[0] == SGTIN96Header && |b| == SGTIN96NumBytes) || (b[0] == SGTIN198Header && |b| == SGTIN198NumBytes))
  }

  /** Each byte in decimal. */
  function Decimals(bs: seq<Byte>): (ds: seq<Text.String>)
    ensures |ds| == |bs| && forall i | 0 <= i < |bs| :: ds[i] == Text.Decimal(bs[i])
  {
    seq(|bs|, i requires 0 <= i < |bs| => Text.Decimal(bs[i]))
  }

  /** fmt's %d of a []byte: the bytes in decimal, space separated, in brackets. */
  function ByteSliceText(bs: seq<Byte>): (t: Text.String)
    ensures |t| >= 2 && t[0] == Text.OpenBracket && t[|t| - 1] == Text.CloseBracket
  {
    [Text.OpenBracket] + Text.Join(Decimals(bs), [Text.Space]) + [Text.CloseBracket]
  }

  /** The bracketed text reads back: its space-separated fields are the bytes in decimal. */
  lemma ByteSliceTextReads(bs: seq<Byte>)
    requires |bs| >= 1
    ensures var t := ByteSliceText(bs);
      var f := Text.Split(t[1 .. |t| - 1], [Text.Space]);
      && |f| == |bs|
      && forall i | 0 <= i < |bs| :: Text.AllDigits(f[i]) && Text.DigitsValue(f[i]) == bs[i]
  {
    var ds := Decimals(bs);
    var t := ByteSliceText(bs);
    assert t[1 .. |t| - 1] == Text.Join(ds, [Text.Space]);
    forall k | 0 <= k < |ds|
      ensures Text.Space !in ds[k]
    {
      forall j | 0 <= j < |ds[k]|
        ensures ds[k][j] != Text.Space
      {
        assert Text.IsDigit(ds[k][j]);
      }
    }
    Text.SplitJoin(ds, Text.Space);
    forall i | 0 <= i < |bs|
      ensures Text.DigitsValue(ds[i]) == bs[i]
    {
      Text.DecimalValue(bs[i]);
    }
  }

  /** The serial as DecodeSGTIN renders it: SGTIN-96's 38 bits in decimal, SGTIN-198's 140 bits as a byte slice. */
  function SerialOf(b: seq<Byte>): (t: Text.String)
    requires Framed(b)
    ensures b[0] == SGTIN96Header ==> Text.AllDigits(t) && Text.DigitsValue(t) == BitsValue(b, SerialStartBit, 38)
  {
    if b[0] == SGTIN96Header then
      Text.DecimalValue(BitsValue(b, SerialStartBit, 38));
      Text.FormatInt(BitsValue(b, SerialStartBit, 38))
    else ByteSliceText(ExtractedBytes(b, SerialStartBit, 140))
  }

  /**
   * The indicator and item reference in the IIR field: the indicator is the
   * digit above the p item-reference digits.  This is the corrected split
   * (see SplitIIRAsWritten).
   */
  function SplitIIR(iir: nat, p: nat): (r: (nat, int))
    requires p <= 6
    ensures r.0 * Text.Pow10(p) + r.1 == iir && 0 <= r.1 < Text.Pow10(p)
  {
    TablesArePowers(p);
    var indicator := iir / MaxItems[p];
    (indicator, if p > 0 then iir - indicator * MaxItems[p] else 0)
  }

  /**
   * The split as DecodeSGTIN writes it, subtracting indicator * maxItems * 10:
   * for p > 0 the item reference comes out 9 * indicator * 10^p too small.
   */
  function SplitIIRAsWritten(iir: nat, p: nat): (r: (nat, int))
    requires p <= 6
    ensures r.0 == SplitIIR(iir, p).0
    ensures p > 0 ==> r.1 == SplitIIR(iir, p).1 - 9 * r.0 * Text.Pow10(p)
  {
    TablesArePowers(p);
    var indicator := iir / MaxItems[p];
    (indicator, if p > 0 then iir - indicator * MaxItems[p] * 10 else 0)
  }

  /** The as-written split is right exactly when the partition is 0 or the indicator is 0. */
  lemma SplitIIRAsWrittenAgrees(iir: nat, p: nat)
    requires p <= 6
    ensures SplitIIRAsWritten(iir, p) == SplitIIR(iir, p) <==> p == 0 || iir < Text.Pow10(p)
  {
    var r, w, P := SplitIIR(iir, p), SplitIIRAsWritten(iir, p), Text.Pow10(p);
    if p > 0 {
      assert w.0 == r.0 && w.1 == r.1 - 9 * r.0 * P;
      if r.0 == 0 {
        assert iir == r.1;
      } else {
        MulSign(r.0, P);
        MulSign(r.0, 9 * P);
        MulAssoc(9, r.0, P);
        assert iir >= P && w.1 != r.1;
      }
    }
  }

  /** The indicator is 0 exactly when the IIR is below 10^p. */
  lemma IndicatorZero(iir: nat, p: nat)
    requires p <= 6
    ensures SplitIIR(iir, p).0 == 0 <==> iir < Text.Pow10(p)
  {
    var r, P := SplitIIR(iir, p), Text.Pow10(p);
    if r.0 != 0 {
      MulSign(r.0, P);
      assert r.0 * P >= P;
    }
  }

  /** IIR 12 under partition 1 (indicator 1, item reference 2) comes out as item reference -88. */
  lemma SplitIIRAsWrittenExample()
    ensures SplitIIRAsWritten(12, 1) == (1, -88)
    ensures SplitIIR(12, 1) == (1, 2)
  {
    TablesArePowers(1);
  }

  /** The intended decoding of b, with the corrected IIR split. */
  function Decoded(b: seq<Byte>): (r: Result<SGTIN, DecodeError>)
    ensures r.Success? <==> Framed(b) && BitsValue(b, 11, 3) <= 6
  {
    if |b| == 0 then Failure(NoData)
    else if b[0] == SGTIN96Header && |b| != SGTIN96NumBytes then Failure(WrongLength(b[0], |b|))
    else if b[0] == SGTIN198Header && |b| != SGTIN198NumBytes then Failure(WrongLength(b[0], |b|))
    else if b[0] != SGTIN96Header && b[0] != SGTIN198Header then Failure(NotSGTIN(b[0]))
    else
      var p := BitsValue(b, 11, 3);
      if p > 6 then Failure(PartitionTooLarge(p))
      else
        var w := IIRWidths[p];
        var split := SplitIIR(BitsValue(b, IIRStart(p), w), p);
        Success(SGTIN(BitsValue(b, 8, 3), p, BitsValue(b, GCPStartBit, CompanyWidths[p]), split.0, split.1, SerialOf(b)))
  }

  /**
   * What DecodeSGTIN returns for b: Decoded(b), except that the item
   * reference comes from the split as written (SplitIIRAsWritten).
   */
  function DecodedAsWritten(b: seq<Byte>): (r: Result<SGTIN, DecodeError>)
    ensures r.Success? <==> Framed(b) && BitsValue(b, 11, 3) <= 6
  {
    match Decoded(b)
    case Failure(e) => Failure(e)
    case Success(s) =>
      var p := BitsValue(b, 11, 3);
      var w := IIRWidths[p];
      Success(s.(itemRef := SplitIIRAsWritten(BitsValue(b, IIRStart(p), w), p).1))
  }

  /**
   * DecodeSGTIN: decode SGTIN-96 or SGTIN-198 tag memory through bit
   * extractors, splitting the IIR field as the code does.  Go's filter > 7
   * check is left out: the filter is three bits wide (see DecodedFields).
   */
  method DecodeSGTIN(b: seq<Byte>) returns (r: Result<SGTIN, DecodeError>)
    ensures r == DecodedAsWritten(b)
  {
    if |b| == 0 {
      return Failure(NoData);
    }
    if b[0] == SGTIN96Header && |b| != SGTIN96NumBytes {
      return Failure(WrongLength(b[0], |b|));
    } else if b[0] == SGTIN198Header && |b| != SGTIN198NumBytes {
      return Failure(WrongLength(b[0], |b|));
    } else if b[0] != SGTIN96Header && b[0] != SGTIN198Header {
      return Failure(NotSGTIN(b[0]));
    }
    var serial := ReadSerial(b);
    var filter, partition := ReadHeaderFields(b);
    if partition > 6 {
      return Failure(PartitionTooLarge(partition));
    }
    var company, iir := ReadNumberFields(b, partition);
    TablesArePowers(partition);
    var indicator := iir / MaxItems[partition];
    var itemRef := 0;
    if partition > 0 {
      itemRef := iir - indicator * MaxItems[partition] * 10;
    }
    SplitIIRComputes(iir, partition, indicator, itemRef);
    DecodedAsWrittenValue(b, partition);
    r := Success(SGTIN(filter, partition, company, indicator, itemRef, serial));
  }

  /** The method's arithmetic is SplitIIRAsWritten. */
  lemma SplitIIRComputes(iir: nat, p: nat, indicator: int, itemRef: int)
    requires p <= 6 && indicator == iir / MaxItems[p]
    requires itemRef == if p > 0 then iir - indicator * MaxItems[p] * 10 else 0
    ensures SplitIIRAsWritten(iir, p) == (indicator, itemRef)
  {
  }

  /** Decoded's value on well-framed input with a partition of at most 6. */
  lemma DecodedValue(b: seq<Byte>, p: nat)
    requires Framed(b) && p == BitsValue(b, 11, 3) && p <= 6
    ensures var iir := BitsValue(b, IIRStart(p), IIRWidths[p]);
      Decoded(b) == Success(SGTIN(BitsValue(b, 8, 3), p, BitsValue(b, GCPStartBit, CompanyWidths[p]),
        SplitIIR(iir, p).0, SplitIIR(iir, p).1, SerialOf(b)))
  {
  }

  /** DecodedAsWritten's value on well-framed input with a partition of at most 6. */
  lemma DecodedAsWrittenValue(b: seq<Byte>, p: nat)
    requires Framed(b) && p == BitsValue(b, 11, 3) && p <= 6
    ensures var iir := BitsValue(b, IIRStart(p), IIRWidths[p]);
      DecodedAsWritten(b) == Success(SGTIN(BitsValue(b, 8, 3), p, BitsValue(b, GCPStartBit, CompanyWidths[p]),
        SplitIIRAsWritten(iir, p).0, SplitIIRAsWritten(iir, p).1, SerialOf(b)))
  {
    DecodedValue(b, p);
  }

  /** The serial, through the SGTIN-96 or SGTIN-198 serial extractor. */
  method ReadSerial(b: seq<Byte>) returns (serial: Text.String)
    requires Framed(b)
    ensures serial == SerialOf(b)
  {
    if b[0] == SGTIN96Header {
      var serial96 := new BitExtract.BitExtractor(SerialStartBit, 38);
      BitExtract.ExtractorFits(serial96, b);
      var v := serial96.ExtractUInt64(b);
      serial := Text.FormatInt(v);
    } else {
      var serial198 := new BitExtract.BitExtractor(SerialStartBit, 140);
      BitExtract.ExtractorFits(serial198, b);
      var bytes := serial198.Extract(b);
      serial := ByteSliceText(bytes);
    }
  }

  /** The filter and partition fields, through their extractors. */
  method ReadHeaderFields(b: seq<Byte>) returns (filter: nat, partition: nat)
    requires Framed(b)
    ensures filter == BitsValue(b, 8, 3) && partition == BitsValue(b, 11, 3)
  {
    var filterExt := new BitExtract.BitExtractor(8, 3);
    BitExtract.ExtractorFits(filterExt, b);
    filter := filterExt.ExtractUInt64(b);
    var partitionExt := new BitExtract.BitExtractor(11, 3);
    BitExtract.ExtractorFits(partitionExt, b);
    partition := partitionExt.ExtractUInt64(b);
  }

  /** The company prefix and IIR fields of partition p, through their extractors. */
  method ReadNumberFields(b: seq<Byte>, p: nat) returns (company: nat, iir: nat)
    requires Framed(b) && p <= 6
    ensures company == BitsValue(b, GCPStartBit, CompanyWidths[p])
    ensures iir == BitsValue(b, IIRStart(p), IIRWidths[p])
  {
    var companyExt := new BitExtract.BitExtractor(GCPStartBit, CompanyWidths[p]);
    BitExtract.ExtractorFits(companyExt, b);
    company := companyExt.ExtractUInt64(b);
    var iirExt := new BitExtract.BitExtractor(IIRStart(p), IIRWidths[p]);
    BitExtract.ExtractorFits(iirExt, b);
    iir := iirExt.ExtractUInt64(b);
  }

  /**
   * A decoded SGTIN: a filter of three bits, a partition of at most 6, a
   * company prefix that fits its field, an item reference below 10^p, and
   * the 44 bits after the partition are the company prefix followed by the
   * IIR field, which holds indicator * 10^p + item reference.
   */
  lemma DecodedFields(b: seq<Byte>)
    requires Decoded(b).Success?
    ensures var s := Decoded(b).value;
      && s.filter <= 7 && 0 <= s.partition <= 6
      && 0 <= s.companyPrefix < Pow2(CompanyWidths[s.partition])
      && 0 <= s.itemRef < Text.Pow10(s.partition)
      && BitsValue(b, GCPStartBit, 44)
         == s.companyPrefix * Pow2(IIRWidths[s.partition]) + s.indicator * Text.Pow10(s.partition) + s.itemRef
  {
    var s := Decoded(b).value;
    var p := s.partition;
    PartitionTable(p);
    BitsSplit(b, GCPStartBit, CompanyWidths[p], IIRWidths[p], 44, IIRStart(p));
  }

  /**
   * Decoding recovers what the bits encode: when the 44 bits after the
   * partition hold an in-range SGTIN's company prefix followed by its
   * indicator and item reference, those are what the intended decoding returns.
   */
  lemma DecodeRecovers(b: seq<Byte>, s: SGTIN)
    requires Framed(b) && InRanges(s) && BitsValue(b, 11, 3) == s.partition
    requires BitsValue(b, GCPStartBit, 44)
      == s.companyPrefix * Pow2(IIRWidths[s.partition]) + s.indicator * Text.Pow10(s.partition) + s.itemRef
    ensures Decoded(b).Success?
    ensures Decoded(b).value.companyPrefix == s.companyPrefix
    ensures Decoded(b).value.indicator == s.indicator && Decoded(b).value.itemRef == s.itemRef
  {
    var p := s.partition;
    var P, W := Text.Pow10(p), Pow2(IIRWidths[p]);
    var iir := s.indicator * P + s.itemRef;
    PartitionTable(p);
    MulMonotone(s.indicator, 9, P);
    MulMonotone(0, s.indicator, P);
    assert Text.Pow10(p + 1) == 10 * P;
    assert s.indicator * P <= 9 * P && 10 * P <= W;
    assert 0 <= iir < W;
    var whole := BitsValue(b, GCPStartBit, 44);
    assert whole == s.companyPrefix * W + iir;
    BitsSplitDivMod(b, GCPStartBit, CompanyWidths[p], IIRWidths[p], 44, IIRStart(p));
    DivModUnique(whole, W, s.companyPrefix, iir);
    DecodedValue(b, p);
    var split := SplitIIR(iir, p);
    DivModUnique(iir, P, s.indicator, s.itemRef);
    DivModUnique(iir, P, split.0, split.1);
  }

  /**
   * What DecodeSGTIN returns differs from the intended decoding exactly in
   * the item reference, and only when the partition and the indicator are
   * both non-zero.
   */
  lemma DecodersAgree(b: seq<Byte>)
    ensures DecodedAsWritten(b).Success? <==> Decoded(b).Success?
    ensures Decoded(b).Success? ==> DecodedAsWritten(b).value == Decoded(b).value.(itemRef := DecodedAsWritten(b).value.itemRef)
    ensures DecodedAsWritten(b) == Decoded(b) <==>
      Decoded(b).Failure? || Decoded(b).value.partition == 0 || Decoded(b).value.indicator == 0
  {
    if Decoded(b).Success? {
      var p := BitsValue(b, 11, 3);
      var w := IIRWidths[p];
      var iir := BitsValue(b, IIRStart(p), w);
      var split, asWritten := SplitIIR(iir, p), SplitIIRAsWritten(iir, p);
      DecodedValue(b, p);
      DecodedAsWrittenValue(b, p);
      var s, t := Decoded(b).value, DecodedAsWritten(b).value;
      assert s.indicator == split.0 && s.itemRef == split.1;
      assert t == s.(itemRef := asWritten.1);
      SplitIIRAsWrittenAgrees(iir, p);
      IndicatorZero(iir, p);
      assert t == s <==> asWritten == split;
    }
  }

  /**
   * The fields DecodeSGTIN returns: the 44 bits after the partition read as
   * the company prefix followed by indicator * 10^(p+1) + item reference
   * when p > 0, and by the indicator alone when p = 0 (item reference 0).
   */
  lemma DecodedAsWrittenFields(b: seq<Byte>)
    requires DecodedAsWritten(b).Success?
    ensures var s := DecodedAsWritten(b).value;
      && s.filter <= 7 && 0 <= s.partition <= 6
      && 0 <= s.companyPrefix < Pow2(CompanyWidths[s.partition])
      && (s.partition == 0 ==> s.itemRef == 0)
      && BitsValue(b, GCPStartBit, 44)
         == s.companyPrefix * Pow2(IIRWidths[s.partition])
            + (if s.partition > 0 then s.indicator * Text.Pow10(s.partition + 1) + s.itemRef else s.indicator)
  {
    var p := BitsValue(b, 11, 3);
    var iir := BitsValue(b, IIRStart(p), IIRWidths[p]);
    DecodedAsWrittenValue(b, p);
    DecodedFields(b);
    var c, w := SplitIIR(iir, p), SplitIIRAsWritten(iir, p);
    if p > 0 {
      AsWrittenSum(Text.Pow10(p), c.0, c.1, w.1);
      assert Text.Pow10(p + 1) == 10 * Text.Pow10(p);
    }
  }

  /** An item reference 9 * indicator * P short, with the indicator taken at 10 * P, adds up to the same IIR. */
  lemma {:induction false} AsWrittenSum(P: int, indicator: int, itemRef: int, short: int)
    requires short == itemRef - 9 * indicator * P
    ensures indicator * (10 * P) + short == indicator * P + itemRef
  {
    MulAssoc(9, indicator, P);
    MulAssoc(10, indicator, P);
  }

  /**
   * An SGTIN-96 whose partition and indicator are both non-zero, and whose
   * other fields are in range, passes ValidateRanges when decoded with the
   * corrected split, but DecodeSGTIN's item reference is negative, so its
   * result fails with BadItemRef.
   */
  lemma AsWrittenOutOfRange(b: seq<Byte>)
    requires Decoded(b).Success? && b[0] == SGTIN96Header
    requires var s := Decoded(b).value;
      0 < s.partition && 0 < s.indicator <= 9 && s.companyPrefix < Text.Pow10(12 - s.partition)
    ensures ValidateRanges(Decoded(b).value) == Pass
    ensures DecodedAsWritten(b).Success? && DecodedAsWritten(b).value.itemRef < 0
    ensures ValidateRanges(DecodedAsWritten(b).value)
      == Fail(BadItemRef(Decoded(b).value.partition, DecodedAsWritten(b).value.itemRef))
  {
    var s := Decoded(b).value;
    DecodedInRange(b);
    DecodersAgree(b);
    AsWrittenNegative(b);
    var t := DecodedAsWritten(b).value;
    assert t == s.(itemRef := t.itemRef);
  }

  /** The corrected decoding of such a tag is in range. */
  lemma DecodedInRange(b: seq<Byte>)
    requires Decoded(b).Success? && b[0] == SGTIN96Header
    requires var s := Decoded(b).value;
      0 < s.indicator <= 9 && s.companyPrefix < Text.Pow10(12 - s.partition)
    ensures InRanges(Decoded(b).value)
  {
    var s := Decoded(b).value;
    DecodedFields(b);
    DecodedValue(b, s.partition);
    var v := BitsValue(b, SerialStartBit, 38);
    assert s.serial == Text.Decimal(v);
    Serial96Short(v);
  }

  /** With a non-zero partition and indicator, DecodeSGTIN's item reference is negative. */
  lemma AsWrittenNegative(b: seq<Byte>)
    requires Decoded(b).Success?
    requires 0 < Decoded(b).value.partition && 0 < Decoded(b).value.indicator
    ensures DecodedAsWritten(b).Success? && DecodedAsWritten(b).value.itemRef < 0
  {
    var s := Decoded(b).value;
    var p := s.partition;
    DecodedFields(b);
    DecodedValue(b, p);
    DecodedAsWrittenValue(b, p);
    var iir := BitsValue(b, IIRStart(p), IIRWidths[p]);
    var w := SplitIIRAsWritten(iir, p);
    assert w.1 == s.itemRef - 9 * s.indicator * Text.Pow10(p);
    MulSign(s.indicator, Text.Pow10(p));
    MulAssoc(9, s.indicator, Text.Pow10(p));
  }

  /** A number below 2^38 has at most 13 decimal digits. */
  lemma Serial96Short(n: nat)
    requires n < Pow2(38)
    ensures |Text.Decimal(n)| <= 13
  {
    Pow2Byte(8);
    Pow2Add(8, 8);
    assert Pow2(16) == 65536;
    Pow2Add(16, 16);
    assert Pow2(32) == 4294967296;
    Pow2Add(32, 8);
    assert Pow2(40) == 1099511627776;
    Pow2Monotone(38, 40);
    TablesArePowers(0);
    assert Text.Pow10(13) == 10 * Text.Pow10(12) == 10000000000000;
    Text.DecimalLength(n, 13);
  }

  /** The powers of two below a byte. */
  lemma SmallPow2()
    ensures Pow2(1) == 2 && Pow2(2) == 4 && Pow2(3) == 8 && Pow2(4) == 16
    ensures Pow2(5) == 32 && Pow2(6) == 64 && Pow2(7) == 128 && Pow2(8) == 256
  {
    assert Pow2(1) == 2;
    assert Pow2(2) == 4;
    assert Pow2(3) == 8;
    assert Pow2(4) == 16;
    assert Pow2(5) == 32;
    assert Pow2(6) == 64;
    assert Pow2(7) == 128;
  }

  /** Appending the whole byte k to a bit range that ends at it. */
  lemma {:induction false} AppendByte(b: seq<Byte>, start: nat, len: nat, k: nat)
    requires start + len == 8 * k && k < |b|
    ensures BitsValue(b, start, len + 8) == BitsValue(b, start, len) * 256 + b[k]
  {
    BitsSplit(b, start, len, 8, len + 8, 8 * k);
    ByteBits(b, k);
    Pow2Byte(8);
  }

  /** The partition, company prefix and IIR fields of the test tag 301000181C2CC193A8B43711, byte by byte. */
  lemma ItemRefTestP4Fields(b: seq<Byte>)
    requires |b| == 12 && b[1] == 0x10 && b[2] == 0x00 && b[3] == 0x18 && b[4] == 0x1C
    requires b[5] == 0x2C && b[6] == 0xC1 && b[7] == 0x93
    ensures BitsValue(b, 11, 3) == 4
    ensures BitsValue(b, GCPStartBit, 27) == 12344
    ensures BitsValue(b, 41, 17) == 45830
  {
    SmallPow2();
    ByteSplit(b, 1, 3);
    assert BitsValue(b, 11, 5) == 16;
    BitsSplitDivMod(b, 11, 3, 2, 5, 14);
    AppendByte(b, 14, 2, 2);
    AppendByte(b, 14, 10, 3);
    AppendByte(b, 14, 18, 4);
    assert BitsValue(b, 14, 26) == 6172;
    ByteSplit(b, 5, 1);
    assert BitsValue(b, 40, 1) == 0 && BitsValue(b, 41, 7) == 44;
    BitsSplit(b, 14, 26, 1, 27, 40);
    AppendByte(b, 41, 7, 6);
    assert BitsValue(b, 41, 15) == 11457;
    ByteSplit(b, 7, 2);
    assert BitsValue(b, 56, 2) == 2;
    BitsSplit(b, 41, 15, 2, 17, 56);
  }

  /**
   * sgtin_test.go expects "Item reference out of range" for
   * 301000181C2CC193A8B43711, and so for every SGTIN-96 that starts with
   * its first eight bytes, whatever its serial.  That holds only for the
   * split as written: item reference 45830 - 4 * 10^5 = -354170, where the
   * corrected split gives indicator 4 and item reference 5830, in range.
   */
  lemma ItemRefTestP4Ranges(b: seq<Byte>)
    requires |b| == 12 && b[0] == 0x30 && b[1] == 0x10 && b[2] == 0x00 && b[3] == 0x18
    requires b[4] == 0x1C && b[5] == 0x2C && b[6] == 0xC1 && b[7] == 0x93
    ensures DecodedAsWritten(b).Success? && Decoded(b).Success?
    ensures ValidateRanges(DecodedAsWritten(b).value) == Fail(BadItemRef(4, -354170))
    ensures Decoded(b).value.indicator == 4 && Decoded(b).value.itemRef == 5830
    ensures ValidateRanges(Decoded(b).value) == Pass
  {
    ItemRefTestP4Fields(b);
    TablesArePowers(4);
    assert IIRStart(4) == 41 && IIRWidths[4] == 17 && CompanyWidths[4] == 27;
    assert SplitIIR(45830, 4) == (4, 5830);
    assert SplitIIRAsWritten(45830, 4) == (4, -354170);
    DecodedValue(b, 4);
    DecodedAsWrittenValue(b, 4);
    AsWrittenOutOfRange(b);
  }

  /** The partition, company prefix and IIR fields of the test tag 30244032EACFF145202001E8, byte by byte. */
  lemma ItemRefTestP1Fields(b: seq<Byte>)
    requires |b| == 12 && b[1] == 0x24 && b[2] == 0x40 && b[3] == 0x32 && b[4] == 0xEA
    requires b[5] == 0xCF && b[6] == 0xF1 && b[7] == 0x45
    ensures BitsValue(b, 11, 3) == 1
    ensures BitsValue(b, GCPStartBit, 37) == 0x4032EACF * 8 + 7
    ensures BitsValue(b, 51, 7) == 69
  {
    SmallPow2();
    ByteSplit(b, 1, 3);
    BitsSplitDivMod(b, 11, 3, 2, 5, 14);
    AppendByte(b, 14, 2, 2);
    AppendByte(b, 14, 10, 3);
    AppendByte(b, 14, 18, 4);
    AppendByte(b, 14, 26, 5);
    BitsSplit(b, 14, 34, 3, 37, 48);
    ByteSplit(b, 6, 3);
    BitsSplit(b, 51, 5, 2, 7, 56);
    ByteSplit(b, 7, 2);
  }

  /**
   * sgtin_test.go expects "Item reference out of range" for
   * 30244032EACFF145202001E8 too: item reference 69 - 6 * 10^2 = -531 as
   * written, where the corrected split gives indicator 6 and item
   * reference 9, in range.
   */
  lemma ItemRefTestP1Ranges(b: seq<Byte>)
    requires |b| == 12 && b[0] == 0x30 && b[1] == 0x24 && b[2] == 0x40 && b[3] == 0x32
    requires b[4] == 0xEA && b[5] == 0xCF && b[6] == 0xF1 && b[7] == 0x45
    ensures DecodedAsWritten(b).Success? && Decoded(b).Success?
    ensures ValidateRanges(DecodedAsWritten(b).value) == Fail(BadItemRef(1, -531))
    ensures Decoded(b).value.indicator == 6 && Decoded(b).value.itemRef == 9
    ensures ValidateRanges(Decoded(b).value) == Pass
  {
    ItemRefTestP1Fields(b);
    TablesArePowers(1);
    assert IIRStart(1) == 51 && IIRWidths[1] == 7 && CompanyWidths[1] == 37;
    assert SplitIIR(69, 1) == (6, 9);
    assert SplitIIRAsWritten(69, 1) == (6, -531);
    DecodedValue(b, 1);
    DecodedAsWrittenValue(b, 1);
    AsWrittenOutOfRange(b);
  }

  /** An SGTIN-96 serial decodes to the decimal digits of its 38 bits, which CanSGTIN96 accepts. */
  lemma DecodedSerial96(b: seq<Byte>)
    requires DecodedAsWritten(b).Success? && b[0] == SGTIN96Header
    ensures Text.DigitsValue(DecodedAsWritten(b).value.serial) == BitsValue(b, SerialStartBit, 38)
    ensures CanSGTIN96(DecodedAsWritten(b).value) == Pass
  {
    DecimalSerial96(BitsValue(b, SerialStartBit, 38));
  }
}
