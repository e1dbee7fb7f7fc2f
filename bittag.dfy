/**
 * Tag URIs over raw bit fields, after RFC 4151: a decoder holds a URI prefix
 * "tag:" + authority + "," + date and a bit exploder; decoding tag data
 * gives one big-endian number per field, rendered as
 * prefix ":" field "." field ...; reading a URI back checks the prefix and
 * splits the rest into its numeric fields.
 */
module BitTag {
  import opened Wrappers
  import opened Bits
  import Text
  import BitFields

  /** What the decoder reports instead of a result. */
  datatype TagError =
    | MissingAuthority
    | MissingDate
    | BadAuthority
    | BadDate
    | ShortData(bits: nat, want: nat)
    | Exploder(cause: BitFields.Error)
    | BadPrefix
    | MissingFields(count: nat)
    | BadField(index: nat)
    | NotEnoughFields(wanted: int)

  const Comma: Byte := 44

  // ---------------------------------------------------------------------
  // The tagging authority
  // ---------------------------------------------------------------------

  predicate IsLower(c: Byte) {
    97 <= c <= 122
  }

  /** `[-a-z0-9]`: a byte a label may hold. */
  predicate IsLabelByte(c: Byte) {
    IsLower(c) || Text.IsDigit(c) || c == Text.Minus
  }

  predicate IsLabelRun(s: Text.String) {
    forall i | 0 <= i < |s| :: IsLabelByte(s[i])
  }

  /**
   * The repeated group of the authority pattern, as written:
   * `(\.[-a-z0-9]{1,63}|[-a-z0-9]{1,63})*` matches t when t is a run of
   * groups, each a dot and 1 to 63 label bytes or just 1 to 63 label bytes.
   */
  ghost predicate Groups(t: Text.String)
    decreases |t|, 1
  {
    || t == []
    || (exists n :: DotGroup(t, n))
    || (exists n :: PlainGroup(t, n))
  }

  /** t opens with the group `\.[-a-z0-9]{n}`, 1 <= n <= 63, and the groups go on after it. */
  ghost predicate DotGroup(t: Text.String, n: int)
    decreases |t|, 0
  {
    1 <= n <= 63 && n < |t| && t[0] == Text.Dot && IsLabelRun(t[1 .. n + 1]) && Groups(t[n + 1 ..])
  }

  /** t opens with the group `[-a-z0-9]{n}`, 1 <= n <= 63, and the groups go on after it. */
  ghost predicate PlainGroup(t: Text.String, n: int)
    decreases |t|, 0
  {
    1 <= n <= 63 && n <= |t| && IsLabelRun(t[..n]) && Groups(t[n..])
  }

  /** The authority pattern `^[a-z](\.[-a-z0-9]{1,63}|[-a-z0-9]{1,63})*$`, as written. */
  ghost predicate AuthorityPattern(s: Text.String) {
    |s| >= 1 && IsLower(s[0]) && Groups(s[1..])
  }

  /** Label bytes and dots, no two dots in a row, and no dot at the end. */
  predicate DotSeparated(t: Text.String) {
    && (forall i | 0 <= i < |t| :: IsLabelByte(t[i]) || t[i] == Text.Dot)
    && (forall i | 0 <= i < |t| - 1 :: !(t[i] == Text.Dot && t[i + 1] == Text.Dot))
    && (|t| > 0 ==> t[|t| - 1] != Text.Dot)
  }

  /** What the authority pattern accepts: a lower-case letter, then dot-separated label bytes. */
  predicate AuthorityShape(s: Text.String) {
    |s| >= 1 && IsLower(s[0]) && DotSeparated(s[1..])
  }

  lemma {:induction false} DotSeparatedDrop(t: Text.String, k: nat)
    requires DotSeparated(t) && k <= |t|
    ensures DotSeparated(t[k..])
  {
    var u := t[k..];
    forall i | 0 <= i < |u| - 1
      ensures !(u[i] == Text.Dot && u[i + 1] == Text.Dot)
    {
      assert u[i] == t[k + i] && u[i + 1] == t[k + i + 1];
    }
  }

  lemma {:induction false} DotSeparatedConcat(p: Text.String, u: Text.String)
    requires DotSeparated(p) && DotSeparated(u)
    ensures DotSeparated(p + u)
  {
    var t := p + u;
    forall i | 0 <= i < |t| - 1
      ensures !(t[i] == Text.Dot && t[i + 1] == Text.Dot)
    {
      if i + 1 < |p| {
        assert t[i] == p[i] && t[i + 1] == p[i + 1];
      } else if i + 1 == |p| {
        assert t[i] == p[|p| - 1];
      } else {
        assert t[i] == u[i - |p|] && t[i + 1] == u[i - |p| + 1];
      }
    }
    forall i | 0 <= i < |t|
      ensures IsLabelByte(t[i]) || t[i] == Text.Dot
    {
      if i < |p| {
        assert t[i] == p[i];
      } else {
        assert t[i] == u[i - |p|];
      }
    }
  }

  /** The repeated group matches exactly the dot-separated runs: its 63-byte bound never bites. */
  lemma GroupsShape(t: Text.String)
    ensures Groups(t) <==> DotSeparated(t)
  {
    if DotSeparated(t) {
      SeparatedGroups(t);
    }
    if Groups(t) {
      GroupsSeparated(t);
    }
  }

  /** Dot-separated label bytes match the repeated group, one byte per group. */
  lemma {:induction false} SeparatedGroups(t: Text.String)
    requires DotSeparated(t)
    ensures Groups(t)
    decreases |t|
  {
    if t != [] {
      if t[0] == Text.Dot {
        assert t[1] != Text.Dot;
        DotSeparatedDrop(t, 2);
        SeparatedGroups(t[2..]);
        assert IsLabelRun(t[1 .. 2]);
        assert DotGroup(t, 1);
      } else {
        DotSeparatedDrop(t, 1);
        SeparatedGroups(t[1..]);
        assert IsLabelRun(t[..1]);
        assert PlainGroup(t, 1);
      }
    }
  }

  /** Whatever the repeated group matches is dot-separated label bytes. */
  lemma {:induction false} GroupsSeparated(t: Text.String)
    requires Groups(t)
    ensures DotSeparated(t)
    decreases |t|
  {
    if t == [] {
    } else if n :| DotGroup(t, n) {
      GroupsSeparated(t[n + 1 ..]);
      DotGroupSeparated(t, n);
    } else {
      assert !exists n :: DotGroup(t, n);
      assert exists n :: PlainGroup(t, n);
      var n :| PlainGroup(t, n);
      GroupsSeparated(t[n..]);
      DotSeparatedConcat(t[..n], t[n..]);
      assert t == t[..n] + t[n..];
    }
  }

  /** A dot group in front of dot-separated bytes keeps them dot-separated. */
  lemma DotGroupSeparated(t: Text.String, n: int)
    requires DotGroup(t, n) && DotSeparated(t[n + 1 ..])
    ensures DotSeparated(t)
  {
    var g := t[..n + 1];
    assert g[n] == t[n];
    assert DotSeparated(g) by {
      forall i | 1 <= i < |g|
        ensures g[i] != Text.Dot
      {
        assert g[i] == t[1 .. n + 1][i - 1];
      }
    }
    DotSeparatedConcat(g, t[n + 1 ..]);
    assert t == g + t[n + 1 ..];
  }

  /** The authority pattern accepts exactly: a letter a-z, then label bytes and dots with no ".." and no trailing ".". */
  lemma AuthorityPatternShape(s: Text.String)
    ensures AuthorityPattern(s) <==> AuthorityShape(s)
  {
    if |s| >= 1 {
      GroupsShape(s[1..]);
    }
  }

  /**
   * The authority check as intended: scanning t with `run` bytes already in
   * the current label, every label holds 1 to 63 label bytes and is ended
   * by a dot or by the end of t.
   */
  predicate Labels(t: Text.String, run: nat)
    decreases |t|
  {
    if t == [] then run >= 1
    else if t[0] == Text.Dot then run >= 1 && Labels(t[1..], 0)
    else IsLabelByte(t[0]) && run < 63 && Labels(t[1..], run + 1)
  }

  /** A letter a-z, then labels of 1 to 63 label bytes separated by single dots. */
  predicate Authority(s: Text.String) {
    |s| >= 1 && IsLower(s[0]) && Labels(s, 0)
  }

  lemma {:induction false} LabelsShape(t: Text.String, run: nat)
    requires Labels(t, run)
    ensures DotSeparated(t)
    ensures t != [] && t[0] == Text.Dot ==> run >= 1
    decreases |t|
  {
    if t != [] {
      var rest := t[1..];
      LabelsShape(rest, if t[0] == Text.Dot then 0 else run + 1);
      assert t == [t[0]] + rest;
      if t[0] == Text.Dot {
        assert rest != [] && rest[0] != Text.Dot;
      }
      DotSeparatedCons(t[0], rest);
    }
  }

  lemma {:induction false} DotSeparatedCons(c: Byte, u: Text.String)
    requires DotSeparated(u)
    requires IsLabelByte(c) || (c == Text.Dot && u != [] && u[0] != Text.Dot)
    ensures DotSeparated([c] + u)
  {
    var t := [c] + u;
    forall i | 1 <= i < |t|
      ensures t[i] == u[i - 1]
    {
    }
  }

  /** Every authority the intended check accepts, the pattern accepts too. */
  lemma AuthorityMatchesPattern(s: Text.String)
    requires Authority(s)
    ensures AuthorityPattern(s)
  {
    LabelsShape(s, 0);
    DotSeparatedDrop(s, 1);
    AuthorityPatternShape(s);
  }

  /** A run of label bytes can only grow the current label to at most 63 bytes. */
  lemma {:induction false} LabelsRun(t: Text.String, run: nat)
    requires run <= 63 && IsLabelRun(t) && Labels(t, run)
    ensures run + |t| <= 63
    decreases |t|
  {
    if t != [] {
      assert IsLabelByte(t[0]) && t[0] != Text.Dot;
      assert IsLabelRun(t[1..]) by {
        forall i | 0 <= i < |t| - 1
          ensures IsLabelByte(t[1..][i])
        {
          assert t[1..][i] == t[i + 1];
        }
      }
      LabelsRun(t[1..], run + 1);
    }
  }

  /** A byte other than a dot in front of a string without dots adds no dot. */
  lemma FreeCons(c: Byte, u: Text.String)
    requires c != Text.Dot && Text.Free(u, [Text.Dot])
    ensures Text.Free([c] + u, [Text.Dot])
  {
    var t := [c] + u;
    forall j | 0 <= j <= |t|
      ensures !Text.OccursAt(t, [Text.Dot], j)
    {
      if j >= 1 && j < |t| {
        assert t[j .. j + 1] == u[j - 1 .. j];
        assert !Text.OccursAt(u, [Text.Dot], j - 1);
      }
    }
  }

  /** A byte other than a dot in front of a string moves its first dot one byte on. */
  lemma IndexCons(c: Byte, u: Text.String)
    requires c != Text.Dot
    ensures var r, ru := Text.IndexOf([c] + u, [Text.Dot]), Text.IndexOf(u, [Text.Dot]);
      && (r.None? <==> ru.None?)
      && (ru.Some? ==> r.value == ru.value + 1)
  {
    var t := [c] + u;
    var r, ru := Text.IndexOf(t, [Text.Dot]), Text.IndexOf(u, [Text.Dot]);
    assert !Text.OccursAt(t, [Text.Dot], 0);
    if ru.None? {
      FreeCons(c, u);
    } else {
      var i := ru.value;
      assert Text.OccursAt(t, [Text.Dot], i + 1) by {
        assert t[i + 1] == u[i];
      }
      var j := r.value;
      assert Text.OccursAt(u, [Text.Dot], j - 1) by {
        assert u[j - 1] == t[j];
      }
    }
  }

  /** A split at one more byte in front of a byte that is not the separator. */
  lemma {:induction false} SplitCons(c: Byte, u: Text.String)
    requires c != Text.Dot
    ensures var p := Text.Split([c] + u, [Text.Dot]);
            var q := Text.Split(u, [Text.Dot]);
            p == [[c] + q[0]] + q[1..]
  {
    var t := [c] + u;
    var ru := Text.IndexOf(u, [Text.Dot]);
    IndexCons(c, u);
    Text.SplitStep(t, [Text.Dot]);
    Text.SplitStep(u, [Text.Dot]);
    if ru.Some? {
      var i := ru.value;
      assert t[..i + 1] == [c] + u[..i];
      assert t[i + 2 ..] == u[i + 1 ..];
    }
  }

  /**
   * Scanning with the intended check: the current label, run bytes in, ends
   * with 1 to 63 bytes, and every later dot-separated part holds 1 to 63.
   */
  lemma {:induction false} LabelsParts(t: Text.String, run: nat)
    requires run <= 63 && Labels(t, run)
    ensures var p := Text.Split(t, [Text.Dot]);
            && 1 <= run + |p[0]| <= 63
            && forall k | 1 <= k < |p| :: 1 <= |p[k]| <= 63
    decreases |t|
  {
    var p := Text.Split(t, [Text.Dot]);
    if t == [] {
      assert Text.IndexOf(t, [Text.Dot]).None?;
    } else if t[0] == Text.Dot {
      assert Text.OccursAt(t, [Text.Dot], 0);
      assert Text.IndexOf(t, [Text.Dot]) == Some(0);
      LabelsParts(t[1..], 0);
      assert p == [[]] + Text.Split(t[1..], [Text.Dot]);
    } else {
      LabelsParts(t[1..], run + 1);
      SplitCons(t[0], t[1..]);
      assert [t[0]] + t[1..] == t;
    }
  }

  /** What the check intends: every dot-separated part of an accepted authority has 1 to 63 bytes. */
  lemma AuthorityParts(s: Text.String)
    requires Authority(s)
    ensures forall k | 0 <= k < |Text.Split(s, [Text.Dot])| :: 1 <= |Text.Split(s, [Text.Dot])[k]| <= 63
  {
    LabelsParts(s, 0);
  }

  /**
   * The pattern as written lets a 64-byte label through: "a" followed by 64
   * "b"s matches it, though the intended check refuses it.
   */
  lemma AuthorityPatternLongLabel()
    ensures var s := [97 as Byte] + seq(64, _ => 98 as Byte);
            AuthorityPattern(s) && !Authority(s)
  {
    var s := [97 as Byte] + seq(64, _ => 98 as Byte);
    assert DotSeparated(s[1..]);
    AuthorityPatternShape(s);
    if Authority(s) {
      assert IsLabelRun(s);
      LabelsRun(s, 0);
    }
  }

  // ---------------------------------------------------------------------
  // The date: time.Parse with layout "2006-01-02"
  // ---------------------------------------------------------------------

  predicate IsLeap(year: nat) {
    year % 4 == 0 && (year % 100 != 0 || year % 400 == 0)
  }

  /** The days in a month of a year, February having 29 in leap years. */
  function DaysIn(month: nat, year: nat): (n: nat)
    requires 1 <= month <= 12
    ensures 28 <= n <= 31
    ensures n == 29 <==> month == 2 && IsLeap(year)
  {
    if month == 2 then (if IsLeap(year) then 29 else 28)
    else if month == 4 || month == 6 || month == 9 || month == 11 then 30
    else 31
  }

  /**
   * The dates the layout "2006-01-02" parses: four year digits, a hyphen,
   * two month digits 01 to 12, a hyphen, two day digits from 01 to the days
   * in that month, and nothing after them.
   */
  predicate ValidDate(d: Text.String) {
    && |d| == 10
    && d[4] == Text.Minus && d[7] == Text.Minus
    && Text.AllDigits(d[..4]) && Text.AllDigits(d[5 .. 7]) && Text.AllDigits(d[8..])
    && 1 <= Text.DigitsValue(d[5 .. 7]) <= 12
    && 1 <= Text.DigitsValue(d[8..]) <= DaysIn(Text.DigitsValue(d[5 .. 7]), Text.DigitsValue(d[..4]))
  }

  // ---------------------------------------------------------------------
  // The tagging entity
  // ---------------------------------------------------------------------

  /** "tag:" */
  const TagScheme: Text.String := [116, 97, 103, 58]

  /**
   * SetTaggingEntity's checks, in the order it makes them, and the URI
   * prefix it builds when they pass.  The authority is matched against the
   * pattern as written (AuthorityShape is its language).
   */
  function TaggingEntity(authority: Text.String, date: Text.String): (r: Result<Text.String, TagError>)
    ensures r.Success? <==> && authority != [] && date != []
                            && |authority| <= 255 && AuthorityPattern(authority) && ValidDate(date)
    ensures authority == [] ==> r == Failure(MissingAuthority)
    ensures authority != [] && date == [] ==> r == Failure(MissingDate)
    ensures authority != [] && date != [] && (|authority| > 255 || !AuthorityPattern(authority)) ==> r == Failure(BadAuthority)
    ensures r.Success? ==> r.value == TagScheme + authority + [Comma] + date
  {
    AuthorityPatternShape(authority);
    if authority == [] then Failure(MissingAuthority)
    else if date == [] then Failure(MissingDate)
    else if |authority| > 255 || !AuthorityShape(authority) then Failure(BadAuthority)
    else if !ValidDate(date) then Failure(BadDate)
    else Success(TagScheme + authority + [Comma] + date)
  }

  /** An authority the pattern accepts holds no comma and no colon. */
  lemma {:induction false} AuthorityBytes(s: Text.String)
    requires AuthorityShape(s)
    ensures Comma !in s && Text.Colon !in s
  {
    forall i | 0 <= i < |s|
      ensures s[i] != Comma && s[i] != Text.Colon
    {
      if i > 0 {
        assert s[i] == s[1..][i - 1];
      }
    }
  }

  /**
   * The pattern as written lets SetTaggingEntity accept "a" followed by 64
   * "b"s, whose one label is longer than 63 bytes.
   */
  lemma TaggingEntityLongLabel()
    ensures var s := [97 as Byte] + seq(64, _ => 98 as Byte);
            TaggingEntity(s, ExampleDate).Success? && !Authority(s)
  {
    AuthorityPatternLongLabel();
    DateExample();
  }

  /** A string, a comma and a string: the comma is the first one when the first string has none. */
  lemma {:induction false} CommaCut(a1: Text.String, d1: Text.String, a2: Text.String, d2: Text.String)
    requires Comma !in a1 && Comma !in a2
    requires a1 + [Comma] + d1 == a2 + [Comma] + d2
    ensures a1 == a2 && d1 == d2
  {
    var x := a1 + [Comma] + d1;
    Text.IndexAfterPart(a1, Comma, d1);
    Text.IndexAfterPart(a2, Comma, d2);
    assert a1 == x[..|a1|] == a2;
    assert d1 == x[|a1| + 1 ..] == d2;
  }

  /** Two tagging entities give the same prefix only when their authorities and dates agree. */
  lemma TaggingEntityUnique(a1: Text.String, d1: Text.String, a2: Text.String, d2: Text.String)
    requires TaggingEntity(a1, d1).Success? && TaggingEntity(a2, d2).Success?
    requires TaggingEntity(a1, d1).value == TaggingEntity(a2, d2).value
    ensures a1 == a2 && d1 == d2
  {
    AuthorityPatternShape(a1);
    AuthorityPatternShape(a2);
    AuthorityBytes(a1);
    AuthorityBytes(a2);
    var t1, t2 := a1 + [Comma] + d1, a2 + [Comma] + d2;
    assert TagScheme + a1 + [Comma] + d1 == TagScheme + t1;
    assert TagScheme + a2 + [Comma] + d2 == TagScheme + t2;
    assert t1 == (TagScheme + t1)[|TagScheme|..];
    assert t2 == (TagScheme + t2)[|TagScheme|..];
    CommaCut(a1, d1, a2, d2);
  }

  // ---------------------------------------------------------------------
  // BitTag and its URI
  // ---------------------------------------------------------------------

  /** The decimal renderings of some numbers (fmt's %d of a uint64 or a *big.Int). */
  function Decimals(vs: seq<nat>): (ds: seq<Text.String>)
    ensures |ds| == |vs|
  {
    seq(|vs|, i requires 0 <= i < |vs| => Text.Decimal(vs[i]))
  }

  /** The specific part of a tag URI: the values in decimal with dots between them. */
  function Dotted(vs: seq<nat>): Text.String {
    Text.Join(Decimals(vs), [Text.Dot])
  }

  lemma {:induction false} DottedCons(vs: seq<nat>)
    requires |vs| >= 2
    ensures Dotted(vs) == Text.Decimal(vs[0]) + [Text.Dot] + Dotted(vs[1..])
  {
    assert Decimals(vs) == [Text.Decimal(vs[0])] + Decimals(vs[1..]);
    Text.JoinCons(Text.Decimal(vs[0]), Decimals(vs[1..]), [Text.Dot]);
  }

  /** A decoded tag: the decoder's URI prefix and one number per field. */
  datatype BitTag = BitTag(uriPrefix: Text.String, fields: seq<nat>)
  {
    function NumFields(): (n: nat)
      ensures n == |fields|
    {
      |fields|
    }

    /** The tag URI: prefix ":" the dotted decimal fields. */
    function TagURI(): Text.String {
      uriPrefix + [Text.Colon] + Dotted(fields)
    }

    /** String: each field but the last followed by a dot, then the last; empty for no fields. */
    method String() returns (s: Text.String)
      ensures s == Dotted(fields)
    {
      if |fields| == 0 {
        return [];
      }
      var b: Text.String := [];
      var i := 0;
      while i < |fields| - 1
        invariant 0 <= i <= |fields| - 1
        invariant b + Dotted(fields[i..]) == Dotted(fields)
      {
        DottedCons(fields[i..]);
        assert fields[i..][1..] == fields[i + 1 ..];
        b := b + Text.Decimal(fields[i]) + [Text.Dot];
        i := i + 1;
      }
      assert Dotted(fields[i..]) == Text.Decimal(fields[i]);
      s := b + Text.Decimal(fields[i]);
    }

    /** URI: the prefix, a colon and String. */
    method URI() returns (u: Text.String)
      ensures u == TagURI()
    {
      var specific := String();
      u := uriPrefix + [Text.Colon] + specific;
    }
  }

  // ---------------------------------------------------------------------
  // Reading a URI back
  // ---------------------------------------------------------------------

  /** `^\d(\d*)$`: one or more ASCII digits. */
  predicate IsNumeral(s: Text.String) {
    |s| >= 1 && Text.AllDigits(s)
  }

  /** The index of the first piece that is not a numeral, or |fs|. */
  function FirstNonNumeral(fs: seq<Text.String>): (k: nat)
    ensures k <= |fs|
    ensures forall j | 0 <= j < k :: IsNumeral(fs[j])
    ensures k < |fs| ==> !IsNumeral(fs[k])
  {
    if fs == [] || !IsNumeral(fs[0]) then 0 else 1 + FirstNonNumeral(fs[1..])
  }

  /**
   * Decoder.Fields for a decoder with this prefix and n fields: the URI must
   * start with the prefix and a colon, the rest must split at dots into n
   * pieces, the last taking any further dots, and every piece must be a
   * numeral.
   */
  function ParseFields(prefix: Text.String, n: nat, uri: Text.String): (r: Result<seq<Text.String>, TagError>)
    requires n >= 1
    ensures !Text.HasPrefix(uri, prefix + [Text.Colon]) ==> r == Failure(BadPrefix)
    ensures Text.HasPrefix(uri, prefix + [Text.Colon]) ==>
      var fields := Text.SplitN(uri[|prefix| + 1 ..], [Text.Dot], n);
      && (|fields| < n ==> r == Failure(MissingFields(n - |fields|)))
      && (|fields| >= n && FirstNonNumeral(fields) < |fields| ==> r == Failure(BadField(FirstNonNumeral(fields))))
      && (r.Success? <==> |fields| >= n && forall k | 0 <= k < |fields| :: IsNumeral(fields[k]))
      && (r.Success? ==> r.value == fields)
    ensures r.Success? ==> && Text.HasPrefix(uri, prefix + [Text.Colon])
                           && |r.value| == n
                           && Text.Join(r.value, [Text.Dot]) == uri[|prefix| + 1 ..]
                           && forall k | 0 <= k < n :: IsNumeral(r.value[k])
  {
    if !Text.HasPrefix(uri, prefix + [Text.Colon]) then Failure(BadPrefix)
    else
      var rest := uri[|prefix| + 1 ..];
      var fields := Text.SplitN(rest, [Text.Dot], n);
      if |fields| < n then Failure(MissingFields(n - |fields|))
      else
        var k := FirstNonNumeral(fields);
        if k < |fields| then Failure(BadField(k))
        else
          Text.JoinSplitAtMost(rest, [Text.Dot], n);
          Success(fields)
  }

  /**
   * Decoder.Field, corrected: the URI's fields as ParseFields reads them,
   * and an error for an index outside them.
   */
  function FieldAt(prefix: Text.String, n: nat, uri: Text.String, idx: int): (r: Result<Text.String, TagError>)
    requires n >= 1
    ensures r.Success? <==> ParseFields(prefix, n, uri).Success? && 0 <= idx < n
    ensures r.Success? ==> r.value == ParseFields(prefix, n, uri).value[idx]
  {
    var fields :- ParseFields(prefix, n, uri);
    if idx < 0 || idx >= |fields| then Failure(NotEnoughFields(idx)) else Success(fields[idx])
  }

  /** Field's guard as written: it refuses only an index beyond the count. */
  predicate FieldGuardAsWritten(idx: int, count: nat) {
    !(idx > count)
  }

  lemma {:induction false} NumeralsFree(ds: seq<Text.String>)
    requires forall k | 0 <= k < |ds| :: Text.AllDigits(ds[k])
    ensures forall k | 0 <= k < |ds| :: Text.Dot !in ds[k]
  {
    forall k | 0 <= k < |ds|
      ensures Text.Dot !in ds[k]
    {
      assert forall i | 0 <= i < |ds[k]| :: ds[k][i] != Text.Dot;
    }
  }

  /**
   * Any n numerals joined with dots after the prefix and a colon parse back
   * to those numerals, leading zeros and all.
   */
  lemma ParseJoined(prefix: Text.String, ds: seq<Text.String>)
    requires |ds| >= 1 && forall k | 0 <= k < |ds| :: IsNumeral(ds[k])
    ensures ParseFields(prefix, |ds|, prefix + [Text.Colon] + Text.Join(ds, [Text.Dot])) == Success(ds)
  {
    var p := prefix + [Text.Colon];
    var uri := p + Text.Join(ds, [Text.Dot]);
    assert uri[..|p|] == p;
    assert uri[|prefix| + 1 ..] == Text.Join(ds, [Text.Dot]);
    NumeralsFree(ds);
    Text.SplitAtMostJoin(ds, Text.Dot);
  }

  /** Reading a tag's URI back gives the decimal renderings of its fields. */
  lemma URIRoundTrip(bt: BitTag)
    requires |bt.fields| >= 1
    ensures ParseFields(bt.uriPrefix, |bt.fields|, bt.TagURI()) == Success(Decimals(bt.fields))
  {
    var ds := Decimals(bt.fields);
    assert bt.TagURI() == bt.uriPrefix + [Text.Colon] + Text.Join(ds, [Text.Dot]);
    assert forall k | 0 <= k < |ds| :: IsNumeral(ds[k]);
    ParseJoined(bt.uriPrefix, ds);
  }

  /** Tags with the same prefix and field count have the same URI only when their fields agree. */
  lemma URIUnique(bt1: BitTag, bt2: BitTag)
    requires bt1.uriPrefix == bt2.uriPrefix && |bt1.fields| == |bt2.fields| >= 1
    requires bt1.TagURI() == bt2.TagURI()
    ensures bt1.fields == bt2.fields
  {
    URIRoundTrip(bt1);
    URIRoundTrip(bt2);
    forall i | 0 <= i < |bt1.fields|
      ensures bt1.fields[i] == bt2.fields[i]
    {
      assert Decimals(bt1.fields)[i] == Decimals(bt2.fields)[i];
      Text.DecimalValue(bt1.fields[i]);
      Text.DecimalValue(bt2.fields[i]);
    }
  }

  /** Field i of a tag's URI is field i's decimal rendering; index n and beyond are refused. */
  lemma FieldRoundTrip(bt: BitTag, idx: int)
    requires |bt.fields| >= 1
    ensures 0 <= idx < |bt.fields| ==> FieldAt(bt.uriPrefix, |bt.fields|, bt.TagURI(), idx) == Success(Text.Decimal(bt.fields[idx]))
    ensures !(0 <= idx < |bt.fields|) ==> FieldAt(bt.uriPrefix, |bt.fields|, bt.TagURI(), idx).Failure?
  {
    URIRoundTrip(bt);
  }

  /**
   * The guard as written lets index n through on a URI with n fields, where
   * Go's fields[n] indexes past the end; the corrected FieldAt refuses it.
   */
  lemma FieldGuardPastEnd(bt: BitTag)
    requires |bt.fields| >= 1
    ensures var n := |bt.fields|;
            var r := ParseFields(bt.uriPrefix, n, bt.TagURI());
            && r.Success? && FieldGuardAsWritten(n, |r.value|) && n >= |r.value|
            && FieldAt(bt.uriPrefix, n, bt.TagURI(), n).Failure?
  {
    URIRoundTrip(bt);
  }

  // ---------------------------------------------------------------------
  // Decoding tag data
  // ---------------------------------------------------------------------

  /** vs holds, for every width in ws, the value of that field's bits of data. */
  ghost predicate FieldValues(ws: seq<int>, data: seq<Byte>, vs: seq<nat>) {
    && BitFields.Positive(ws, |ws|) && BitFields.Offset(ws, |ws|) <= 8 * |data|
    && |vs| == |ws|
    && forall i | 0 <= i < |vs| :: vs[i] == BitFields.FieldValue(ws, data, i)
  }

  /** binary.BigEndian.PutUint64(buff, 0), then copy(buff[8-len(field):], field). */
  method RightAlign(buff: array<Byte>, field: seq<Byte>)
    requires buff.Length == 8 && |field| <= 8
    modifies buff
    ensures buff[..] == seq(8 - |field|, _ => 0 as Byte) + field
    ensures BigEndian(buff[..]) == BigEndian(field)
  {
    forall j | 0 <= j < 8 {
      buff[j] := 0;
    }
    var z := 8 - |field|;
    forall j | 0 <= j < |field| {
      buff[z + j] := field[j];
    }
    var zeros := seq(z, _ => 0 as Byte);
    assert buff[..] == zeros + field;
    BigEndianLeadingZeros(zeros, field);
  }

  /**
   * Decode: too little data for the exploder's bits is an error; otherwise
   * every exploded field is read as a big-endian number, through an 8-byte
   * buffer when it fits one.
   */
  method DecodeWith(prefix: Text.String, exp: BitFields.BitExploder, data: seq<Byte>) returns (r: Result<BitTag, TagError>)
    requires exp.Valid()
    ensures r.Failure? <==> 8 * |data| < exp.BitLength()
    ensures r.Failure? ==> r.error == ShortData(8 * |data|, exp.BitLength())
    ensures r.Success? ==> r.value.uriPrefix == prefix && FieldValues(exp.widths, data, r.value.fields)
  {
    if 8 * |data| < exp.BitLength() {
      return Failure(ShortData(8 * |data|, exp.BitLength()));
    }
    var exploded := exp.Explode(data);
    var fields := exploded.value;
    assert |fields| == exp.NumFields();
    var values := new nat[exp.NumFields()];
    var buff := new Byte[8];
    for i := 0 to |fields|
      invariant forall j | 0 <= j < i :: values[j] == BigEndian(fields[j])
    {
      var field := fields[i];
      if |field| <= 8 {
        RightAlign(buff, field);
        values[i] := BigEndian(buff[..]);
      } else {
        values[i] := BigEndian(field);
      }
    }
    return Success(BitTag(prefix, values[..]));
  }

  // ---------------------------------------------------------------------
  // The decoder
  // ---------------------------------------------------------------------

  /** A URI prefix and the exploder that splits tag data into fields. */
  class Decoder {
    var uriPrefix: Text.String
    var exploder: BitFields.BitExploder

    /** The zero Decoder{}. */
    constructor()
      ensures uriPrefix == [] && fresh(exploder)
      ensures exploder.bitLength == 0 && exploder.extractors == []
    {
      uriPrefix := [];
      exploder := new BitFields.BitExploder();
    }

    /** Sets the prefix from the tagging entity; on an error nothing changes. */
    method SetTaggingEntity(authority: Text.String, date: Text.String) returns (err: Outcome<TagError>)
      modifies this
      ensures exploder == old(exploder)
      ensures err == Pass <==> TaggingEntity(authority, date).Success?
      ensures err.Fail? ==> err.error == TaggingEntity(authority, date).error && uriPrefix == old(uriPrefix)
      ensures err == Pass ==> uriPrefix == TaggingEntity(authority, date).value
    {
      var r := TaggingEntity(authority, date);
      if r.Failure? {
        return Fail(r.error);
      }
      uriPrefix := r.value;
      return Pass;
    }

    method Decode(data: seq<Byte>) returns (r: Result<BitTag, TagError>)
      requires exploder.Valid()
      ensures r.Failure? <==> 8 * |data| < exploder.BitLength()
      ensures r.Failure? ==> r.error == ShortData(8 * |data|, exploder.BitLength())
      ensures r.Success? ==> r.value.uriPrefix == uriPrefix && FieldValues(exploder.widths, data, r.value.fields)
    {
      r := DecodeWith(uriPrefix, exploder, data);
    }

    function Fields(uri: Text.String): Result<seq<Text.String>, TagError>
      reads this, exploder, exploder.Repr
      requires exploder.Valid()
    {
      ParseFields(uriPrefix, exploder.NumFields(), uri)
    }

    function Field(uri: Text.String, idx: int): Result<Text.String, TagError>
      reads this, exploder, exploder.Repr
      requires exploder.Valid()
    {
      FieldAt(uriPrefix, exploder.NumFields(), uri, idx)
    }

    /** A tag this decoder decodes reads back through Fields as its decimal fields. */
    lemma DecodedRoundTrip(bt: BitTag)
      requires exploder.Valid()
      requires bt.uriPrefix == uriPrefix && |bt.fields| == exploder.NumFields()
      ensures Fields(bt.TagURI()) == Success(Decimals(bt.fields))
    {
      URIRoundTrip(bt);
    }
  }

  /**
   * NewDecoder: a zero decoder given the tagging entity, then an exploder
   * for the widths; it stops at the first error, keeping what was set.
   * SetBounds' overflow panic is the precondition.
   */
  method NewDecoder(authority: Text.String, date: Text.String, widths: seq<int>) returns (d: Decoder, err: Outcome<TagError>)
    requires TaggingEntity(authority, date).Success? ==>
               BitFields.Offset(widths, BitFields.FirstNonPositive(widths, 0)) <= MaxInt
    ensures fresh(d)
    ensures TaggingEntity(authority, date).Failure? ==>
              err == Fail(TaggingEntity(authority, date).error) && d.uriPrefix == []
    ensures TaggingEntity(authority, date).Success? ==>
              && d.uriPrefix == TaggingEntity(authority, date).value
              && (err == Pass <==> |widths| >= 1 && BitFields.FirstNonPositive(widths, 0) == |widths|)
    ensures err == Pass ==> d.exploder.Valid() && d.exploder.widths == widths
    ensures err.Fail? ==> d.exploder.bitLength == 0 && d.exploder.extractors == []
  {
    d := new Decoder();
    err := d.SetTaggingEntity(authority, date);
    if err.Fail? {
      return;
    }
    var exp, e := BitFields.NewBitExploder(widths);
    if e.Fail? {
      return d, Fail(Exploder(e.error));
    }
    d.exploder := exp;
    return d, Pass;
  }

  // ---------------------------------------------------------------------
  // The decoder's worked example
  // ---------------------------------------------------------------------

  /** The 8m bits of bytes [b, b+m) are worth those bytes read big-endian. */
  lemma {:induction false} AlignedValue(src: seq<Byte>, b: nat, m: nat)
    requires b + m <= |src|
    ensures BitsValue(src, 8 * b, 8 * m) == BigEndian(src[b .. b + m])
    decreases m
  {
    if m == 0 {
      assert Pow2(0) == 1;
    } else {
      AlignedValue(src, b, m - 1);
      BitsSplit(src, 8 * b, 8 * (m - 1), 8, 8 * m, 8 * (b + m - 1));
      ByteBits(src, b + m - 1);
      Pow2Byte(8);
      assert src[b .. b + m][..m - 1] == src[b .. b + m - 1];
    }
  }

  /** Widths 8, 48 and 40 over the bytes 0F 00000000000C 00000014D2 give the fields 15, 12 and 5330. */
  lemma DecodeExample()
    ensures FieldValues([8, 48, 40], [0x0F, 0, 0, 0, 0, 0, 0x0C, 0, 0, 0, 0x14, 0xD2], [15, 12, 5330])
  {
    var data: seq<Byte> := [0x0F, 0, 0, 0, 0, 0, 0x0C, 0, 0, 0, 0x14, 0xD2];
    assert data[1 .. 7] == [0, 0, 0, 0, 0] + [0x0C];
    BigEndianLeadingZeros([0, 0, 0, 0, 0], [0x0C]);
    assert data[7 .. 12] == [0, 0, 0] + [0x14, 0xD2];
    BigEndianLeadingZeros([0, 0, 0], [0x14, 0xD2]);
    assert [0x14, 0xD2][..1] == [0x14];
    DecodeExampleBytes(data);
  }

  lemma {:induction false} DecodeExampleBytes(data: seq<Byte>)
    requires |data| == 12
    requires BigEndian(data[0 .. 1]) == 15 && BigEndian(data[1 .. 7]) == 12 && BigEndian(data[7 .. 12]) == 5330
    ensures FieldValues([8, 48, 40], data, [15, 12, 5330])
  {
    var ws: seq<int> := [8, 48, 40];
    assert BitFields.Offset(ws, 1) == 8 && BitFields.Offset(ws, 2) == 56 && BitFields.Offset(ws, 3) == 96;
    FieldAligned(ws, data, 0, 0, 1);
    FieldAligned(ws, data, 1, 1, 6);
    FieldAligned(ws, data, 2, 7, 5);
  }

  /** A field that starts on byte b and spans m whole bytes is worth those bytes read big-endian. */
  lemma {:induction false} FieldAligned(ws: seq<int>, data: seq<Byte>, i: nat, b: nat, m: nat)
    requires i < |ws| && BitFields.Positive(ws, |ws|) && BitFields.Offset(ws, |ws|) <= 8 * |data|
    requires BitFields.Offset(ws, i) == 8 * b && ws[i] == 8 * m && b + m <= |data|
    ensures BitFields.FieldValue(ws, data, i) == BigEndian(data[b .. b + m])
  {
    AlignedValue(data, b, m);
  }

  /** The example's tagging entity: test.com on 2019-01-01. */
  const ExampleAuthority: Text.String := Text.Ascii("test.com")
  const ExampleDate: Text.String := [50, 48, 49, 57, 45, 48, 49, 45, 48, 49] // "2019-01-01"

  /** test.com is an authority: labels "test" and "com". */
  lemma AuthorityExample()
    ensures Authority(ExampleAuthority)
  {
    var a := ExampleAuthority;
    assert a == [116, 101, 115, 116, 46, 99, 111, 109];
    assert Labels(a[8..], 3);
    assert Labels(a[7..], 2);
    assert Labels(a[6..], 1);
    assert Labels(a[5..], 0);
    assert Labels(a[4..], 4);
    assert Labels(a[3..], 3);
    assert Labels(a[2..], 2);
    assert Labels(a[1..], 1);
  }

  /** The value of two digits. */
  lemma DigitsValueTwo(s: Text.String)
    requires |s| == 2 && Text.AllDigits(s)
    ensures Text.DigitsValue(s) == (s[0] - Text.Zero) * 10 + (s[1] - Text.Zero)
  {
    assert s[..1][..0] == [];
  }

  /** The value of four digits. */
  lemma DigitsValueFour(s: Text.String)
    requires |s| == 4 && Text.AllDigits(s)
    ensures Text.DigitsValue(s) == (s[0] - Text.Zero) * 1000 + (s[1] - Text.Zero) * 100 + (s[2] - Text.Zero) * 10 + (s[3] - Text.Zero)
  {
    assert s[..3][..2] == s[..2];
    DigitsValueTwo(s[..2]);
  }

  /** 2019-01-01 is a date: year 2019, month 1, day 1. */
  lemma DateExample()
    ensures ValidDate(ExampleDate)
  {
    var d := ExampleDate;
    var year, month, day := d[..4], d[5 .. 7], d[8..];
    assert year == [50, 48, 49, 57] && month == [48, 49] && day == [48, 49];
    DigitsValueFour(year);
    DigitsValueTwo(month);
    DigitsValueTwo(day);
  }

  /** test.com and 2019-01-01 pass every check and give the prefix tag:test.com,2019-01-01. */
  lemma EntityExample()
    ensures TaggingEntity(ExampleAuthority, ExampleDate) == Success(TagScheme + ExampleAuthority + [Comma] + ExampleDate)
  {
    AuthorityExample();
    AuthorityMatchesPattern(ExampleAuthority);
    DateExample();
  }

  lemma {:induction false} DecimalDigit(n: nat, front: Text.String)
    requires n >= 10 && Text.Decimal(n / 10) == front
    ensures Text.Decimal(n) == front + [Text.Zero + n % 10]
  {
  }

  /** The example fields render as 15.12.5330. */
  lemma DottedExample()
    ensures Dotted([15, 12, 5330]) == Text.Ascii("15.12.5330")
  {
    assert Text.Decimal(1) == [49] && Text.Decimal(5) == [53];
    DecimalDigit(15, [49]);
    DecimalDigit(12, [49]);
    DecimalDigit(53, [53]);
    DecimalDigit(533, [53, 51]);
    DecimalDigit(5330, [53, 51, 51]);
    DottedCons([15, 12, 5330]);
    DottedCons([12, 5330]);
    assert [15, 12, 5330][1..] == [12, 5330];
    assert [12, 5330][1..] == [5330];
    assert Dotted([5330]) == [53, 51, 51, 48];
  }

  /**
   * Under any prefix, the example tag's URI is the prefix, a colon and
   * 15.12.5330, and its field 2 reads back as 5330.
   */
  lemma URIExample(prefix: Text.String)
    ensures var uri := BitTag(prefix, [15, 12, 5330]).TagURI();
            && uri == prefix + [Text.Colon] + Text.Ascii("15.12.5330")
            && FieldAt(prefix, 3, uri, 2) == Success(Text.Ascii("5330"))
  {
    DottedExample();
    FieldRoundTrip(BitTag(prefix, [15, 12, 5330]), 2);
    assert Text.Decimal(5330) == Text.Ascii("5330") by {
      assert Text.Decimal(5) == [53];
      DecimalDigit(53, [53]);
      DecimalDigit(533, [53, 51]);
      DecimalDigit(5330, [53, 51, 51]);
    }
  }
}
