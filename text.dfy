/**
 * The parts of Go's strings, strconv and fmt packages that the tag codes
 * rely on, on Go strings taken as their bytes: finding a separator,
 * splitting on it (strings.Split and strings.SplitN) and joining back,
 * trimming Unicode white space (strings.TrimSpace), decimal rendering with and
 * without zero padding (fmt's %d and %0*d), and decimal parsing with the
 * range checks of strconv.Atoi and strconv.ParseUint.
 */
module Text {
  import opened Wrappers
  import opened Bits

  /** A Go string: its bytes. */
  type String = seq<Byte>

  /** The bytes of an ASCII literal. */
  function Ascii(s: string): (r: String)
    requires forall i | 0 <= i < |s| :: s[i] as int < 128
    ensures |r| == |s|
  {
    seq(|s|, i requires 0 <= i < |s| => s[i] as int)
  }

  const Zero: Byte := 48
  const Plus: Byte := 43
  const Minus: Byte := 45
  const Dot: Byte := 46
  const Colon: Byte := 58
  const Space: Byte := 32
  const OpenBracket: Byte := 91
  const CloseBracket: Byte := 93

  // ---------------------------------------------------------------------
  // Occurrences of a separator, strings.Index and strings.HasPrefix
  // ---------------------------------------------------------------------

  predicate HasPrefix(s: String, p: String) {
    |p| <= |s| && s[..|p|] == p
  }

  /** sep occurs in s starting at byte i. */
  predicate OccursAt(s: String, sep: String, i: nat) {
    i + |sep| <= |s| && s[i .. i + |sep|] == sep
  }

  /** sep occurs nowhere in s. */
  predicate Free(s: String, sep: String) {
    forall j | 0 <= j <= |s| :: !OccursAt(s, sep, j)
  }

  /** The first occurrence of sep at or after byte k. */
  function IndexFrom(s: String, sep: String, k: nat): (r: Option<nat>)
    requires |sep| >= 1 && k <= |s|
    ensures r.Some? ==> k <= r.value && OccursAt(s, sep, r.value)
    ensures r.Some? ==> forall j | k <= j < r.value :: !OccursAt(s, sep, j)
    ensures r.None? ==> forall j | k <= j <= |s| :: !OccursAt(s, sep, j)
    decreases |s| - k
  {
    if k + |sep| > |s| then None
    else if s[k .. k + |sep|] == sep then Some(k)
    else IndexFrom(s, sep, k + 1)
  }

  /** strings.Index for a non-empty separator: the first occurrence, if any. */
  function IndexOf(s: String, sep: String): (r: Option<nat>)
    requires |sep| >= 1
    ensures r.Some? ==> OccursAt(s, sep, r.value) && forall j | 0 <= j < r.value :: !OccursAt(s, sep, j)
    ensures r.None? ==> Free(s, sep)
  {
    IndexFrom(s, sep, 0)
  }

  /** The bytes before the first occurrence hold no occurrence. */
  lemma {:induction false} FreeBefore(s: String, sep: String, i: nat)
    requires |sep| >= 1 && i <= |s|
    requires forall j | 0 <= j < i :: !OccursAt(s, sep, j)
    ensures Free(s[..i], sep)
  {
    forall j | 0 <= j <= i
      ensures !OccursAt(s[..i], sep, j)
    {
      if OccursAt(s[..i], sep, j) {
        assert s[..i][j .. j + |sep|] == s[j .. j + |sep|];
        assert OccursAt(s, sep, j);
      }
    }
  }

  // ---------------------------------------------------------------------
  // UTF-8 sequences: utf8.DecodeRuneInString's width, strings.Split on ""
  // ---------------------------------------------------------------------

  predicate IsContinuation(c: Byte) {
    0x80 <= c <= 0xBF
  }

  /**
   * For a lead byte c: the length of the sequence it starts and the range
   * the byte after it must lie in (Go's `first` and `acceptRanges` tables);
   * length 1 for an ASCII byte and for a byte that starts no sequence.
   */
  function LeadByte(c: Byte): (r: (nat, Byte, Byte))
    ensures 1 <= r.0 <= 4
  {
    if 0xC2 <= c <= 0xDF then (2, 0x80, 0xBF)
    else if c == 0xE0 then (3, 0xA0, 0xBF)
    else if c == 0xED then (3, 0x80, 0x9F)
    else if 0xE1 <= c <= 0xEF then (3, 0x80, 0xBF)
    else if c == 0xF0 then (4, 0x90, 0xBF)
    else if 0xF1 <= c <= 0xF3 then (4, 0x80, 0xBF)
    else if c == 0xF4 then (4, 0x80, 0x8F)
    else (1, 0, 0)
  }

  /**
   * The number of bytes utf8.DecodeRuneInString takes from the front of s:
   * a whole valid sequence, or 1 for an ASCII byte and for an invalid or
   * cut-off sequence (read as the replacement rune).
   */
  function RuneWidth(s: String): (w: nat)
    requires s != []
    ensures 1 <= w <= 4 && w <= |s|
  {
    var (size, lo, hi) := LeadByte(s[0]);
    if size == 1 || |s| < size || !(lo <= s[1] <= hi) then 1
    else if size >= 3 && !IsContinuation(s[2]) then 1
    else if size == 4 && !IsContinuation(s[3]) then 1
    else size
  }

  /** A sequence decodes the same from any string it begins. */
  lemma RuneWidthPrefix(s: String, m: nat)
    requires s != [] && RuneWidth(s) <= m <= |s|
    ensures RuneWidth(s[..m]) == RuneWidth(s)
  {
  }

  /**
   * strings.Split(s, ""): the UTF-8 sequences of s, one piece each, and no
   * piece at all for the empty string.
   */
  function Explode(s: String): (parts: seq<String>)
    ensures |parts| <= |s|
    ensures s != [] ==> |parts| >= 1
    decreases |s|
  {
    if s == [] then [] else [s[..RuneWidth(s)]] + Explode(s[RuneWidth(s)..])
  }

  /** Each piece of Explode is one whole UTF-8 sequence, or one byte that starts none. */
  lemma {:induction false} ExplodePieces(s: String)
    ensures forall k | 0 <= k < |Explode(s)| :: Explode(s)[k] != [] && RuneWidth(Explode(s)[k]) == |Explode(s)[k]|
    decreases |s|
  {
    if s != [] {
      var w := RuneWidth(s);
      RuneWidthPrefix(s, w);
      ExplodePieces(s[w..]);
    }
  }

  /** Joining the pieces of Explode gives back the string. */
  lemma {:induction false} JoinExplode(s: String)
    ensures Join(Explode(s), []) == s
    decreases |s|
  {
    if s != [] {
      var w := RuneWidth(s);
      JoinExplode(s[w..]);
      JoinFront(s, w, Explode(s[w..]));
    }
  }

  /** A first piece of w bytes in front of pieces that join, with no separator, to the rest of s. */
  lemma JoinFront(s: String, w: nat, rest: seq<String>)
    requires 0 < w <= |s| && Join(rest, []) == s[w..] && (rest == [] <==> w == |s|)
    ensures Join([s[..w]] + rest, []) == s
  {
    if rest == [] {
      assert s[..w] == s;
    } else {
      JoinCons(s[..w], rest, []);
      assert s == s[..w] + s[w..];
    }
  }

  /** On ASCII text Explode gives one byte per piece. */
  lemma {:induction false} ExplodeAscii(s: String)
    requires forall i | 0 <= i < |s| :: s[i] < 0x80
    ensures Explode(s) == seq(|s|, i requires 0 <= i < |s| => [s[i]])
    decreases |s|
  {
    if s != [] {
      ExplodeAscii(s[1..]);
      assert RuneWidth(s) == 1;
      assert s[..1] == [s[0]];
    }
  }

  // ---------------------------------------------------------------------
  // strings.Join, strings.Split, strings.SplitN
  // ---------------------------------------------------------------------

  /** strings.Join: the parts with sep between neighbours. */
  function Join(parts: seq<String>, sep: String): String {
    if |parts| == 0 then []
    else if |parts| == 1 then parts[0]
    else parts[0] + sep + Join(parts[1..], sep)
  }

  /**
   * strings.Split: for a non-empty separator the pieces between its
   * occurrences; for an empty one, one piece per UTF-8 sequence.
   */
  function Split(s: String, sep: String): (parts: seq<String>)
    ensures |sep| >= 1 ==> |parts| >= 1
  {
    if sep == [] then Explode(s) else SplitOn(s, sep)
  }

  /** The pieces of s between the occurrences of a non-empty separator. */
  function SplitOn(s: String, sep: String): (parts: seq<String>)
    requires |sep| >= 1
    ensures |parts| >= 1
    decreases |s|
  {
    var r := IndexOf(s, sep);
    if r.None? then [s]
    else [s[..r.value]] + SplitOn(s[r.value + |sep| ..], sep)
  }

  /** One step of a split on a non-empty separator. */
  lemma SplitStep(s: String, sep: String)
    requires |sep| >= 1
    ensures var r := IndexOf(s, sep);
      Split(s, sep) == if r.None? then [s] else [s[..r.value]] + Split(s[r.value + |sep| ..], sep)
  {
  }

  /** No piece of a split holds the separator. */
  lemma {:induction false} SplitFree(s: String, sep: String)
    requires |sep| >= 1
    ensures forall k | 0 <= k < |Split(s, sep)| :: Free(Split(s, sep)[k], sep)
    decreases |s|
  {
    var r := IndexOf(s, sep);
    SplitStep(s, sep);
    if r.Some? {
      FreeBefore(s, sep, r.value);
      SplitFree(s[r.value + |sep| ..], sep);
    }
  }

  /** Joining a part in front of at least one more. */
  lemma {:induction false} JoinCons(p: String, rest: seq<String>, sep: String)
    requires |rest| >= 1
    ensures Join([p] + rest, sep) == p + sep + Join(rest, sep)
  {
    assert ([p] + rest)[1..] == rest;
  }

  /** A string is its three slices around i and j. */
  lemma {:induction false} Around(s: String, i: nat, j: nat)
    requires i <= j <= |s|
    ensures s == s[..i] + s[i .. j] + s[j..]
  {
    assert s == s[..i] + s[i..];
    assert s[i..] == s[i .. j] + s[j..];
  }

  /** The slices of p + sep + rest around sep. */
  lemma {:induction false} Pieces(p: String, sep: String, rest: String)
    ensures (p + sep + rest)[..|p|] == p && (p + sep + rest)[|p| + |sep| ..] == rest
  {
  }

  /** Joining the pieces of a split gives back the string. */
  lemma {:induction false} JoinSplit(s: String, sep: String)
    requires |sep| >= 1
    ensures Join(Split(s, sep), sep) == s
    decreases |s|
  {
    var r := IndexOf(s, sep);
    SplitStep(s, sep);
    if r.Some? {
      var rest := s[r.value + |sep| ..];
      JoinSplit(rest, sep);
      JoinCons(s[..r.value], Split(rest, sep), sep);
      Around(s, r.value, r.value + |sep|);
    }
  }

  /** A single-byte separator is found exactly where the first part ends. */
  lemma {:induction false} IndexAfterPart(p: String, c: Byte, rest: String)
    requires c !in p
    ensures IndexOf(p + [c] + rest, [c]) == Some(|p|)
  {
    var s := p + [c] + rest;
    forall j | 0 <= j < |p|
      ensures !OccursAt(s, [c], j)
    {
      assert s[j .. j + 1] == [p[j]];
    }
    assert s[|p| .. |p| + 1] == [c];
    assert OccursAt(s, [c], |p|);
  }

  /** A byte the string lacks occurs nowhere in it. */
  lemma {:induction false} AbsentFree(p: String, c: Byte)
    requires c !in p
    ensures Free(p, [c])
  {
    forall j | 0 <= j < |p|
      ensures !OccursAt(p, [c], j)
    {
      assert p[j .. j + 1] == [p[j]];
    }
  }

  /** Splitting the join of parts free of a one-byte separator gives the parts. */
  lemma {:induction false} SplitJoin(parts: seq<String>, c: Byte)
    requires |parts| >= 1
    requires forall k | 0 <= k < |parts| :: c !in parts[k]
    ensures Split(Join(parts, [c]), [c]) == parts
    decreases |parts|
  {
    SplitStep(Join(parts, [c]), [c]);
    if |parts| == 1 {
      AbsentFree(parts[0], c);
    } else {
      var rest := Join(parts[1..], [c]);
      SplitJoin(parts[1..], c);
      IndexAfterPart(parts[0], c, rest);
      Pieces(parts[0], [c], rest);
      assert parts == [parts[0]] + parts[1..];
      JoinCons(parts[0], parts[1..], [c]);
    }
  }

  /** Split into at most n pieces, the last taking the unsplit remainder. */
  function SplitAtMost(s: String, sep: String, n: nat): (parts: seq<String>)
    requires |sep| >= 1 && n >= 1
    ensures 1 <= |parts| <= n
    decreases n
  {
    var r := IndexOf(s, sep);
    if n == 1 || r.None? then [s]
    else [s[..r.value]] + SplitAtMost(s[r.value + |sep| ..], sep, n - 1)
  }

  /** strings.SplitN for a non-empty separator. */
  function SplitN(s: String, sep: String, n: int): (parts: seq<String>)
    requires |sep| >= 1
    ensures n == 0 ==> parts == []
    ensures n < 0 ==> parts == Split(s, sep)
    ensures n > 0 ==> parts == SplitAtMost(s, sep, n)
  {
    if n == 0 then [] else if n < 0 then Split(s, sep) else SplitAtMost(s, sep, n)
  }

  /** Joining the pieces of a bounded split gives back the string. */
  lemma {:induction false} JoinSplitAtMost(s: String, sep: String, n: nat)
    requires |sep| >= 1 && n >= 1
    ensures Join(SplitAtMost(s, sep, n), sep) == s
    decreases n
  {
    var r := IndexOf(s, sep);
    if n > 1 && r.Some? {
      var rest := s[r.value + |sep| ..];
      JoinSplitAtMost(rest, sep, n - 1);
      JoinCons(s[..r.value], SplitAtMost(rest, sep, n - 1), sep);
      Around(s, r.value, r.value + |sep|);
    }
  }

  /** Splitting the join of exactly n parts free of a one-byte separator into at most n pieces gives the parts. */
  lemma {:induction false} SplitAtMostJoin(parts: seq<String>, c: Byte)
    requires |parts| >= 1
    requires forall k | 0 <= k < |parts| :: c !in parts[k]
    ensures SplitAtMost(Join(parts, [c]), [c], |parts|) == parts
    decreases |parts|
  {
    if |parts| > 1 {
      var rest := Join(parts[1..], [c]);
      SplitAtMostJoin(parts[1..], c);
      IndexAfterPart(parts[0], c, rest);
      Pieces(parts[0], [c], rest);
      assert parts == [parts[0]] + parts[1..];
      JoinCons(parts[0], parts[1..], [c]);
    }
  }

  // ---------------------------------------------------------------------
  // strings.TrimSpace: white-space runes at either end
  // ---------------------------------------------------------------------

  /** ASCII white space: \t \n \v \f \r and space. */
  predicate IsSpace(c: Byte) {
    c == 9 || c == 10 || c == 11 || c == 12 || c == 13 || c == 32
  }

  /**
   * The k bytes b0, b1, b2 (those past k unused) are the UTF-8 encoding of
   * a rune unicode.IsSpace accepts: ASCII white space, U+0085, U+00A0,
   * U+1680, U+2000 to U+200A, U+2028, U+2029, U+202F, U+205F or U+3000.
   * A valid sequence decodes only from its own bytes, so a string starts
   * (or ends) with a white-space rune exactly when it starts (or ends)
   * with one of these encodings.
   */
  predicate SpaceCode(k: nat, b0: Byte, b1: Byte, b2: Byte) {
    || (k == 1 && IsSpace(b0))
    || (k == 2 && b0 == 0xC2 && (b1 == 0x85 || b1 == 0xA0))
    || (k == 3 && b0 == 0xE1 && b1 == 0x9A && b2 == 0x80)
    || (k == 3 && b0 == 0xE2 && b1 == 0x80 && (0x80 <= b2 <= 0x8A || b2 == 0xA8 || b2 == 0xA9 || b2 == 0xAF))
    || (k == 3 && b0 == 0xE2 && b1 == 0x81 && b2 == 0x9F)
    || (k == 3 && b0 == 0xE3 && b1 == 0x80 && b2 == 0x80)
  }

  /** Byte i of s, or 0 past its end. */
  function ByteAt(s: String, i: int): Byte {
    if 0 <= i < |s| then s[i] else 0
  }

  /** t is the encoding of one white-space rune. */
  predicate IsSpaceRune(t: String) {
    SpaceCode(|t|, ByteAt(t, 0), ByteAt(t, 1), ByteAt(t, 2))
  }

  /** Each white-space encoding is one whole UTF-8 sequence. */
  lemma SpaceRuneIsSequence(t: String)
    requires IsSpaceRune(t)
    ensures RuneWidth(t) == |t|
  {
  }

  /** s starts with a white-space rune of k bytes. */
  predicate SpacePrefix(s: String, k: nat) {
    k <= |s| && SpaceCode(k, ByteAt(s, 0), ByteAt(s, 1), ByteAt(s, 2))
  }

  /** s ends with a white-space rune of k bytes. */
  predicate SpaceSuffix(s: String, k: nat) {
    k <= |s| && SpaceCode(k, ByteAt(s, |s| - k), ByteAt(s, |s| - k + 1), ByteAt(s, |s| - k + 2))
  }

  /** The length of the white-space rune s starts with, or 0. */
  function SpaceAtStart(s: String): (n: nat)
    ensures n <= 3 && n <= |s|
  {
    if SpacePrefix(s, 1) then 1
    else if SpacePrefix(s, 2) then 2
    else if SpacePrefix(s, 3) then 3
    else 0
  }

  /** The length of the white-space rune s ends with, or 0. */
  function SpaceAtEnd(s: String): (n: nat)
    ensures n <= 3 && n <= |s|
  {
    if SpaceSuffix(s, 1) then 1
    else if SpaceSuffix(s, 2) then 2
    else if SpaceSuffix(s, 3) then 3
    else 0
  }

  /** The number of bytes of the white-space runes s starts with. */
  function LeadingSpaces(s: String): (n: nat)
    ensures n <= |s|
    decreases |s|
  {
    var k := SpaceAtStart(s);
    if k == 0 then 0 else k + LeadingSpaces(s[k..])
  }

  /** What follows the leading white-space runes does not start with one. */
  lemma {:induction false} LeadingStops(s: String)
    ensures SpaceAtStart(s[LeadingSpaces(s)..]) == 0
    decreases |s|
  {
    var k := SpaceAtStart(s);
    if k > 0 {
      LeadingStops(s[k..]);
      assert s[k..][LeadingSpaces(s[k..])..] == s[LeadingSpaces(s)..];
    }
  }

  /** The number of bytes of the white-space runes s ends with. */
  function TrailingSpaces(s: String): (n: nat)
    ensures n <= |s|
    decreases |s|
  {
    var k := SpaceAtEnd(s);
    if k == 0 then 0 else k + TrailingSpaces(s[..|s| - k])
  }

  /** What precedes the trailing white-space runes does not end with one. */
  lemma {:induction false} TrailingStops(s: String)
    ensures SpaceAtEnd(s[..|s| - TrailingSpaces(s)]) == 0
    decreases |s|
  {
    var k := SpaceAtEnd(s);
    if k > 0 {
      var init := s[..|s| - k];
      TrailingStops(init);
      assert init[..|init| - TrailingSpaces(init)] == s[..|s| - TrailingSpaces(s)];
    }
  }

  /** strings.TrimSpace: s without the white-space runes at its start and at its end. */
  function TrimSpace(s: String): (t: String)
    ensures |t| <= |s|
  {
    var a := LeadingSpaces(s);
    var rest := s[a..];
    rest[..|rest| - TrailingSpaces(rest)]
  }

  /** A prefix of s starts with the same white-space runes as s, as far as it reaches. */
  lemma PrefixKeeps(s: String, a: nat)
    requires a <= |s|
    ensures forall j: nat | j <= a :: SpacePrefix(s[..a], j) == SpacePrefix(s, j)
  {
    forall j: nat | j <= a
      ensures SpacePrefix(s[..a], j) == SpacePrefix(s, j)
    {
      assert forall i | 0 <= i < j :: ByteAt(s[..a], i) == ByteAt(s, i);
    }
  }

  /** A suffix of s ends with the same white-space runes as s, as far as it reaches. */
  lemma SuffixKeeps(s: String, d: nat)
    requires d <= |s|
    ensures forall j: nat | j <= |s| - d :: SpaceSuffix(s[d..], j) == SpaceSuffix(s, j)
  {
    forall j: nat | j <= |s| - d
      ensures SpaceSuffix(s[d..], j) == SpaceSuffix(s, j)
    {
      var t := s[d..];
      assert forall i | |t| - j <= i < |t| :: ByteAt(t, i) == ByteAt(s, i + d);
    }
  }

  /** Cutting s after the rune it starts with keeps that rune. */
  lemma StartKept(s: String, a: nat)
    requires SpaceAtStart(s) <= a <= |s|
    ensures SpaceAtStart(s[..a]) == SpaceAtStart(s)
  {
    PrefixKeeps(s, a);
  }

  /** Cutting s before the rune it ends with keeps that rune. */
  lemma EndKept(s: String, d: nat)
    requires d <= |s| - SpaceAtEnd(s)
    ensures SpaceAtEnd(s[d..]) == SpaceAtEnd(s)
  {
    SuffixKeeps(s, d);
  }

  /** Cutting s anywhere after its leading white-space runes keeps them. */
  lemma {:induction false} LeadingKept(s: String, a: nat)
    requires LeadingSpaces(s) <= a <= |s|
    ensures LeadingSpaces(s[..a]) == LeadingSpaces(s)
    decreases |s|
  {
    var k := SpaceAtStart(s);
    StartKept(s, a);
    if k > 0 {
      LeadingKept(s[k..], a - k);
      assert s[..a][k..] == s[k..][..a - k];
    }
  }

  /** Dropping bytes of s anywhere before its trailing white-space runes keeps them. */
  lemma {:induction false} TrailingKept(s: String, d: nat)
    requires d <= |s| - TrailingSpaces(s)
    ensures TrailingSpaces(s[d..]) == TrailingSpaces(s)
    decreases |s|
  {
    var k := SpaceAtEnd(s);
    EndKept(s, d);
    if k > 0 {
      var init, t := s[..|s| - k], s[d..];
      TrailingKept(init, d);
      TrailingUnfold(s, k);
      TrailingUnfold(t, k);
      assert t[..|t| - k] == init[d..];
    }
  }

  /** One step of TrailingSpaces: the rune s ends with, then those before it. */
  lemma TrailingUnfold(s: String, k: nat)
    requires k == SpaceAtEnd(s) && k > 0
    ensures TrailingSpaces(s) == k + TrailingSpaces(s[..|s| - k])
  {
  }

  /** A non-empty string made of white-space runes read from its end also starts with one. */
  lemma {:induction false} TrailingAll(s: String)
    requires s != [] && TrailingSpaces(s) == |s|
    ensures SpaceAtStart(s) > 0
    decreases |s|
  {
    var k := SpaceAtEnd(s);
    var init := s[..|s| - k];
    PrefixKeeps(s, |s| - k);
    if init == [] {
      assert SpacePrefix(s, k);
    } else {
      TrailingAll(init);
      assert SpacePrefix(s, SpaceAtStart(init));
    }
  }

  /**
   * TrimSpace keeps the slice of s after its leading white-space runes; it
   * removes white-space runes only, at the start and at the end; what it
   * keeps neither starts nor ends with one; and it keeps nothing exactly
   * when s is all white-space runes.
   */
  lemma TrimSpaceShape(s: String)
    ensures var a, t := LeadingSpaces(s), TrimSpace(s);
      && a + |t| <= |s|
      && t == s[a .. a + |t|]
      && LeadingSpaces(s[..a]) == a
      && TrailingSpaces(s[a + |t| ..]) == |s| - a - |t|
      && SpaceAtStart(t) == 0 && SpaceAtEnd(t) == 0
      && (t == [] <==> a == |s|)
  {
    var a := LeadingSpaces(s);
    LeadingKept(s, a);
    TrimmedSlice(s, a, TrimSpace(s));
    TrimmedEnds(s);
    TrimmedEmpty(s);
  }

  /** TrimSpace(s) is the slice of s between its leading and its trailing white-space runes. */
  lemma TrimmedSlice(s: String, a: nat, t: String)
    requires a == LeadingSpaces(s) && t == TrimSpace(s)
    ensures a + |t| <= |s| && t == s[a .. a + |t|]
    ensures TrailingSpaces(s[a + |t| ..]) == |s| - a - |t|
  {
    TrimmedTail(s, a, s[a..], t);
  }

  /** What trimming the end of rest = s[a..] down to t keeps and removes, in terms of s. */
  lemma TrimmedTail(s: String, a: nat, rest: String, t: String)
    requires a <= |s| && rest == s[a..] && t == rest[..|rest| - TrailingSpaces(rest)]
    ensures a + |t| <= |s| && t == s[a .. a + |t|]
    ensures TrailingSpaces(s[a + |t| ..]) == |s| - a - |t|
  {
    var m := |t|;
    TrailingKept(rest, m);
    SliceOfDrop(s, a, m);
  }

  /** TrimSpace(s) is empty exactly when s is all white-space runes. */
  lemma TrimmedEmpty(s: String)
    ensures TrimSpace(s) == [] <==> LeadingSpaces(s) == |s|
  {
    var a := LeadingSpaces(s);
    var rest := s[a..];
    if rest != [] && TrailingSpaces(rest) == |rest| {
      LeadingStops(s);
      TrailingAll(rest);
    }
  }

  /** Slices of s[a..] are slices of s. */
  lemma SliceOfDrop(s: String, a: nat, m: nat)
    requires a + m <= |s|
    ensures s[a..][..m] == s[a .. a + m] && s[a..][m..] == s[a + m ..]
  {
  }

  /** What TrimSpace keeps neither starts nor ends with a white-space rune. */
  lemma TrimmedEnds(s: String)
    ensures SpaceAtStart(TrimSpace(s)) == 0 && SpaceAtEnd(TrimSpace(s)) == 0
  {
    var rest := s[LeadingSpaces(s)..];
    var m := |rest| - TrailingSpaces(rest);
    assert TrimSpace(s) == rest[..m];
    LeadingStops(s);
    PrefixKeeps(rest, m);
    TrailingStops(rest);
  }

  /** A string with no white-space rune at either end trims to itself. */
  lemma {:induction false} TrimSpaceKeeps(s: String)
    requires SpaceAtStart(s) == 0 && SpaceAtEnd(s) == 0
    ensures TrimSpace(s) == s
  {
    assert LeadingSpaces(s) == 0;
    assert s[0..] == s;
    assert TrailingSpaces(s) == 0;
  }

  /** Trimming twice trims no more than trimming once. */
  lemma TrimSpaceIdempotent(s: String)
    ensures TrimSpace(TrimSpace(s)) == TrimSpace(s)
  {
    TrimSpaceShape(s);
    TrimSpaceKeeps(TrimSpace(s));
  }

  /** A string that starts and ends with ASCII bytes other than white space has no white-space rune at either end. */
  lemma AsciiEnds(s: String)
    requires s != [] && s[0] < 0x80 && !IsSpace(s[0]) && s[|s| - 1] < 0x80 && !IsSpace(s[|s| - 1])
    ensures SpaceAtStart(s) == 0 && SpaceAtEnd(s) == 0
  {
  }

  // ---------------------------------------------------------------------
  // Decimal digits: fmt's %d and %0*d, strconv's parsing
  // ---------------------------------------------------------------------

  predicate IsDigit(c: Byte) {
    48 <= c <= 57
  }

  predicate AllDigits(s: String) {
    forall i | 0 <= i < |s| :: IsDigit(s[i])
  }

  function Pow10(n: nat): (r: nat)
    ensures r >= 1
  {
    if n == 0 then 1 else 10 * Pow10(n - 1)
  }

  lemma {:induction false} Pow10Monotone(a: nat, b: nat)
    requires a <= b
    ensures Pow10(a) <= Pow10(b)
    decreases b
  {
    if a < b {
      Pow10Monotone(a, b - 1);
    }
  }

  /** The value of a string of decimal digits, most significant first. */
  function DigitsValue(s: String): (v: nat)
    requires AllDigits(s)
    ensures v < Pow10(|s|)
  {
    if s == [] then 0 else DigitsValue(s[..|s| - 1]) * 10 + (s[|s| - 1] - Zero)
  }

  /** The decimal rendering of n (strconv.Itoa, fmt's %d), with no leading zero except for 0 itself. */
  function Decimal(n: nat): (s: String)
    ensures 1 <= |s| && AllDigits(s)
    ensures s[0] == Zero ==> n == 0
    decreases n
  {
    if n < 10 then [Zero + n] else Decimal(n / 10) + [Zero + n % 10]
  }

  /** Reading a decimal rendering back gives the number. */
  lemma {:induction false} DecimalValue(n: nat)
    ensures DigitsValue(Decimal(n)) == n
    decreases n
  {
    if n >= 10 {
      DecimalValue(n / 10);
      var d := Decimal(n);
      assert d[..|d| - 1] == Decimal(n / 10);
    }
  }

  /** A digit string whose first digit is not 0 is worth at least 10^(length-1). */
  lemma {:induction false} DigitsValueLower(s: String)
    requires |s| >= 1 && AllDigits(s) && s[0] != Zero
    ensures DigitsValue(s) >= Pow10(|s| - 1)
    decreases |s|
  {
    if |s| > 1 {
      DigitsValueLower(s[..|s| - 1]);
    }
  }

  /** A canonical digit string (no leading 0 unless it is "0") is the rendering of its value. */
  lemma {:induction false} ValueDecimal(s: String)
    requires |s| >= 1 && AllDigits(s) && (s[0] == Zero ==> |s| == 1)
    ensures Decimal(DigitsValue(s)) == s
    decreases |s|
  {
    if |s| > 1 {
      var front := s[..|s| - 1];
      ValueDecimal(front);
      DigitsValueLower(front);
      assert s == front + [s[|s| - 1]];
    }
  }

  /** The length of a rendering: n needs w digits or fewer exactly when n < 10^w. */
  lemma {:induction false} DecimalLength(n: nat, w: nat)
    requires w >= 1
    ensures |Decimal(n)| <= w <==> n < Pow10(w)
  {
    var d := Decimal(n);
    DecimalValue(n);
    if |d| <= w {
      Pow10Monotone(|d|, w);
    } else {
      DigitsValueLower(d);
      Pow10Monotone(w, |d| - 1);
    }
  }

  /** k copies of c. */
  function Repeat(c: Byte, k: nat): (r: String)
    ensures |r| == k && forall i | 0 <= i < k :: r[i] == c
  {
    seq(k, _ => c)
  }

  /** s widened to w bytes with leading '0's; never shortened. */
  function ZeroPad(s: String, w: int): (r: String)
    ensures |r| == if |s| >= w then |s| else w
    ensures r[|r| - |s| ..] == s
  {
    if |s| >= w then s else Repeat(Zero, w - |s|) + s
  }

  /** Leading zeros do not change a digit string's value. */
  lemma {:induction false} ZeroPadValue(s: String, w: int)
    requires AllDigits(s)
    ensures AllDigits(ZeroPad(s, w)) && DigitsValue(ZeroPad(s, w)) == DigitsValue(s)
  {
    if |s| < w {
      ZerosValue(w - |s|, s);
    }
  }

  lemma {:induction false} ZerosValue(k: nat, s: String)
    requires AllDigits(s)
    ensures AllDigits(Repeat(Zero, k) + s) && DigitsValue(Repeat(Zero, k) + s) == DigitsValue(s)
    decreases k
  {
    if k > 0 {
      ZerosValue(k - 1, s);
      assert Repeat(Zero, k) + s == [Zero] + (Repeat(Zero, k - 1) + s);
      LeadingZero(Repeat(Zero, k - 1) + s);
    } else {
      assert Repeat(Zero, k) + s == s;
    }
  }

  lemma {:induction false} LeadingZero(s: String)
    requires AllDigits(s)
    ensures DigitsValue([Zero] + s) == DigitsValue(s)
    decreases |s|
  {
    if s != [] {
      var t := [Zero] + s;
      assert t[..|t| - 1] == [Zero] + s[..|s| - 1];
      LeadingZero(s[..|s| - 1]);
    }
  }

  /** fmt's %d of a Go int: a '-' for negatives, then the digits. */
  function FormatInt(n: int): (s: String)
    ensures |s| >= 1
  {
    if n < 0 then [Minus] + Decimal(-n) else Decimal(n)
  }

  /**
   * fmt's %0*d with a non-negative width w: the digits padded with leading
   * '0's so that the whole text, sign included, has at least w bytes.
   */
  function Padded(n: int, w: nat): (s: String)
    ensures n >= 0 ==> |s| == if |Decimal(n)| >= w then |Decimal(n)| else w
    ensures n >= 0 ==> AllDigits(s)
  {
    if n < 0 then [Minus] + ZeroPad(Decimal(-n), w - 1)
    else
      ZeroPadValue(Decimal(n), w);
      ZeroPad(Decimal(n), w)
  }

  /** A single digit renders as itself. */
  lemma FormatDigit(d: int)
    requires 0 <= d <= 9
    ensures FormatInt(d) == [Zero + d]
  {
  }

  /** The largest width fmt takes from an argument (fmt's tooLarge bound). */
  const MaxWidth: int := 1_000_000

  /** What fmt writes in place of a width argument beyond MaxWidth either way. */
  const BadWidth: String := Ascii("%!(BADWIDTH)")

  /**
   * fmt's %0*d for any width: a negative width w asks instead for the text
   * left-justified in -w bytes, padded on the right with spaces; a width
   * beyond MaxWidth either way is refused with BadWidth, and the number
   * follows with no padding.
   */
  function PaddedAny(n: int, w: int): (s: String)
    ensures 0 <= w <= MaxWidth ==> s == Padded(n, w)
    ensures -MaxWidth <= w < 0 ==>
      && HasPrefix(s, FormatInt(n)) && |s| == (if |FormatInt(n)| >= -w then |FormatInt(n)| else -w)
      && forall k | |FormatInt(n)| <= k < |s| :: s[k] == Space
    ensures (w > MaxWidth || w < -MaxWidth) ==> HasPrefix(s, BadWidth) && s[|BadWidth|..] == FormatInt(n)
  {
    if w > MaxWidth || w < -MaxWidth then BadWidth + FormatInt(n)
    else if w >= 0 then Padded(n, w)
    else
      var t := FormatInt(n);
      if |t| >= -w then t else t + Repeat(Space, -w - |t|)
  }

  /** A non-negative number below 10^w renders, padded to w, as exactly w digits worth the number. */
  lemma {:induction false} PaddedDigits(n: nat, w: nat)
    requires w >= 1 && n < Pow10(w)
    ensures |Padded(n, w)| == w && AllDigits(Padded(n, w))
    ensures DigitsValue(Padded(n, w)) == n
  {
    DecimalLength(n, w);
    ZeroPadValue(Decimal(n), w);
    DecimalValue(n);
  }

  // strconv's errors: ErrSyntax and ErrRange.
  datatype NumError = Syntax | Range

  const MinInt: int := -0x8000_0000_0000_0000
  const MaxUint64: nat := 0xFFFF_FFFF_FFFF_FFFF

  lemma Pow2Of64()
    ensures Pow2(64) == MaxUint64 + 1
  {
    Pow2Byte(8);
    Pow2Add(8, 8);
    assert Pow2(16) == 0x1_0000;
    Pow2Add(16, 16);
    assert Pow2(32) == 0x1_0000_0000;
    Pow2Add(32, 32);
  }

  /** The number of decimal digits s starts with. */
  function DigitRun(s: String): (j: nat)
    ensures j <= |s|
    ensures forall i | 0 <= i < j :: IsDigit(s[i])
    ensures j < |s| ==> !IsDigit(s[j])
    decreases |s|
  {
    if s != [] && IsDigit(s[0]) then 1 + DigitRun(s[1..]) else 0
  }

  /** The value of the digits s starts with. */
  function LeadingValue(s: String): nat {
    assert AllDigits(s[..DigitRun(s)]);
    DigitsValue(s[..DigitRun(s)])
  }

  /**
   * ParseUint's loop from byte i on, n being the value of the bytes before
   * i: a non-digit is a syntax error; a digit is a range error when n has
   * reached the cutoff maxUint64/10 + 1, or when n*10 + digit, computed
   * modulo 2^64, wraps below n*10 or passes maxVal.
   */
  function ScanUint(s: String, maxVal: nat, i: nat, n: nat): (r: Result<nat, NumError>)
    requires i <= |s|
    decreases |s| - i
  {
    if i == |s| then Success(n)
    else if !IsDigit(s[i]) then Failure(Syntax)
    else if n >= MaxUint64 / 10 + 1 then Failure(Range)
    else
      var n1 := (n * 10 + (s[i] - Zero)) % (MaxUint64 + 1);
      if n1 < n * 10 || n1 > maxVal then Failure(Range)
      else ScanUint(s, maxVal, i + 1, n1)
  }

  /** A longer run of digits is worth at least as much. */
  lemma {:induction false} DigitsPrefix(s: String, a: nat, b: nat)
    requires a <= b <= |s| && AllDigits(s[..b])
    ensures AllDigits(s[..a]) && DigitsValue(s[..a]) <= DigitsValue(s[..b])
    decreases b
  {
    assert AllDigits(s[..a]) by {
      assert forall i | 0 <= i < a :: s[..a][i] == s[..b][i];
    }
    if a < b {
      assert s[..b][..b - 1] == s[..b - 1];
      DigitsPrefix(s, a, b - 1);
    }
  }

  /**
   * The scan, in closed form: the first non-digit and the first digit that
   * takes the value past maxVal are errors, whichever comes first.  So it
   * is a range error when the leading digits are worth more than maxVal, a
   * syntax error when a non-digit follows them, and otherwise their value.
   */
  lemma {:induction false} ScanUintMeaning(s: String, maxVal: nat, i: nat, n: nat)
    requires maxVal <= MaxUint64
    requires i <= DigitRun(s) && AllDigits(s[..i]) && n == DigitsValue(s[..i]) <= maxVal
    ensures ScanUint(s, maxVal, i, n) ==
      if LeadingValue(s) > maxVal then Failure(Range)
      else if DigitRun(s) < |s| then Failure(Syntax)
      else Success(LeadingValue(s))
    decreases |s| - i
  {
    var j := DigitRun(s);
    assert AllDigits(s[..j]);
    if i == |s| || !IsDigit(s[i]) {
      assert s[..j] == s[..i];
    } else {
      var v := n * 10 + (s[i] - Zero);
      ScanDigit(s, maxVal, i, n);
      assert s[..i + 1][..i] == s[..i];
      assert AllDigits(s[..i + 1]);
      assert v == DigitsValue(s[..i + 1]);
      DigitsPrefix(s, i + 1, j);
      if v <= maxVal {
        ScanUintMeaning(s, maxVal, i + 1, v);
      }
    }
  }

  /** One digit of the scan: past maxVal it is a range error, otherwise the scan goes on from the new value. */
  lemma ScanDigit(s: String, maxVal: nat, i: nat, n: nat)
    requires maxVal <= MaxUint64 && i < |s| && IsDigit(s[i]) && n <= maxVal
    ensures var v := n * 10 + (s[i] - Zero);
      ScanUint(s, maxVal, i, n) == if v > maxVal then Failure(Range) else ScanUint(s, maxVal, i + 1, v)
  {
    ScanStep(n, s[i] - Zero, maxVal);
  }

  /** Go's cutoff and wrap-around tests together refuse exactly a value past maxVal. */
  lemma ScanStep(n: nat, d: int, maxVal: nat)
    requires 0 <= d <= 9 && maxVal <= MaxUint64
    ensures var v := n * 10 + d;
      (n >= MaxUint64 / 10 + 1 || v % (MaxUint64 + 1) < n * 10 || v % (MaxUint64 + 1) > maxVal) <==> v > maxVal
    ensures n * 10 + d <= maxVal ==> (n * 10 + d) % (MaxUint64 + 1) == n * 10 + d
  {
    var v := n * 10 + d;
    if n < MaxUint64 / 10 + 1 {
      if v <= MaxUint64 {
        assert v % (MaxUint64 + 1) == v;
      } else {
        assert v % (MaxUint64 + 1) == v - (MaxUint64 + 1);
      }
    }
  }

  /**
   * strconv.ParseUint(s, 10, bits), for 1 <= bits <= 64: an empty string
   * is a syntax error, and otherwise the scan with maxVal = 2^bits - 1.
   */
  function ParseUint(s: String, bits: nat): (r: Result<nat, NumError>)
    requires 1 <= bits <= 64
    ensures r.Success? <==> s != [] && AllDigits(s) && DigitsValue(s) < Pow2(bits)
    ensures r.Success? ==> r.value == DigitsValue(s)
    ensures r == Failure(Range) <==> LeadingValue(s) >= Pow2(bits)
    ensures r == Failure(Syntax) <==> s == [] || (DigitRun(s) < |s| && LeadingValue(s) < Pow2(bits))
  {
    if s == [] then Failure(Syntax)
    else
      Pow2Of64();
      Pow2Monotone(bits, 64);
      assert s[..0] == [];
      ScanUintMeaning(s, Pow2(bits) - 1, 0, 0);
      assert DigitRun(s) == |s| ==> s[..DigitRun(s)] == s;
      ScanUint(s, Pow2(bits) - 1, 0, 0)
  }

  /**
   * strconv.Atoi on a 64-bit platform, through ParseInt(s, 10, 0): an
   * optional sign, then ParseUint(_, 10, 64) on the rest, whose value must
   * lie in the int64 range.
   */
  function Atoi(s: String): (r: Result<int, NumError>)
    ensures r.Success? ==> MinInt <= r.value <= MaxInt
  {
    if s == [] then Failure(Syntax)
    else
      var neg := s[0] == Minus;
      var digits := if s[0] == Minus || s[0] == Plus then s[1..] else s;
      match ParseUint(digits, 64)
      case Failure(e) => Failure(e)
      case Success(u) =>
        if !neg && u > MaxInt then Failure(Range)
        else if neg && u > -MinInt then Failure(Range)
        else
          var v: int := if neg then -(u as int) else u;
          Success(v)
  }

  /**
   * Atoi's errors: with digits the text after the optional sign, a syntax
   * error is an empty digits, or a non-digit in them before the value has
   * passed 2^64 - 1; a range error is a value past 2^64 - 1 before any
   * non-digit, or an all-digit value outside the int64 range.  Whatever
   * Atoi accepts starts with a sign or a digit.
   */
  lemma AtoiErrors(s: String)
    ensures Atoi(s).Success? ==> |s| >= 1 && (s[0] == Minus || s[0] == Plus || IsDigit(s[0]))
    ensures var digits := if |s| >= 1 && (s[0] == Minus || s[0] == Plus) then s[1..] else s;
      Atoi(s) == Failure(Syntax) <==> digits == [] || (DigitRun(digits) < |digits| && LeadingValue(digits) <= MaxUint64)
    ensures var digits := if |s| >= 1 && (s[0] == Minus || s[0] == Plus) then s[1..] else s;
      Atoi(s) == Failure(Range) <==>
        || LeadingValue(digits) > MaxUint64
        || (digits != [] && AllDigits(digits) && DigitsValue(digits) <= MaxUint64
            && (if s[0] == Minus then DigitsValue(digits) > -MinInt else DigitsValue(digits) > MaxInt))
  {
    Pow2Of64();
  }

  /** Atoi reads fmt's rendering of every int64 back. */
  lemma AtoiFormatInt(n: int)
    requires MinInt <= n <= MaxInt
    ensures Atoi(FormatInt(n)) == Success(n)
  {
    if n < 0 {
      AtoiNegative(-n);
    } else {
      AtoiDecimal(n);
    }
  }

  /** Atoi reads a minus sign and the decimal rendering of k, up to 2^63, as -k. */
  lemma AtoiNegative(k: nat)
    requires 1 <= k <= -MinInt
    ensures Atoi([Minus] + Decimal(k)) == Success(-(k as int))
  {
    ParseDecimal(k);
    assert ([Minus] + Decimal(k))[1..] == Decimal(k);
  }

  /** Atoi reads the decimal rendering of k, up to 2^63 - 1, as k. */
  lemma AtoiDecimal(k: nat)
    requires k <= MaxInt
    ensures Atoi(Decimal(k)) == Success(k)
  {
    ParseDecimal(k);
    assert Decimal(k)[0] != Minus && Decimal(k)[0] != Plus;
  }

  /** ParseUint reads the decimal rendering of every value below 2^64 back. */
  lemma ParseDecimal(k: nat)
    requires k <= MaxUint64
    ensures ParseUint(Decimal(k), 64) == Success(k)
  {
    Pow2Of64();
    DecimalValue(k);
  }
}
