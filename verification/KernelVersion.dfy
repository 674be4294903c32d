/** Kernel versions: packing into a word, ordering, and parsing. */
module KernelVersion {
  import opened Wrappers
  import opened Bytes
  import opened Text
  import opened Decimal

  type U8Value = x: int | 0 <= x < 0x100
  type U16Value = x: int | 0 <= x < 0x1_0000
  type Word = x: int | 0 <= x < 0x1_0000_0000

  datatype Version = Version(major: U8Value, minor: U8Value, patch: U16Value)

  const ZERO := Version(0, 0, 0)

  // ----- Packing -----

  /** The numbers of values in two- and four-byte words. */
  lemma WordSizes()
    ensures Pow256(1) == 0x100 && Pow256(2) == 0x1_0000 && Pow256(4) == 0x1_0000_0000
  {
  }

  /** The two bytes of the patch number follow the major and minor bytes; all in machine order. */
  function ToU32(e: Endian, v: Version): Word {
    WordSizes();
    FromBytesBound(e, [v.major, v.minor] + ToBytes(e, v.patch, 2));
    FromBytes(e, [v.major, v.minor] + ToBytes(e, v.patch, 2))
  }

  function FromU32(e: Endian, w: Word): Version {
    WordSizes();
    var bytes := ToBytes(e, w, 4);
    FromBytesBound(e, bytes[2..]);
    Version(bytes[0], bytes[1], FromBytes(e, bytes[2..]))
  }

  /** Unpacking inverts packing. */
  lemma FromToU32(e: Endian, v: Version)
    ensures FromU32(e, ToU32(e, v)) == v
  {
    WordSizes();
    var bytes := [v.major, v.minor] + ToBytes(e, v.patch, 2);
    ToFromBytes(e, bytes);
    assert bytes[2..] == ToBytes(e, v.patch, 2);
    FromToBytes(e, v.patch, 2);
  }

  /** Packing inverts unpacking: every word is the packing of exactly one version. */
  lemma ToFromU32(e: Endian, w: Word)
    ensures ToU32(e, FromU32(e, w)) == w
  {
    WordSizes();
    var bytes := ToBytes(e, w, 4);
    ToFromBytes(e, bytes[2..]);
    assert bytes == [bytes[0], bytes[1]] + bytes[2..];
    FromToBytes(e, w, 4);
  }

  lemma LittleTwo(a: Byte, b: Byte)
    ensures LittleValue([a, b]) == a + 0x100 * b
    ensures Reverse([a, b]) == [b, a]
  {
    assert [a, b][1..] == [b] && [b][1..] == [];
    assert LittleValue([b]) == b;
    assert Reverse([b]) == [b];
  }

  lemma LittleFour(a: Byte, b: Byte, c: Byte, d: Byte)
    ensures LittleValue([a, b, c, d]) == a + 0x100 * b + 0x1_0000 * c + 0x100_0000 * d
    ensures Reverse([a, b, c, d]) == [d, c, b, a]
  {
    LittleTwo(c, d);
    assert [b, c, d][1..] == [c, d];
    assert [a, b, c, d][1..] == [b, c, d];
    assert Reverse([b, c, d]) == [d, c, b];
  }

  /** The packed word as a number, in either byte order. */
  lemma PackedValue(v: Version)
    ensures ToU32(Big, v) == v.major * 0x100_0000 + v.minor * 0x1_0000 + v.patch
    ensures ToU32(Little, v) == v.major + v.minor * 0x100 + v.patch * 0x1_0000
  {
    WordSizes();
    var little := LittleBytes(v.patch, 2);
    LittleValueBytes(v.patch, 2);
    var a, b := little[0], little[1];
    assert little == [a, b];
    LittleTwo(a, b);
    assert [v.major, v.minor] + [a, b] == [v.major, v.minor, a, b];
    assert [v.major, v.minor] + [b, a] == [v.major, v.minor, b, a];
    LittleFour(v.major, v.minor, a, b);
    LittleFour(v.major, v.minor, b, a);
    LittleFour(a, b, v.minor, v.major);
  }

  /** The cache's sentinel word 0 is the packing of 0.0.0 and of no other version. */
  lemma OnlyZeroPacksToZero(e: Endian, v: Version)
    ensures ToU32(e, v) == 0 <==> v == ZERO
  {
    PackedValue(v);
  }

  // ----- Ordering -----

  datatype Ordering = Less | Equal | Greater

  function Compare(a: int, b: int): Ordering {
    if a < b then Less else if a == b then Equal else Greater
  }

  function Cmp(a: Version, b: Version): Ordering {
    match Compare(a.major, b.major)
    case Equal =>
      (match Compare(a.minor, b.minor)
       case Equal => Compare(a.patch, b.patch)
       case x => x)
    case x => x
  }

  /** The order of versions is the order of major * 2^24 + minor * 2^16 + patch. */
  lemma CmpIsNumeric(a: Version, b: Version)
    ensures Cmp(a, b) == Compare(a.major * 0x100_0000 + a.minor * 0x1_0000 + a.patch,
                                 b.major * 0x100_0000 + b.minor * 0x1_0000 + b.patch)
  {
  }

  /** Hence `Cmp` is a total order: equal only on equal versions, antisymmetric and transitive. */
  lemma CmpTotalOrder(a: Version, b: Version, c: Version)
    ensures Cmp(a, b) == Equal <==> a == b
    ensures Cmp(a, b) == Less <==> Cmp(b, a) == Greater
    ensures Cmp(a, b) != Greater && Cmp(b, c) != Greater ==> Cmp(a, c) != Greater
  {
  }

  lemma BigEndianOrder(a: Version, b: Version)
    ensures Cmp(a, b) == Compare(ToU32(Big, a), ToU32(Big, b))
  {
    PackedValue(a);
    PackedValue(b);
    CmpIsNumeric(a, b);
  }

  lemma LittleEndianDisorder()
    ensures Cmp(Version(1, 0, 0), Version(0, 1, 0)) == Greater
    ensures Compare(ToU32(Little, Version(1, 0, 0)), ToU32(Little, Version(0, 1, 0))) == Less
  {
    PackedValue(Version(1, 0, 0));
    PackedValue(Version(0, 1, 0));
  }

  /** Packed words compare like the versions they pack on big-endian machines, and only there. */
  lemma PackedOrderIffBigEndian(e: Endian)
    ensures (forall a, b :: Cmp(a, b) == Compare(ToU32(e, a), ToU32(e, b))) <==> e == Big
  {
    if e == Big {
      forall a: Version, b: Version
        ensures Cmp(a, b) == Compare(ToU32(e, a), ToU32(e, b))
      {
        BigEndianOrder(a, b);
      }
    } else {
      LittleEndianDisorder();
    }
  }

  // ----- Parsing -----

  datatype VersionError = MissingMajor | MissingMinor | MissingPatch | BadMajor | BadMinor | BadPatch

  predicate IsVersionChar(c: char) {
    c == '.' || IsDigit(c)
  }

  predicate IsDot(c: char) {
    c == '.'
  }

  /** The text before the first character that is neither a dot nor a digit. */
  function ReleasePrefix(s: string): string {
    s[..Span(s, IsVersionChar)]
  }

  function FromStr(s: string): Result<Version, VersionError> {
    var parts := Split(ReleasePrefix(s), IsDot);
    if |parts| < 1 then Err(MissingMajor)
    else if |parts| < 2 then Err(MissingMinor)
    else if |parts| < 3 then Err(MissingPatch)
    else
      var major := ParseInt(U8, parts[0]);
      var minor := ParseInt(U8, parts[1]);
      var patch := ParseInt(U16, parts[2]);
      if major.Err? then Err(BadMajor)
      else if minor.Err? then Err(BadMinor)
      else if patch.Err? then Err(BadPatch)
      else
        ParseIntInRange(U8, parts[0]); ParseIntInRange(U8, parts[1]); ParseIntInRange(U16, parts[2]);
        Ok(Version(major.value, minor.value, patch.value))
  }

  /** A component of a version: a non-empty digit string, of any length, denoting `x`. */
  ghost predicate Component(s: string, x: int) {
    s != "" && AllDigits(s) && Value(s) == x
  }

  /** `s` reads a.b.c, then nothing or a non-digit and anything after it. */
  ghost predicate Spells(s: string, v: Version, a: string, b: string, c: string, rest: string) {
    && s == a + "." + b + "." + c + rest
    && Component(a, v.major) && Component(b, v.minor) && Component(c, v.patch)
    && (rest == "" || !IsDigit(rest[0]))
  }

  /** A component is what the checked parser accepts, given that signs cannot occur. */
  lemma ParseComponent(t: IntType, s: string, x: int)
    requires s == "" || (s[0] != '+' && s[0] != '-')
    ensures ParseInt(t, s) == Ok(x) <==> Component(s, x) && t.Contains(x)
  {
    ParseIntExact(t, s);
  }

  lemma {:induction false} SpanAppend(a: string, t: string)
    requires AllOf(a, IsVersionChar)
    ensures ReleasePrefix(a + t) == a + ReleasePrefix(t)
  {
    if a == "" {
      assert a + t == t;
      assert "" + ReleasePrefix(t) == ReleasePrefix(t);
    } else {
      assert (a + t)[1..] == a[1..] + t;
      SpanAppend(a[1..], t);
      var n := Span(a[1..] + t, IsVersionChar);
      assert (a + t)[..n + 1] == [a[0]] + (a[1..] + t)[..n];
    }
  }

  lemma SplitThree(a: string, b: string, c: string, tail: string)
    requires NoneOf(a, IsDot) && NoneOf(b, IsDot) && NoneOf(c, IsDot)
    requires tail == "" || tail[0] == '.'
    ensures var parts := Split(a + ['.'] + (b + ['.'] + (c + tail)), IsDot);
            |parts| >= 3 && parts[0] == a && parts[1] == b && parts[2] == c
  {
    SplitCons(a, '.', b + ['.'] + (c + tail), IsDot);
    SplitCons(b, '.', c + tail, IsDot);
    if tail == "" {
      assert c + tail == c;
      SplitFree(c, IsDot);
    } else {
      assert c + tail == c + ['.'] + tail[1..];
      SplitCons(c, '.', tail[1..], IsDot);
    }
  }

  /** Completeness: every text that spells a version is parsed as that version. */
  lemma FromStrComplete(s: string, v: Version, a: string, b: string, c: string, rest: string)
    requires Spells(s, v, a, b, c, rest)
    ensures FromStr(s) == Ok(v)
  {
    FromStrComponents(s, a, b, c, rest);
  }

  /** The first three dot-separated pieces of a text, and what follows them. */
  lemma FirstThree(k: string) returns (more: string)
    requires |Split(k, IsDot)| >= 3
    ensures var parts := Split(k, IsDot);
            k == parts[0] + "." + parts[1] + "." + parts[2] + more
    ensures more == "" || more[0] == '.'
  {
    var parts := Split(k, IsDot);
    JoinSplit(k, IsDot, '.');
    var tail := Join(parts[2..], '.');
    assert k == parts[0] + ['.'] + (parts[1] + ['.'] + tail) by {
      assert parts[1..][1..] == parts[2..];
    }
    more := if |parts| == 3 then "" else ['.'] + Join(parts[2..][1..], '.');
    assert tail == parts[2] + more;
  }

  /** Soundness: a text parsed as a version spells it. */
  lemma FromStrSound(s: string, v: Version) returns (rest: string)
    requires FromStr(s) == Ok(v)
    ensures var parts := Split(ReleasePrefix(s), IsDot);
            |parts| >= 3 && Spells(s, v, parts[0], parts[1], parts[2], rest)
  {
    var k := ReleasePrefix(s);
    var parts := Split(k, IsDot);
    var more := FirstThree(k);
    var a, b, c := parts[0], parts[1], parts[2];
    forall i | 0 <= i < |k|
      ensures IsVersionChar(k[i])
    {
    }
    assert a != "" ==> k[0] == a[0];
    assert b != "" ==> k[|a| + 1] == b[0];
    assert c != "" ==> k[|a| + |b| + 2] == c[0];
    ParseComponent(U8, a, v.major);
    ParseComponent(U8, b, v.minor);
    ParseComponent(U16, c, v.patch);
    rest := more + s[|k|..];
    assert s == k + s[|k|..];
  }

  /**
   The parser accepts exactly the texts that start with three dot-separated digit strings, the
   third not followed by a digit, whose values, however long the strings, fit 8, 8 and 16 bits.
   */
  lemma FromStrExact(s: string, v: Version)
    ensures FromStr(s) == Ok(v) <==> exists a, b, c, rest :: Spells(s, v, a, b, c, rest)
  {
    if FromStr(s) == Ok(v) {
      var rest := FromStrSound(s, v);
    }
    forall a, b, c, rest | Spells(s, v, a, b, c, rest)
      ensures FromStr(s) == Ok(v)
    {
      FromStrComplete(s, v, a, b, c, rest);
    }
  }

  function Dots(s: string): nat {
    if s == "" then 0 else (if s[0] == '.' then 1 else 0) + Dots(s[1..])
  }

  lemma {:induction false} SplitCount(s: string)
    ensures |Split(s, IsDot)| == 1 + Dots(s)
  {
    if s != "" {
      SplitCount(s[1..]);
    }
  }

  /** A missing component is reported before any malformed one; the major one is never missing. */
  lemma FromStrMissing(s: string)
    ensures FromStr(s) == Err(MissingMinor) <==> Dots(ReleasePrefix(s)) == 0
    ensures FromStr(s) == Err(MissingPatch) <==> Dots(ReleasePrefix(s)) == 1
    ensures FromStr(s) != Err(MissingMajor)
  {
    SplitCount(ReleasePrefix(s));
  }

  /** The text before the first character that is neither a dot nor a digit is `k`. */
  lemma ReleasePrefixExact(s: string, k: string)
    ensures ReleasePrefix(s) == k <==>
            && k <= s && (forall i | 0 <= i < |k| :: k[i] == '.' || IsDigit(k[i]))
            && (|k| < |s| ==> s[|k|] != '.' && !IsDigit(s[|k|]))
  {
    if k <= s && (forall i | 0 <= i < |k| :: IsVersionChar(k[i])) && (|k| < |s| ==> !IsVersionChar(s[|k|])) {
      assert s == k + s[|k|..];
      SpanOf(k, s[|k|..], IsVersionChar);
    }
  }

  /** `s` starts with three dot-separated strings of digits, possibly empty, the last not followed by a digit. */
  ghost predicate Components(s: string, a: string, b: string, c: string, rest: string) {
    && s == a + "." + b + "." + c + rest
    && AllDigits(a) && AllDigits(b) && AllDigits(c)
    && (rest == "" || !IsDigit(rest[0]))
  }

  /** A component of at most `max`. */
  predicate Fits(s: string, max: nat)
    requires AllDigits(s)
  {
    s != "" && Value(s) <= max
  }

  /** What a text with three components is parsed as: the first one that does not fit decides the error. */
  lemma FromStrComponents(s: string, a: string, b: string, c: string, rest: string)
    requires Components(s, a, b, c, rest)
    ensures FromStr(s) ==
            if !Fits(a, 255) then Err(BadMajor)
            else if !Fits(b, 255) then Err(BadMinor)
            else if !Fits(c, 65535) then Err(BadPatch)
            else Ok(Version(Value(a), Value(b), Value(c)))
  {
    PiecesOfComponents(s, a, b, c, rest);
    ParseFits(U8, a);
    ParseFits(U8, b);
    ParseFits(U16, c);
  }

  lemma ParseFits(t: IntType, s: string)
    requires AllDigits(s)
    ensures ParseInt(t, s) == Ok(Value(s)) || ParseInt(t, s).Err?
    ensures ParseInt(t, s).Ok? <==> Fits(s, t.Max())
  {
    ParseDigits(t, s, Value(s));
    if ParseInt(t, s).Ok? {
      ParseDigits(t, s, ParseInt(t, s).value);
    }
  }

  lemma PiecesOfComponents(s: string, a: string, b: string, c: string, rest: string)
    requires Components(s, a, b, c, rest)
    ensures var parts := Split(ReleasePrefix(s), IsDot);
            |parts| >= 3 && parts[0] == a && parts[1] == b && parts[2] == c
  {
    var core := a + "." + b + "." + c;
    assert AllOf(core, IsVersionChar);
    SpanAppend(core, rest);
    var tail := ReleasePrefix(rest);
    assert ReleasePrefix(s) == a + ['.'] + (b + ['.'] + (c + tail));
    assert tail == "" || tail[0] == '.' by {
      if tail != "" { assert tail[0] == rest[0]; }
    }
    SplitThree(a, b, c, tail);
  }

  /** Every text has three components, unless it has too few dots. */
  lemma ComponentsExist(s: string) returns (a: string, b: string, c: string, rest: string)
    requires Dots(ReleasePrefix(s)) >= 2
    ensures Components(s, a, b, c, rest)
  {
    var k := ReleasePrefix(s);
    SplitCount(k);
    var more := FirstThree(k);
    SplitIsFree(k, IsDot);
    var parts := Split(k, IsDot);
    a, b, c := parts[0], parts[1], parts[2];
    rest := more + s[|k|..];
    PiecesDigits(k, a, b, c, more);
    assert s == k + s[|k|..];
  }

  lemma PiecesDigits(k: string, a: string, b: string, c: string, more: string)
    requires AllOf(k, IsVersionChar) && k == a + "." + b + "." + c + more
    requires NoneOf(a, IsDot) && NoneOf(b, IsDot) && NoneOf(c, IsDot)
    ensures AllDigits(a) && AllDigits(b) && AllDigits(c)
  {
    assert k == a + ("." + b + "." + c + more);
    PieceDigits(k, "", a, "." + b + "." + c + more);
    PieceDigits(k, a + ".", b, "." + c + more);
    PieceDigits(k, a + "." + b + ".", c, more);
  }

  lemma PieceDigits(k: string, before: string, piece: string, after: string)
    requires AllOf(k, IsVersionChar) && k == before + piece + after && NoneOf(piece, IsDot)
    ensures AllDigits(piece)
  {
    forall i | 0 <= i < |piece|
      ensures IsDigit(piece[i])
    {
      assert k[|before| + i] == piece[i];
    }
  }

  /** A version in major.minor.patch syntax. */
  function VersionText(v: Version): string {
    Digits(v.major) + "." + Digits(v.minor) + "." + Digits(v.patch)
  }

  /**
   Every version is read back from its text, whatever suffix a release name adds after it and
   whatever whitespace surrounds the two, as long as the suffix does not go on with a digit.
   */
  lemma ParsePrintedVersion(v: Version, lead: string, suffix: string)
    requires AllOf(lead, IsWhitespace)
    requires suffix == "" || !IsDigit(suffix[0])
    ensures FromStr(VersionText(v) + suffix) == Ok(v)
    ensures FromStr(Trim(lead + VersionText(v) + suffix)) == Ok(v)
  {
    var a, b, c := Digits(v.major), Digits(v.minor), Digits(v.patch);
    ValueOfDigits(v.major);
    ValueOfDigits(v.minor);
    ValueOfDigits(v.patch);
    assert Spells(VersionText(v) + suffix, v, a, b, c, suffix);
    FromStrComplete(VersionText(v) + suffix, v, a, b, c, suffix);
    assert VersionText(v)[0] == a[0] && VersionText(v)[|VersionText(v)| - 1] == c[|c| - 1];
    TrimAround(lead, VersionText(v), suffix);
    var kept := TrimEnd(suffix);
    FromStrComplete(VersionText(v) + kept, v, a, b, c, kept);
  }
}
