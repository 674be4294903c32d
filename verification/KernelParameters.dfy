/** The texts of the semaphore limits and of the SysRq mask. */
module KernelParameters {
  import opened Wrappers
  import opened Text
  import opened Decimal

  // ----- Semaphore limits -----

  datatype SemaphoreLimits = SemaphoreLimits(semmsl: int, semmns: int, semopm: int, semmni: int)

  datatype SemaphoreError =
    | MissingSemmsl | MissingSemmns | MissingSemopm | MissingSemmni
    | BadSemmsl | BadSemmns | BadSemopm | BadSemmni

  function SemaphoresFromStr(s: string): Result<SemaphoreLimits, SemaphoreError> {
    var tokens := Tokens(s, IsAsciiWhitespace);
    if |tokens| < 1 then Err(MissingSemmsl)
    else if |tokens| < 2 then Err(MissingSemmns)
    else if |tokens| < 3 then Err(MissingSemopm)
    else if |tokens| < 4 then Err(MissingSemmni)
    else
      var semmsl, semmns := ParseInt(U64, tokens[0]), ParseInt(U64, tokens[1]);
      var semopm, semmni := ParseInt(U64, tokens[2]), ParseInt(U64, tokens[3]);
      if semmsl.Err? then Err(BadSemmsl)
      else if semmns.Err? then Err(BadSemmns)
      else if semopm.Err? then Err(BadSemopm)
      else if semmni.Err? then Err(BadSemmni)
      else Ok(SemaphoreLimits(semmsl.value, semmns.value, semopm.value, semmni.value))
  }

  predicate LimitsInRange(l: SemaphoreLimits) {
    U64.Contains(l.semmsl) && U64.Contains(l.semmns) && U64.Contains(l.semopm) && U64.Contains(l.semmni)
  }

  /** Four numbers with whitespace between them. */
  function SemaphoreText(l: SemaphoreLimits, g1: string, g2: string, g3: string): string {
    Print(l.semmsl) + g1 + Print(l.semmns) + g2 + Print(l.semopm) + g3 + Print(l.semmni)
  }

  predicate IsGap(g: string) {
    g != "" && AllOf(g, IsAsciiWhitespace)
  }

  lemma TokensGapCons(gap: string, tok: string, t: string)
    requires AllOf(gap, IsAsciiWhitespace)
    requires tok != "" && NoneOf(tok, IsAsciiWhitespace)
    requires t == "" || IsAsciiWhitespace(t[0])
    ensures Tokens(gap + (tok + t), IsAsciiWhitespace) == [tok] + Tokens(t, IsAsciiWhitespace)
  {
    TokensSkip(gap, tok + t, IsAsciiWhitespace);
    TokensCons(tok, t, IsAsciiWhitespace);
  }

  lemma FourTokens(l: SemaphoreLimits, g1: string, g2: string, g3: string, rest: string)
    requires IsGap(g1) && IsGap(g2) && IsGap(g3)
    requires rest == "" || IsAsciiWhitespace(rest[0])
    ensures Tokens(SemaphoreText(l, g1, g2, g3) + rest, IsAsciiWhitespace) ==
            [Print(l.semmsl), Print(l.semmns), Print(l.semopm), Print(l.semmni)] + Tokens(rest, IsAsciiWhitespace)
  {
    PrintedChars(l.semmsl);
    PrintedChars(l.semmns);
    PrintedChars(l.semopm);
    PrintedChars(l.semmni);
    var a, b, c, d := Print(l.semmsl), Print(l.semmns), Print(l.semopm), Print(l.semmni);
    FourWords(a, g1, b, g2, c, g3, d, rest);
  }

  predicate IsWord(s: string) {
    s != "" && NoneOf(s, IsAsciiWhitespace)
  }

  lemma FourWords(a: string, g1: string, b: string, g2: string, c: string, g3: string, d: string, rest: string)
    requires IsWord(a) && IsWord(b) && IsWord(c) && IsWord(d)
    requires IsGap(g1) && IsGap(g2) && IsGap(g3)
    requires rest == "" || IsAsciiWhitespace(rest[0])
    ensures Tokens(a + g1 + b + g2 + c + g3 + d + rest, IsAsciiWhitespace) ==
            [a, b, c, d] + Tokens(rest, IsAsciiWhitespace)
  {
    var t3 := g3 + (d + rest);
    var t2 := g2 + (c + t3);
    var t1 := g1 + (b + t2);
    TokensGapCons(g3, d, rest);
    TokensGapCons(g2, c, t3);
    TokensGapCons(g1, b, t2);
    TokensCons(a, t1, IsAsciiWhitespace);
    assert a + g1 + b + g2 + c + g3 + d + rest == a + t1;
  }

  /**
   Any four 64-bit limits, printed with any ASCII whitespace between them, are read back through
   the trim, whatever further tokens follow the fourth.
   */
  lemma SemaphoreRoundTrip(l: SemaphoreLimits, lead: string, g1: string, g2: string, g3: string, rest: string)
    requires LimitsInRange(l) && AllOf(lead, IsWhitespace)
    requires IsGap(g1) && IsGap(g2) && IsGap(g3)
    requires rest == "" || IsAsciiWhitespace(rest[0])
    ensures SemaphoresFromStr(Trim(lead + SemaphoreText(l, g1, g2, g3) + rest)) == Ok(l)
  {
    var core, kept := SemaphoreText(l, g1, g2, g3), TrimEnd(rest);
    PrintedChars(l.semmsl);
    PrintedChars(l.semmni);
    assert core[0] == Print(l.semmsl)[0];
    assert core[|core| - 1] == Print(l.semmni)[|Print(l.semmni)| - 1];
    TrimAround(lead, core, rest);
    FourTokens(l, g1, g2, g3, kept);
    ParsePrint(U64, l.semmsl);
    ParsePrint(U64, l.semmns);
    ParsePrint(U64, l.semopm);
    ParsePrint(U64, l.semmni);
  }

  /** `s` is laid out as `tokens`, with gaps of ASCII whitespace. */
  ghost predicate HasFields(s: string, tokens: seq<string>) {
    exists gaps :: LaysOut(s, gaps, tokens, IsAsciiWhitespace)
  }

  /** The first four fields are 64-bit numerals of the limits. */
  ghost predicate FieldsDenote(tokens: seq<string>, l: SemaphoreLimits) {
    && |tokens| >= 4
    && Denotes(U64, tokens[0], l.semmsl) && Denotes(U64, tokens[1], l.semmns)
    && Denotes(U64, tokens[2], l.semopm) && Denotes(U64, tokens[3], l.semmni)
  }

  /** The parser accepts exactly the texts laid out as four or more fields, of which four are the numerals. */
  lemma SemaphoresExact(s: string, l: SemaphoreLimits)
    ensures SemaphoresFromStr(s) == Ok(l) <==> exists tokens :: HasFields(s, tokens) && FieldsDenote(tokens, l)
  {
    var tokens := Tokens(s, IsAsciiWhitespace);
    forall other
      ensures HasFields(s, other) <==> other == tokens
    {
      TokensExact(s, other, IsAsciiWhitespace);
    }
    if |tokens| >= 4 {
      ParseIntExact(U64, tokens[0]);
      ParseIntExact(U64, tokens[1]);
      ParseIntExact(U64, tokens[2]);
      ParseIntExact(U64, tokens[3]);
      assert SemaphoresFromStr(s) == Ok(l) <==> FieldsDenote(tokens, l);
    }
    assert HasFields(s, tokens);
  }

  predicate IsMissing(error: SemaphoreError) {
    error.MissingSemmsl? || error.MissingSemmns? || error.MissingSemopm? || error.MissingSemmni?
  }

  /** The position of the field an error is about. */
  function Field(error: SemaphoreError): nat {
    match error
    case MissingSemmsl | BadSemmsl => 0
    case MissingSemmns | BadSemmns => 1
    case MissingSemopm | BadSemopm => 2
    case MissingSemmni | BadSemmni => 3
  }

  /** All four fields are there, and number `n` is the first that is no 64-bit numeral. */
  ghost predicate FirstMalformed(tokens: seq<string>, n: nat) {
    n < 4 <= |tokens| && !IsNumeral(U64, tokens[n]) && forall i | 0 <= i < n :: IsNumeral(U64, tokens[i])
  }

  lemma MissingExact(s: string, n: nat)
    ensures var tokens, r := Tokens(s, IsAsciiWhitespace), SemaphoresFromStr(s);
            |tokens| == n < 4 <==> r.Err? && IsMissing(r.error) && Field(r.error) == n
  {
  }

  /** Field `n` is the first of the four that does not parse. */
  predicate FirstRejected(tokens: seq<string>, n: nat) {
    n < 4 <= |tokens| && ParseInt(U64, tokens[n]).Err? && forall i | 0 <= i < n :: ParseInt(U64, tokens[i]).Ok?
  }

  lemma RejectedExact(s: string, n: nat)
    ensures var tokens, r := Tokens(s, IsAsciiWhitespace), SemaphoresFromStr(s);
            FirstRejected(tokens, n) <==> r.Err? && !IsMissing(r.error) && Field(r.error) == n
  {
  }

  lemma RejectedIsMalformed(tokens: seq<string>, n: nat)
    ensures FirstRejected(tokens, n) <==> FirstMalformed(tokens, n)
  {
    forall i | 0 <= i < |tokens|
      ensures ParseInt(U64, tokens[i]).Err? <==> !IsNumeral(U64, tokens[i])
    {
      ParseIntRejects(U64, tokens[i]);
    }
  }

  /**
   A text with fewer than four fields, whatever they are, gets the error of the first one that is
   missing; otherwise the error is about the first malformed one of the four.
   */
  lemma MissingBeforeMalformed(s: string, tokens: seq<string>, n: nat)
    requires HasFields(s, tokens)
    ensures var r := SemaphoresFromStr(s);
            && (|tokens| == n < 4 <==> r.Err? && IsMissing(r.error) && Field(r.error) == n)
            && (FirstMalformed(tokens, n) <==> r.Err? && !IsMissing(r.error) && Field(r.error) == n)
  {
    TokensExact(s, tokens, IsAsciiWhitespace);
    MissingExact(s, n);
    RejectedExact(s, n);
    RejectedIsMalformed(tokens, n);
  }

  // ----- SysRq -----

  type Mask = x: int | 0 <= x < 0x1_0000

  datatype SysRq = Disable | Enable | AllowedFunctions(bits: Mask)

  datatype SysRqError = NotANumber(error: IntError) | InvalidValue

  const POWERS: seq<int> :=
    [1, 2, 4, 8, 16, 32, 64, 128, 256, 512, 1024, 2048, 4096, 8192, 16384, 32768]

  /** The flags that are declared: control log level up to nicing of real-time tasks. */
  const FLAGS: set<int> := {2, 4, 8, 16, 32, 64, 128, 256}

  /** Bit `k` of a mask. */
  predicate Bit(x: Mask, k: nat)
    requires k < 16
  {
    x / POWERS[k] % 2 == 1
  }

  /** Every bit that is set belongs to a declared flag. */
  predicate OnlyFlags(x: Mask) {
    forall k: nat | k < 16 && Bit(x, k) :: POWERS[k] in FLAGS
  }

  function FromBits(x: Mask): Option<Mask> {
    if OnlyFlags(x) then Some(x) else None
  }

  function ToNumber(v: SysRq): Mask {
    match v
    case Disable => 0
    case Enable => 1
    case AllowedFunctions(bits) => bits
  }

  function SysRqFromStr(s: string): Result<SysRq, SysRqError> {
    match ParseInt(U16, s)
    case Err(error) => Err(NotANumber(error))
    case Ok(x) =>
      ParseIntInRange(U16, s);
      if x == 0 then Ok(Disable)
      else if x == 1 then Ok(Enable)
      else
        match FromBits(x)
        case Some(bits) => Ok(AllowedFunctions(bits))
        case None => Err(InvalidValue)
  }

  /** The declared flags cover bits 1 to 8, so an admissible mask is an even number below 512. */
  lemma OnlyFlagsExact(x: Mask)
    ensures OnlyFlags(x) <==> x % 2 == 0 && x < 512
  {
    if x % 2 == 1 {
      assert Bit(x, 0);
    }
    if x >= 512 {
      var k := HighBit(x);
      assert POWERS[k] >= 512;
    }
    if x % 2 == 0 && x < 512 {
      assert forall k: nat | k < 16 && Bit(x, k) :: 1 <= k <= 8;
    }
  }

  lemma HighBit(x: Mask) returns (k: nat)
    requires x >= 512
    ensures 9 <= k < 16 && Bit(x, k)
  {
    k := if x >= 32768 then 15 else if x >= 16384 then 14 else if x >= 8192 then 13
         else if x >= 4096 then 12 else if x >= 2048 then 11 else if x >= 1024 then 10 else 9;
    assert x / POWERS[k] == 1;
  }

  /** The parser accepts exactly the 16-bit numerals for 1 and for the even numbers below 512 ... */
  lemma SysRqExact(s: string)
    ensures SysRqFromStr(s).Ok? <==> exists n :: Denotes(U16, s, n) && (n == 1 || (n % 2 == 0 && n < 512))
    ensures SysRqFromStr(s).Ok? ==> Denotes(U16, s, ToNumber(SysRqFromStr(s).value))
    ensures SysRqFromStr(s) == Err(InvalidValue) <==>
            exists n :: Denotes(U16, s, n) && n != 1 && (n % 2 == 1 || n >= 512)
    ensures forall error :: SysRqFromStr(s) == Err(NotANumber(error)) <==> ParseInt(U16, s) == Err(error)
  {
    ParseIntExact(U16, s);
    ParseIntInRange(U16, s);
    var r := ParseInt(U16, s);
    if r.Ok? {
      assert Denotes(U16, s, r.value);
      OnlyFlagsExact(r.value);
    }
  }

  /**
   ... and reading back the text of a setting returns the setting, except that an empty mask
   comes back as `Disable`, the mask 1 as `Enable`, and other masks with undeclared bits not at all.
   */
  lemma SysRqRoundTrip(v: SysRq)
    ensures var r := SysRqFromStr(Print(ToNumber(v)));
            && (r == Ok(v) <==> (v.AllowedFunctions? ==> v.bits != 0 && v.bits % 2 == 0 && v.bits < 512))
            && (v == AllowedFunctions(0) ==> r == Ok(Disable))
            && (v == AllowedFunctions(1) ==> r == Ok(Enable))
            && (r.Err? <==> v.AllowedFunctions? && v.bits > 1 && (v.bits % 2 == 1 || v.bits >= 512))
  {
    ParsePrint(U16, ToNumber(v));
    OnlyFlagsExact(ToNumber(v));
  }
}
