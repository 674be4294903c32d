/** Decimal printing (`to_string`) and checked decimal parsing (`str::parse`) at fixed integer widths. */
module Decimal {
  import opened Wrappers
  import opened Text

  /** The integer types the modelled functions parse and print. */
  datatype IntType = U8 | U16 | U32 | U64 | I16 | I32 {
    predicate Signed() {
      I16? || I32?
    }

    function Min(): int {
      match this
      case I16 => -0x8000
      case I32 => -0x8000_0000
      case _ => 0
    }

    function Max(): int {
      match this
      case U8 => 0xFF
      case U16 => 0xFFFF
      case U32 => 0xFFFF_FFFF
      case U64 => 0xFFFF_FFFF_FFFF_FFFF
      case I16 => 0x7FFF
      case I32 => 0x7FFF_FFFF
    }

    predicate Contains(x: int) {
      Min() <= x <= Max()
    }
  }

  datatype IntError = Empty | InvalidDigit | Overflow

  predicate IsDigit(c: char) {
    '0' <= c <= '9'
  }

  function DigitValue(c: char): (d: int)
    requires IsDigit(c)
    ensures 0 <= d <= 9
  {
    c as int - '0' as int
  }

  function DigitChar(d: nat): (c: char)
    requires d <= 9
    ensures IsDigit(c) && DigitValue(c) == d
  {
    ('0' as int + d) as char
  }

  predicate AllDigits(s: string) {
    forall i | 0 <= i < |s| :: IsDigit(s[i])
  }

  /** The number a digit string of any length denotes; leading zeros do not matter. */
  function Value(s: string): nat
    requires AllDigits(s)
  {
    if s == "" then 0 else 10 * Value(s[..|s| - 1]) + DigitValue(s[|s| - 1])
  }

  /** The digits are the ten ASCII digits, and are worth 0 to 9. */
  lemma DigitsExact(c: char)
    ensures IsDigit(c) <==> c in "0123456789"
    ensures forall d | 0 <= d < 10 :: IsDigit("0123456789"[d]) && DigitValue("0123456789"[d]) == d
  {
    if IsDigit(c) {
      assert "0123456789"[c as int - '0' as int] == c;
    }
  }

  // ----- Parsing -----

  /**
   The rest of a checked parse after `acc` has been read: multiply by ten, then add the digit (or
   subtract it, after a minus sign), failing at the first step that leaves the type.
   */
  function Accumulate(lo: int, hi: int, negative: bool, acc: int, s: string): Result<int, IntError>
    decreases |s|
  {
    if s == "" then Ok(acc)
    else if !IsDigit(s[0]) then Err(InvalidDigit)
    else if !(lo <= acc * 10 <= hi) then Err(Overflow)
    else
      var next := if negative then acc * 10 - DigitValue(s[0]) else acc * 10 + DigitValue(s[0]);
      if !(lo <= next <= hi) then Err(Overflow) else Accumulate(lo, hi, negative, next, s[1..])
  }

  function ParseInt(t: IntType, s: string): Result<int, IntError> {
    if s == "" then Err(Empty)
    else if s == "+" || s == "-" then Err(InvalidDigit)
    else if s[0] == '+' then Accumulate(t.Min(), t.Max(), false, 0, s[1..])
    else if s[0] == '-' && t.Signed() then Accumulate(t.Min(), t.Max(), true, 0, s[1..])
    else Accumulate(t.Min(), t.Max(), false, 0, s)
  }

  /** The digits of a numeral: what follows an admissible sign. */
  function Body(t: IntType, s: string): string {
    if s != "" && (s[0] == '+' || (s[0] == '-' && t.Signed())) then s[1..] else s
  }

  predicate Negative(t: IntType, s: string) {
    s != "" && s[0] == '-' && t.Signed()
  }

  function WithSign(negative: bool, n: int): int {
    if negative then -n else n
  }

  /** `s` is a numeral of type `t` for `x`: an optional sign, then at least one digit, in range. */
  ghost predicate Denotes(t: IntType, s: string, x: int) {
    && Body(t, s) != "" && AllDigits(Body(t, s))
    && x == WithSign(Negative(t, s), Value(Body(t, s)))
    && t.Contains(x)
  }

  /** Some all-digit prefix of the numeral already exceeds the type. */
  ghost predicate Exceeds(lo: int, hi: int, negative: bool, digits: string, n: int) {
    0 <= n <= |digits| && AllDigits(digits[..n]) && !(lo <= WithSign(negative, Value(digits[..n])) <= hi)
  }

  lemma ValueSnoc(s: string, c: char)
    requires AllDigits(s) && IsDigit(c)
    ensures AllDigits(s + [c])
    ensures Value(s + [c]) == 10 * Value(s) + DigitValue(c)
  {
  }

  lemma {:induction false} ValueMonotone(s: string, n: nat)
    requires AllDigits(s) && n <= |s|
    ensures Value(s[..n]) <= Value(s)
  {
    if n < |s| {
      ValueMonotone(s[..|s| - 1], n);
      assert s[..|s| - 1][..n] == s[..n];
    } else {
      assert s[..n] == s;
    }
  }

  /** One step of the accumulation, on digit strings: reading `c` after the digits `p`. */
  lemma AccumulateStep(lo: int, hi: int, negative: bool, p: string, s: string)
    requires lo <= 0 <= hi && AllDigits(p) && s != "" && IsDigit(s[0])
    ensures AllDigits(p + [s[0]])
    ensures var next := WithSign(negative, Value(p + [s[0]]));
            Accumulate(lo, hi, negative, WithSign(negative, Value(p)), s) ==
            if lo <= next <= hi then Accumulate(lo, hi, negative, next, s[1..]) else Err(Overflow)
  {
  }

  /** If a whole numeral fits, so does every prefix of it. */
  lemma PrefixFits(lo: int, hi: int, negative: bool, q: string, s: string)
    requires lo <= 0 <= hi && AllDigits(q + s) && lo <= WithSign(negative, Value(q + s)) <= hi
    ensures AllDigits(q) && lo <= WithSign(negative, Value(q)) <= hi
  {
    assert (q + s)[..|q|] == q;
    assert AllDigits((q + s)[..|q|]);
    ValueMonotone(q + s, |q|);
  }

  lemma Regroup(p: string, s: string)
    requires s != ""
    ensures p + [s[0]] + s[1..] == p + s
    ensures AllDigits(s) <==> IsDigit(s[0]) && AllDigits(s[1..])
    ensures AllDigits(p + s) <==> AllDigits(p) && AllDigits(s)
  {
    assert forall i | 0 <= i < |p| :: (p + s)[i] == p[i];
    assert forall i | 0 <= i < |s| :: (p + s)[|p| + i] == s[i];
    assert forall i | 0 <= i < |s| - 1 :: s[1..][i] == s[i + 1];
  }

  /** The digits `p` and `s` together are a numeral that fits. */
  ghost predicate Fits(lo: int, hi: int, negative: bool, p: string, s: string) {
    AllDigits(p + s) && lo <= WithSign(negative, Value(p + s)) <= hi
  }

  /** With the digits `p` accumulated, the rest `s` is accepted exactly if it is digits and all of it fits. */
  lemma {:induction false} AccumulateOk(lo: int, hi: int, negative: bool, p: string, s: string)
    requires lo <= 0 <= hi && AllDigits(p) && lo <= WithSign(negative, Value(p)) <= hi
    ensures var r := Accumulate(lo, hi, negative, WithSign(negative, Value(p)), s);
            && (r.Ok? <==> Fits(lo, hi, negative, p, s))
            && (r.Ok? ==> r.value == WithSign(negative, Value(p + s)))
            && r != Err(Empty)
    decreases |s|
  {
    if s == "" {
      assert p + s == p;
    } else {
      Regroup(p, s);
      if IsDigit(s[0]) {
        var q := p + [s[0]];
        AccumulateStep(lo, hi, negative, p, s);
        if lo <= WithSign(negative, Value(q)) <= hi {
          AccumulateOk(lo, hi, negative, q, s[1..]);
        } else if Fits(lo, hi, negative, q, s[1..]) {
          PrefixFits(lo, hi, negative, q, s[1..]);
        }
      }
    }
  }

  /** Some all-digit prefix longer than `n` does not fit. */
  ghost predicate ExceedsAfter(lo: int, hi: int, negative: bool, digits: string, n: nat) {
    exists m :: m > n && Exceeds(lo, hi, negative, digits, m)
  }

  lemma NoDigitNext(lo: int, hi: int, negative: bool, p: string, s: string)
    requires s == "" || !IsDigit(s[0])
    ensures !ExceedsAfter(lo, hi, negative, p + s, |p|)
  {
    forall m | m > |p| && m <= |p + s|
      ensures !AllDigits((p + s)[..m])
    {
      assert (p + s)[..m][|p|] == s[0];
    }
  }

  /** The rest is rejected as an overflow exactly if some longer all-digit prefix does not fit. */
  lemma {:induction false} AccumulateOverflow(lo: int, hi: int, negative: bool, p: string, s: string)
    requires lo <= 0 <= hi && AllDigits(p) && lo <= WithSign(negative, Value(p)) <= hi
    ensures Accumulate(lo, hi, negative, WithSign(negative, Value(p)), s) == Err(Overflow) <==>
            ExceedsAfter(lo, hi, negative, p + s, |p|)
    decreases |s|
  {
    if s == "" || !IsDigit(s[0]) {
      NoDigitNext(lo, hi, negative, p, s);
    } else {
      var q := p + [s[0]];
      AccumulateStep(lo, hi, negative, p, s);
      Regroup(p, s);
      assert (p + s)[..|q|] == q;
      if lo <= WithSign(negative, Value(q)) <= hi {
        AccumulateOverflow(lo, hi, negative, q, s[1..]);
        assert !Exceeds(lo, hi, negative, p + s, |q|);
      } else {
        assert Exceeds(lo, hi, negative, p + s, |q|);
      }
    }
  }

  /** Apart from empty texts and lone signs, parsing accumulates the body of the numeral. */
  lemma ParseBody(t: IntType, s: string)
    ensures s != "" && s != "+" && s != "-" ==>
              ParseInt(t, s) == Accumulate(t.Min(), t.Max(), Negative(t, s), 0, Body(t, s))
    ensures s == "+" || s == "-" ==> Body(t, s) == "" || Body(t, s) == "-"
  {
  }

  /** The checked parser accepts exactly the numerals of the type, and returns what they denote. */
  lemma ParseIntExact(t: IntType, s: string)
    ensures forall x :: ParseInt(t, s) == Ok(x) <==> Denotes(t, s, x)
  {
    var digits := Body(t, s);
    ParseBody(t, s);
    AccumulateOk(t.Min(), t.Max(), Negative(t, s), "", digits);
    assert "" + digits == digits;
  }

  /** What is parsed fits the type. */
  lemma ParseIntInRange(t: IntType, s: string)
    ensures ParseInt(t, s).Ok? ==> t.Contains(ParseInt(t, s).value)
  {
    ParseIntExact(t, s);
  }

  ghost predicate IsNumeral(t: IntType, s: string) {
    exists x :: Denotes(t, s, x)
  }

  /** Texts that are no numeral of the type are rejected, and no others. */
  lemma ParseIntRejects(t: IntType, s: string)
    ensures ParseInt(t, s).Err? <==> !IsNumeral(t, s)
  {
    ParseIntExact(t, s);
    if ParseInt(t, s).Ok? {
      assert Denotes(t, s, ParseInt(t, s).value);
    }
  }

  ghost predicate Overflows(t: IntType, s: string) {
    exists n :: Exceeds(t.Min(), t.Max(), Negative(t, s), Body(t, s), n)
  }

  /** Which error a rejected text gets. */
  lemma ParseIntErrors(t: IntType, s: string)
    ensures ParseInt(t, s) == Err(Empty) <==> s == ""
    ensures ParseInt(t, s) == Err(Overflow) <==> Overflows(t, s)
  {
    var digits, negative := Body(t, s), Negative(t, s);
    ParseBody(t, s);
    assert "" + digits == digits;
    assert digits[..0] == "";
    if s == "" || s == "+" || s == "-" {
      LoneSignFits(t, digits, negative);
    } else {
      AccumulateOk(t.Min(), t.Max(), negative, "", digits);
      AccumulateOverflow(t.Min(), t.Max(), negative, "", digits);
      assert Exceeds(t.Min(), t.Max(), negative, digits, 0) ==> false;
    }
  }

  lemma LoneSignFits(t: IntType, digits: string, negative: bool)
    requires digits == "" || digits == "-"
    ensures forall n :: !Exceeds(t.Min(), t.Max(), negative, digits, n)
  {
  }

  /** Plain digits denote their value, if it fits. */
  lemma ParseDigits(t: IntType, s: string, x: int)
    requires AllDigits(s)
    ensures ParseInt(t, s) == Ok(x) <==> s != "" && x == Value(s) && x <= t.Max()
  {
    ParseIntExact(t, s);
  }

  /** The largest number that fits each type, and the smallest. */
  function Bounds(t: IntType): (int, int) {
    match t
    case U8 => (0, 255)
    case U16 => (0, 65535)
    case U32 => (0, 4294967295)
    case U64 => (0, 18446744073709551615)
    case I16 => (-32768, 32767)
    case I32 => (-2147483648, 2147483647)
  }

  lemma AfterSign(t: IntType, sign: string, s: string, x: int)
    requires AllDigits(s) && s != "" && (sign == "+" || sign == "-")
    ensures ParseInt(t, sign + s) == Ok(x) <==>
            && (sign == "-" ==> t.Signed())
            && x == WithSign(sign == "-", Value(s)) && t.Contains(x)
  {
    var signed := sign + s;
    assert signed[0] == sign[0] && signed[1..] == s;
    ParseIntExact(t, signed);
  }

  /**
   What digits are read as at each type, however many: their value if it fits, with or without a
   plus sign; with a minus sign its negation, at signed types only.
   */
  lemma ParseSigned(t: IntType, s: string, x: int)
    requires AllDigits(s) && s != ""
    ensures ParseInt(t, s) == Ok(x) <==> x == Value(s) <= Bounds(t).1
    ensures ParseInt(t, "+" + s) == Ok(x) <==> x == Value(s) <= Bounds(t).1
    ensures ParseInt(t, "-" + s) == Ok(x) <==> (t == I16 || t == I32) && x == 0 - Value(s) >= Bounds(t).0
  {
    ParseDigits(t, s, x);
    AfterSign(t, "+", s, x);
    AfterSign(t, "-", s, x);
  }

  // ----- Printing -----

  function Digits(n: nat): (s: string)
    ensures s != "" && AllDigits(s)
  {
    if n < 10 then [DigitChar(n)] else Digits(n / 10) + [DigitChar(n % 10)]
  }

  /** `to_string` of an integer. */
  function Print(x: int): string {
    if x < 0 then "-" + Digits(-x) else Digits(x)
  }

  lemma {:induction false} ValueOfDigits(n: nat)
    ensures Value(Digits(n)) == n
  {
    if n >= 10 {
      ValueOfDigits(n / 10);
      ValueSnoc(Digits(n / 10), DigitChar(n % 10));
    } else {
      assert Value([DigitChar(n)][..0]) == 0;
    }
  }

  /** A digit string without leading zeros. */
  ghost predicate Canonical(s: string) {
    s != "" && AllDigits(s) && (s[0] == '0' ==> s == "0")
  }

  lemma {:induction false} CanonicalValue(s: string)
    requires Canonical(s)
    ensures Digits(Value(s)) == s
    ensures |s| > 1 ==> Value(s) >= 10
  {
    var n := |s| - 1;
    var front := s[..n];
    assert s == front + [s[n]];
    if n == 0 {
      assert front == "";
      assert Value(s) == DigitValue(s[0]);
    } else {
      assert Canonical(front);
      CanonicalValue(front);
      assert Value(front) > 0 by {
        if n == 1 { assert front == [s[0]] && front[..0] == ""; }
      }
    }
  }

  lemma {:induction false} DigitsCanonical(n: nat)
    ensures Canonical(Digits(n))
    ensures n > 0 ==> Digits(n)[0] != '0'
  {
    if n >= 10 {
      DigitsCanonical(n / 10);
      assert Digits(n)[0] == Digits(n / 10)[0];
    }
  }

  /** A number is printed as the one digit string of its value without leading zeros, after a minus sign if negative. */
  lemma PrintExact(n: nat, s: string)
    ensures Print(n) == s <==> Canonical(s) && Value(s) == n
    ensures n > 0 ==> Print(0 - n) == "-" + Print(n)
  {
    DigitsCanonical(n);
    ValueOfDigits(n);
    if Canonical(s) {
      CanonicalValue(s);
    }
  }

  /** Every value of every type is read back from its own decimal text. */
  lemma ParsePrint(t: IntType, x: int)
    requires t.Contains(x)
    ensures ParseInt(t, Print(x)) == Ok(x)
  {
    ParseIntExact(t, Print(x));
    ValueOfDigits(if x < 0 then -x else x);
    var s := Print(x);
    if x < 0 {
      assert s[1..] == Digits(-x);
    } else {
      assert IsDigit(s[0]);
    }
    assert Denotes(t, s, x);
  }

  /** Printed numbers neither start nor end in whitespace and contain none. */
  lemma PrintedChars(x: int)
    ensures Print(x) != "" && NoneOf(Print(x), IsWhitespace) && NoneOf(Print(x), IsAsciiWhitespace)
    ensures !IsWhitespace(Print(x)[0]) && !IsWhitespace(Print(x)[|Print(x)| - 1])
  {
  }

  /** ... so whatever whitespace a file adds around a number, trimming and parsing returns it. */
  lemma ParseTrimmed(t: IntType, x: int, lead: string, tail: string)
    requires t.Contains(x) && AllOf(lead, IsWhitespace) && AllOf(tail, IsWhitespace)
    ensures ParseInt(t, Trim(lead + Print(x) + tail)) == Ok(x)
  {
    PrintedChars(x);
    TrimAround(lead, Print(x), tail);
    TrimEndAll(tail);
    assert Print(x) + "" == Print(x);
    ParsePrint(t, x);
  }
}
