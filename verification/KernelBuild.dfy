/** The kernel build string, as in "#1 SMP PREEMPT Thu Jan 1": version, flags and the rest. */
module KernelBuild {
  import opened Wrappers
  import opened Text
  import opened Decimal

  datatype BuildInfo = BuildInfo(version: string, flags: set<string>, extra: string)

  datatype BuildError = BadVersion

  predicate IsSpace(c: char) {
    c == ' '
  }

  /** The first token at or after `i` with a character that is not upper-case, or the number of tokens. */
  function FirstMixed(tokens: seq<string>, upper: char -> bool, i: nat): (k: nat)
    requires i <= |tokens|
    ensures i <= k <= |tokens|
    ensures forall j | i <= j < k :: AllOf(tokens[j], upper)
    ensures k < |tokens| ==> !AllOf(tokens[k], upper)
    decreases |tokens| - i
  {
    if i == |tokens| || !AllOf(tokens[i], upper) then i else FirstMixed(tokens, upper, i + 1)
  }

  function SetOf(tokens: seq<string>): set<string> {
    set i | 0 <= i < |tokens| :: tokens[i]
  }

  /** The first of the remaining tokens with a space after it, then the others, joined. */
  function Remainder(rest: seq<string>): string {
    if rest == [] then "" else rest[0] + " " + Join(rest[1..], ' ')
  }

  /** That is the tokens joined, except that a single one gains a space. */
  lemma RemainderJoins(rest: seq<string>)
    ensures Remainder(rest) == Join(rest, ' ') + if |rest| == 1 then " " else ""
  {
  }

  /** `upper` stands for `char::is_uppercase`. */
  function Parse(s: string, upper: char -> bool): Result<BuildInfo, BuildError> {
    var tokens := Split(s, IsSpace);
    if tokens[0] == "" || tokens[0][0] != '#' then Err(BadVersion)
    else
      var k := FirstMixed(tokens, upper, 1);
      Ok(BuildInfo(tokens[0][1..], SetOf(tokens[1..k]), Remainder(tokens[k..])))
  }

  /** The loop form: the flag loop and the final collection take their tokens from one iterator. */
  method FromStr(s: string, upper: char -> bool) returns (r: Result<BuildInfo, BuildError>)
    ensures r == Parse(s, upper)
  {
    var version, flags: set<string>, extra := "", {}, "";
    var tokens := Split(s, IsSpace);
    var next := 1;  // the iterator: tokens[next..] are still to come
    if tokens[0] != "" && tokens[0][0] == '#' {
      version := version + tokens[0][1..];
    } else {
      return Err(BadVersion);
    }
    ghost var k := FirstMixed(tokens, upper, 1);
    while next < |tokens|
      invariant 1 <= next <= k
      invariant flags == SetOf(tokens[1..next]) && extra == ""
    {
      var token := tokens[next];
      next := next + 1;
      if AllOf(token, upper) {
        assert next <= k;
        assert tokens[1..next] == tokens[1..next - 1] + [token];
        SetOfSnoc(tokens[1..next - 1], token);
        flags := flags + {token};
      } else {
        extra := extra + token;
        extra := extra + " ";
        assert next - 1 == k && extra == tokens[k..][0] + " ";
        assert tokens[next..] == tokens[k..][1..];
        break;
      }
    }
    var remains := tokens[next..];
    extra := extra + Join(remains, ' ');
    assert version == tokens[0][1..];
    assert flags == SetOf(tokens[1..k]);
    assert extra == Remainder(tokens[k..]);
    r := Ok(BuildInfo(version, flags, extra));
  }

  lemma SetOfSnoc(tokens: seq<string>, token: string)
    ensures SetOf(tokens + [token]) == SetOf(tokens) + {token}
  {
    var all := tokens + [token];
    assert all[|tokens|] == token;
    assert forall i | 0 <= i < |tokens| :: all[i] == tokens[i];
    assert forall x | x in SetOf(tokens) :: x in SetOf(all) by {
      forall x | x in SetOf(tokens)
        ensures x in SetOf(all)
      {
        var i :| 0 <= i < |tokens| && tokens[i] == x;
        assert all[i] == x;
      }
    }
  }

  /** `tokens` are the space-separated tokens of `s`, and those from 1 up to `k` are its flags. */
  ghost predicate FlagsUpTo(s: string, upper: char -> bool, tokens: seq<string>, k: nat) {
    && 1 <= k <= |tokens| && Free(tokens, IsSpace) && Join(tokens, ' ') == s
    && (forall i | 1 <= i < k :: AllOf(tokens[i], upper))
    && (k < |tokens| ==> !AllOf(tokens[k], upper))
  }

  /** The first token is '#' and the version, the flags are the leading upper-case tokens, the rest is extra. */
  ghost predicate Describes(info: BuildInfo, tokens: seq<string>, k: nat) {
    && 1 <= k <= |tokens| && tokens[0] == "#" + info.version
    && (forall flag :: flag in info.flags <==> exists i :: 1 <= i < k && tokens[i] == flag)
    && info.extra == Join(tokens[k..], ' ') + if k == |tokens| - 1 then " " else ""
  }

  lemma FlagsUpToExact(s: string, upper: char -> bool, tokens: seq<string>, k: nat)
    ensures FlagsUpTo(s, upper, tokens, k) <==>
            tokens == Split(s, IsSpace) && k == FirstMixed(tokens, upper, 1)
  {
    SplitExact(s, tokens, IsSpace, ' ');
    if FlagsUpTo(s, upper, tokens, k) {
      FirstMixedAt(tokens, upper, 1, k);
    }
  }

  lemma DescribesExact(s: string, upper: char -> bool, info: BuildInfo)
    ensures var tokens := Split(s, IsSpace);
            Parse(s, upper) == Ok(info) <==> Describes(info, tokens, FirstMixed(tokens, upper, 1))
  {
    var tokens := Split(s, IsSpace);
    var k := FirstMixed(tokens, upper, 1);
    SetOfSlice(tokens, k);
    RemainderJoins(tokens[k..]);
    assert info.flags == SetOf(tokens[1..k]) <==>
           forall flag :: flag in info.flags <==> flag in SetOf(tokens[1..k]);
    if tokens[0] != "" && tokens[0][0] == '#' {
      assert tokens[0] == "#" + tokens[0][1..];
      assert ("#" + info.version)[1..] == info.version;
    }
  }

  /** A build string is read as `info` exactly if its tokens up to the first mixed one describe `info`. */
  lemma BuildInfoExact(s: string, upper: char -> bool, info: BuildInfo)
    ensures Parse(s, upper) == Ok(info) <==>
            exists tokens, k :: FlagsUpTo(s, upper, tokens, k) && Describes(info, tokens, k)
  {
    forall tokens, k
      ensures FlagsUpTo(s, upper, tokens, k) <==>
              tokens == Split(s, IsSpace) && k == FirstMixed(tokens, upper, 1)
    {
      FlagsUpToExact(s, upper, tokens, k);
    }
    var tokens := Split(s, IsSpace);
    DescribesExact(s, upper, info);
    assert FlagsUpTo(s, upper, tokens, FirstMixed(tokens, upper, 1));
  }

  /**
   The text of a parsed build string, put together again: the tokens before the first mixed one,
   then the extra field, except that a single remaining token gained a space there.
   */
  lemma BuildInfoReconstruction(s: string, upper: char -> bool, info: BuildInfo, tokens: seq<string>, k: nat)
    requires Parse(s, upper) == Ok(info) && FlagsUpTo(s, upper, tokens, k)
    ensures var head := Join(tokens[..k], ' ');
            && (k == |tokens| ==> info.extra == "" && s == head)
            && (k == |tokens| - 1 ==> s + " " == head + " " + info.extra)
            && (k < |tokens| - 1 ==> s == head + " " + info.extra)
  {
    FlagsUpToExact(s, upper, tokens, k);
    HeadAndExtra(tokens, k);
  }

  lemma JoinAround(head: seq<string>, rest: seq<string>)
    requires head != [] && rest != []
    ensures Join(head + rest, ' ') + (if |rest| == 1 then " " else "") == Join(head, ' ') + " " + Remainder(rest)
  {
    JoinAppend(head, rest, ' ');
    RemainderJoins(rest);
    var pad := if |rest| == 1 then " " else "";
    assert Join(head, ' ') + [' '] + Join(rest, ' ') + pad == Join(head, ' ') + " " + (Join(rest, ' ') + pad);
  }

  lemma HeadAndExtra(tokens: seq<string>, k: nat)
    requires 1 <= k <= |tokens|
    ensures var s, head, extra := Join(tokens, ' '), Join(tokens[..k], ' '), Remainder(tokens[k..]);
            && (k == |tokens| ==> extra == "" && s == head)
            && (k == |tokens| - 1 ==> s + " " == head + " " + extra)
            && (k < |tokens| - 1 ==> s == head + " " + extra)
  {
    if k == |tokens| {
      assert tokens[..k] == tokens;
    } else {
      JoinAround(tokens[..k], tokens[k..]);
      assert tokens == tokens[..k] + tokens[k..];
    }
  }

  lemma SetOfSlice(tokens: seq<string>, k: nat)
    requires 1 <= k <= |tokens|
    ensures forall flag :: flag in SetOf(tokens[1..k]) <==> exists i :: 1 <= i < k && tokens[i] == flag
  {
  }

  /** Parsing fails exactly on texts that do not start with '#'. */
  lemma ParseFails(s: string, upper: char -> bool)
    ensures Parse(s, upper).Err? <==> s == "" || s[0] != '#'
  {
  }

  /** `extra` is the text after the flags, unless exactly one token is left there. */
  lemma ExtraIsTheRest(s: string, upper: char -> bool, info: BuildInfo, tokens: seq<string>, k: nat)
    requires Parse(s, upper) == Ok(info) && FlagsUpTo(s, upper, tokens, k)
    ensures info.extra == Join(tokens[k..], ' ') <==> k != |tokens| - 1
  {
    FlagsUpToExact(s, upper, tokens, k);
    RemainderJoins(tokens[k..]);
  }

  /** A build string written from its parts is read back as those parts. */
  lemma BuildInfoRoundTrip(version: string, flags: seq<string>, rest: seq<string>, upper: char -> bool)
    requires NoneOf(version, IsSpace) && Free(flags, IsSpace) && Free(rest, IsSpace)
    requires forall i | 0 <= i < |flags| :: AllOf(flags[i], upper)
    requires rest != [] ==> !AllOf(rest[0], upper)
    ensures Parse(Join(["#" + version] + flags + rest, ' '), upper) ==
            Ok(BuildInfo(version, SetOf(flags), Join(rest, ' ') + if |rest| == 1 then " " else ""))
  {
    var tokens := ["#" + version] + flags + rest;
    FreeTokens(version, flags, rest);
    SplitJoin(tokens, IsSpace, ' ');
    FlagTokens(version, flags, rest, upper);
    FirstMixedAt(tokens, upper, 1, 1 + |flags|);
    RemainderJoins(rest);
    assert tokens[0][1..] == version;
  }

  /** For example, the single token after the version gains a space here. */
  lemma ExtraGainsSpace(upper: char -> bool)
    requires !upper('x')
    ensures Parse("#1 x", upper) == Ok(BuildInfo("1", {}, "x "))
  {
    var flags: seq<string> := [];
    assert !upper("x"[0]);
    BuildInfoRoundTrip("1", flags, ["x"], upper);
    assert "#" + "1" == "#1" && ["#1"] + flags + ["x"] == ["#1", "x"];
    assert Join(["#1", "x"], ' ') == "#1" + " " + Join(["x"], ' ') == "#1 x";
    assert SetOf(flags) == {};
    assert Join(["x"], ' ') == "x" && "x" + " " == "x ";
    assert "#1" + " " + "x" == "#1 x";
  }

  lemma FreeTokens(version: string, flags: seq<string>, rest: seq<string>)
    requires NoneOf(version, IsSpace) && Free(flags, IsSpace) && Free(rest, IsSpace)
    ensures Free(["#" + version] + flags + rest, IsSpace)
  {
  }

  lemma FlagTokens(version: string, flags: seq<string>, rest: seq<string>, upper: char -> bool)
    requires forall i | 0 <= i < |flags| :: AllOf(flags[i], upper)
    requires rest != [] ==> !AllOf(rest[0], upper)
    ensures var tokens := ["#" + version] + flags + rest;
            && tokens[1..1 + |flags|] == flags
            && (forall j | 1 <= j < 1 + |flags| :: AllOf(tokens[j], upper))
            && (rest != [] ==> !AllOf(tokens[1 + |flags|], upper))
            && tokens[1 + |flags|..] == rest
  {
  }

  lemma FirstMixedAt(tokens: seq<string>, upper: char -> bool, i: nat, k: nat)
    requires i <= k <= |tokens|
    requires forall j | i <= j < k :: AllOf(tokens[j], upper)
    requires k < |tokens| ==> !AllOf(tokens[k], upper)
    ensures FirstMixed(tokens, upper, i) == k
    decreases k - i
  {
  }

  // ----- The version number -----

  function LeadingDigits(s: string): (digits: string)
    ensures AllDigits(digits)
  {
    s[..Span(s, IsDigit)]
  }

  function VersionNumber(version: string): Option<int> {
    var r := ParseInt(U32, LeadingDigits(version));
    if r.Ok? then Some(r.value) else None
  }

  /** The loop form: collect digits up to the first other character, then parse them. */
  method ReadVersionNumber(info: BuildInfo) returns (r: Option<int>)
    ensures r == VersionNumber(info.version)
  {
    var digits := "";
    var i := 0;
    while i < |info.version|
      invariant i <= Span(info.version, IsDigit)
      invariant digits == info.version[..i]
    {
      var c := info.version[i];
      if IsDigit(c) {
        digits := digits + [c];
      } else {
        break;
      }
      i := i + 1;
    }
    var parsed := ParseInt(U32, digits);
    r := if parsed.Ok? then Some(parsed.value) else None;
  }

  lemma {:induction false} SpanStops(a: string, t: string, p: char -> bool)
    requires t == "" || !p(t[0])
    ensures Span(a + t, p) == Span(a, p)
  {
    if a == "" {
      assert a + t == t;
    } else {
      assert (a + t)[1..] == a[1..] + t;
      SpanStops(a[1..], t, p);
    }
  }

  /** The version field is the text between '#' and the first space. */
  lemma VersionField(s: string, upper: char -> bool, info: BuildInfo) returns (tail: string)
    requires Parse(s, upper) == Ok(info)
    ensures s == "#" + info.version + tail && (tail == "" || tail[0] == ' ')
  {
    var tokens := Split(s, IsSpace);
    JoinSplit(s, IsSpace, ' ');
    tail := if |tokens| == 1 then "" else [' '] + Join(tokens[1..], ' ');
    assert tokens[0] == "#" + info.version;
  }

  /**
   Reading a build string and asking for its version number gives the decimal value of the
   digits right after '#', however many, if there is at least one and the value fits 32 bits.
   */
  lemma BuildVersionNumber(
    s: string, upper: char -> bool, info: BuildInfo, digits: string, rest: string, n: int)
    requires Parse(s, upper) == Ok(info)
    requires s == "#" + digits + rest && AllDigits(digits) && (rest == "" || !IsDigit(rest[0]))
    ensures VersionNumber(info.version) == Some(n) <==>
            digits != "" && Value(digits) == n && n < 0x1_0000_0000
  {
    var tail := VersionField(s, upper, info);
    assert s[1..] == info.version + tail;
    assert s[1..] == digits + rest;
    SameDigits(info.version, tail, digits, rest);
    ParseDigits(U32, digits, n);
  }

  lemma SameDigits(version: string, tail: string, digits: string, rest: string)
    requires version + tail == digits + rest && AllDigits(digits)
    requires rest == "" || !IsDigit(rest[0])
    requires tail == "" || !IsDigit(tail[0])
    ensures LeadingDigits(version) == digits
  {
    SpanStops(version, tail, IsDigit);
    SpanOf(digits, rest, IsDigit);
    TakeFirst(version, tail, |digits|);
    TakeFirst(digits, rest, |digits|);
  }

  lemma TakeFirst(a: string, b: string, n: nat)
    requires n <= |a|
    ensures (a + b)[..n] == a[..n]
  {
  }

  /** Every text that starts with '#' has such digits, possibly none. */
  lemma DigitsAfterHash(s: string) returns (digits: string, rest: string)
    requires s != "" && s[0] == '#'
    ensures s == "#" + digits + rest && AllDigits(digits) && (rest == "" || !IsDigit(rest[0]))
  {
    digits := LeadingDigits(s[1..]);
    rest := s[1..][|digits|..];
    assert s[1..] == digits + rest;
  }
}
