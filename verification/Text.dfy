/** Splitting, joining, tokenising and trimming, as the parsers use them. */
module Text {

  /** The length of the longest prefix of `s` whose elements all satisfy `p`. */
  function Span<T>(s: seq<T>, p: T -> bool): (n: nat)
    ensures n <= |s|
    ensures forall i | 0 <= i < n :: p(s[i])
    ensures n < |s| ==> !p(s[n])
  {
    if s == [] || !p(s[0]) then 0 else 1 + Span(s[1..], p)
  }

  predicate AllOf<T>(s: seq<T>, p: T -> bool) {
    forall i | 0 <= i < |s| :: p(s[i])
  }

  predicate NoneOf<T>(s: seq<T>, p: T -> bool) {
    forall i | 0 <= i < |s| :: !p(s[i])
  }

  /** A prefix of satisfying elements followed by a failing one fixes the span. */
  lemma {:induction false} SpanOf<T>(a: seq<T>, t: seq<T>, p: T -> bool)
    requires AllOf(a, p)
    requires t == [] || !p(t[0])
    ensures Span(a + t, p) == |a|
  {
    if a == [] {
      assert a + t == t;
    } else {
      assert (a + t)[1..] == a[1..] + t;
      SpanOf(a[1..], t, p);
    }
  }

  // ----- Splitting -----

  /** All pieces between separators, empty ones included; never an empty list. */
  function Split<T>(s: seq<T>, isSep: T -> bool): (parts: seq<seq<T>>)
    ensures |parts| >= 1
  {
    if s == [] then [[]]
    else
      var rest := Split(s[1..], isSep);
      if isSep(s[0]) then [[]] + rest else [[s[0]] + rest[0]] + rest[1..]
  }

  function Join<T>(parts: seq<seq<T>>, sep: T): seq<T> {
    if parts == [] then []
    else if |parts| == 1 then parts[0]
    else parts[0] + [sep] + Join(parts[1..], sep)
  }

  /** `sep` is the one element that `isSep` accepts. */
  ghost predicate Only<T(!new)>(isSep: T -> bool, sep: T) {
    forall x :: isSep(x) <==> x == sep
  }

  ghost predicate Free<T>(parts: seq<seq<T>>, isSep: T -> bool) {
    forall i | 0 <= i < |parts| :: NoneOf(parts[i], isSep)
  }

  /** The pieces contain no separator, ... */
  lemma {:induction false} SplitIsFree<T>(s: seq<T>, isSep: T -> bool)
    ensures Free(Split(s, isSep), isSep)
  {
    if s != [] {
      SplitIsFree(s[1..], isSep);
    }
  }

  /** ... and joining them restores the text. */
  lemma {:induction false} JoinSplit<T(!new)>(s: seq<T>, isSep: T -> bool, sep: T)
    requires Only(isSep, sep)
    ensures Join(Split(s, isSep), sep) == s
  {
    if s != [] {
      var rest := Split(s[1..], isSep);
      JoinSplit(s[1..], isSep, sep);
      if isSep(s[0]) {
        JoinNewPiece(rest, sep);
      } else {
        JoinLongerPiece(s[0], rest, sep);
      }
      assert s == [s[0]] + s[1..];
    }
  }

  lemma JoinNewPiece<T>(rest: seq<seq<T>>, sep: T)
    requires rest != []
    ensures Join([[]] + rest, sep) == [sep] + Join(rest, sep)
  {
  }

  lemma JoinLongerPiece<T>(x: T, rest: seq<seq<T>>, sep: T)
    requires rest != []
    ensures Join([[x] + rest[0]] + rest[1..], sep) == [x] + Join(rest, sep)
  {
    var parts := [[x] + rest[0]] + rest[1..];
    assert parts[1..] == rest[1..];
    if |rest| > 1 {
      assert Join(parts, sep) == [x] + (rest[0] + [sep] + Join(rest[1..], sep));
    }
  }

  /** A separator-free prefix extends the first piece only. */
  lemma {:induction false} SplitPrefix<T>(a: seq<T>, t: seq<T>, isSep: T -> bool)
    requires NoneOf(a, isSep)
    ensures Split(a + t, isSep) == [a + Split(t, isSep)[0]] + Split(t, isSep)[1..]
  {
    if a == [] {
      assert a + t == t;
      assert a + Split(t, isSep)[0] == Split(t, isSep)[0];
    } else {
      assert (a + t)[1..] == a[1..] + t;
      SplitPrefix(a[1..], t, isSep);
      assert [a[0]] + (a[1..] + Split(t, isSep)[0]) == a + Split(t, isSep)[0];
    }
  }

  lemma SplitCons<T>(a: seq<T>, sep: T, t: seq<T>, isSep: T -> bool)
    requires NoneOf(a, isSep) && isSep(sep)
    ensures Split(a + [sep] + t, isSep) == [a] + Split(t, isSep)
  {
    assert a + [sep] + t == a + ([sep] + t);
    assert ([sep] + t)[1..] == t;
    SplitPrefix(a, [sep] + t, isSep);
    assert ([[]] + Split(t, isSep))[1..] == Split(t, isSep);
    assert a + [] == a;
  }

  lemma SplitFree<T>(a: seq<T>, isSep: T -> bool)
    requires NoneOf(a, isSep)
    ensures Split(a, isSep) == [a]
  {
    SplitPrefix(a, [], isSep);
    assert a + [] == a;
  }

  /** Splitting inverts joining, for any non-empty list of separator-free pieces. */
  lemma {:induction false} SplitJoin<T>(parts: seq<seq<T>>, isSep: T -> bool, sep: T)
    requires parts != [] && Free(parts, isSep) && isSep(sep)
    ensures Split(Join(parts, sep), isSep) == parts
  {
    if |parts| == 1 {
      SplitFree(parts[0], isSep);
    } else {
      SplitJoin(parts[1..], isSep, sep);
      SplitCons(parts[0], sep, Join(parts[1..], sep), isSep);
    }
  }

  /** The pieces of a text are the one non-empty list of separator-free pieces that joins to it. */
  lemma SplitExact<T(!new)>(s: seq<T>, parts: seq<seq<T>>, isSep: T -> bool, sep: T)
    requires Only(isSep, sep)
    ensures Split(s, isSep) == parts <==> parts != [] && Free(parts, isSep) && Join(parts, sep) == s
  {
    SplitIsFree(s, isSep);
    JoinSplit(s, isSep, sep);
    if parts != [] && Free(parts, isSep) {
      SplitJoin(parts, isSep, sep);
    }
  }

  lemma {:induction false} JoinAppend<T>(a: seq<seq<T>>, b: seq<seq<T>>, sep: T)
    requires a != [] && b != []
    ensures Join(a + b, sep) == Join(a, sep) + [sep] + Join(b, sep)
  {
    if |a| == 1 {
      assert (a + b)[1..] == b;
    } else {
      assert (a + b)[1..] == a[1..] + b;
      JoinAppend(a[1..], b, sep);
    }
  }

  // ----- Tokens: the pieces that are not empty -----

  function NonEmpty<T>(parts: seq<seq<T>>): seq<seq<T>> {
    if parts == [] then []
    else if |parts[0]| == 0 then NonEmpty(parts[1..])
    else [parts[0]] + NonEmpty(parts[1..])
  }

  /** Splitting with the empty pieces filtered out, as `split_whitespace` does. */
  function Tokens<T>(s: seq<T>, isSep: T -> bool): seq<seq<T>> {
    NonEmpty(Split(s, isSep))
  }

  lemma NoTokens<T>(isSep: T -> bool)
    ensures Tokens([], isSep) == []
  {
    assert NonEmpty<T>([[]]) == NonEmpty<T>([[]][1..]);
  }

  /** `gaps` and `tokens` interleaved: a gap before each token and one after the last. */
  function Render<T>(gaps: seq<seq<T>>, tokens: seq<seq<T>>): seq<T>
    requires |gaps| == |tokens| + 1
  {
    if tokens == [] then gaps[0] else gaps[0] + tokens[0] + Render(gaps[1..], tokens[1..])
  }

  /** Gaps hold separators only and are non-empty between tokens; tokens are non-empty and separator-free. */
  ghost predicate IsLayout<T>(gaps: seq<seq<T>>, tokens: seq<seq<T>>, isSep: T -> bool) {
    && |gaps| == |tokens| + 1
    && (forall i | 0 <= i < |gaps| :: AllOf(gaps[i], isSep))
    && (forall i | 0 < i < |tokens| :: gaps[i] != [])
    && (forall i | 0 <= i < |tokens| :: tokens[i] != [] && NoneOf(tokens[i], isSep))
  }

  lemma {:induction false} TokensSkip<T>(gap: seq<T>, t: seq<T>, isSep: T -> bool)
    requires AllOf(gap, isSep)
    ensures Tokens(gap + t, isSep) == Tokens(t, isSep)
  {
    if gap == [] {
      assert gap + t == t;
    } else {
      assert (gap + t)[1..] == gap[1..] + t;
      TokensSkip(gap[1..], t, isSep);
      var rest := Split(gap[1..] + t, isSep);
      assert ([[]] + rest)[1..] == rest;
    }
  }

  lemma TokensCons<T>(tok: seq<T>, t: seq<T>, isSep: T -> bool)
    requires tok != [] && NoneOf(tok, isSep)
    requires t == [] || isSep(t[0])
    ensures Tokens(tok + t, isSep) == [tok] + Tokens(t, isSep)
  {
    if t == [] {
      assert tok + t == tok;
      SplitFree(tok, isSep);
    } else {
      assert tok + t == tok + [t[0]] + t[1..];
      SplitCons(tok, t[0], t[1..], isSep);
      assert ([tok] + Split(t[1..], isSep))[1..] == Split(t[1..], isSep);
      assert ([[]] + Split(t[1..], isSep))[1..] == Split(t[1..], isSep);
    }
  }

  /** Whatever the gaps, a layout of some tokens is read back as exactly those tokens. */
  lemma {:induction false} TokensOfLayout<T>(gaps: seq<seq<T>>, tokens: seq<seq<T>>, isSep: T -> bool)
    requires IsLayout(gaps, tokens, isSep)
    ensures Tokens(Render(gaps, tokens), isSep) == tokens
  {
    if tokens == [] {
      NoTokens(isSep);
      TokensSkip(gaps[0], [], isSep);
      assert gaps[0] + [] == gaps[0];
    } else {
      var rest := Render(gaps[1..], tokens[1..]);
      TokensOfLayout(gaps[1..], tokens[1..], isSep);
      assert rest == [] || isSep(rest[0]) by {
        assert AllOf(gaps[1], isSep);
        if |tokens| > 1 {
          assert rest[0] == gaps[1][0];
        }
      }
      assert gaps[0] + tokens[0] + rest == gaps[0] + (tokens[0] + rest);
      TokensSkip(gaps[0], tokens[0] + rest, isSep);
      TokensCons(tokens[0], rest, isSep);
    }
  }

  /** `gaps` and `tokens` lay out `s`. */
  ghost predicate LaysOut<T>(s: seq<T>, gaps: seq<seq<T>>, tokens: seq<seq<T>>, isSep: T -> bool) {
    IsLayout(gaps, tokens, isSep) && Render(gaps, tokens) == s
  }

  /** One element in front of a laid-out text widens the first gap, ... */
  lemma WidenGap<T>(c: T, s: seq<T>, gaps: seq<seq<T>>, tokens: seq<seq<T>>, isSep: T -> bool)
    requires isSep(c) && LaysOut(s, gaps, tokens, isSep)
    ensures LaysOut([c] + s, [[c] + gaps[0]] + gaps[1..], tokens, isSep)
  {
  }

  /** ... or lengthens the first token, ... */
  lemma WidenToken<T>(c: T, s: seq<T>, gaps: seq<seq<T>>, tokens: seq<seq<T>>, isSep: T -> bool)
    requires !isSep(c) && LaysOut(s, gaps, tokens, isSep)
    requires tokens != [] && gaps[0] == []
    ensures LaysOut([c] + s, gaps, [[c] + tokens[0]] + tokens[1..], isSep)
  {
  }

  /** ... or starts a new one. */
  lemma NewToken<T>(c: T, s: seq<T>, gaps: seq<seq<T>>, tokens: seq<seq<T>>, isSep: T -> bool)
    requires !isSep(c) && LaysOut(s, gaps, tokens, isSep)
    requires tokens != [] ==> gaps[0] != []
    ensures LaysOut([c] + s, [[]] + gaps, [[c]] + tokens, isSep)
  {
  }

  /** How the tokens of a text grow from those of its tail. */
  lemma TokensStep<T>(s: seq<T>, isSep: T -> bool)
    requires s != []
    ensures isSep(s[0]) ==> Tokens(s, isSep) == Tokens(s[1..], isSep)
    ensures !isSep(s[0]) && |s| > 1 && !isSep(s[1]) ==>
              && Tokens(s[1..], isSep) != []
              && Tokens(s, isSep) == [[s[0]] + Tokens(s[1..], isSep)[0]] + Tokens(s[1..], isSep)[1..]
    ensures !isSep(s[0]) && (|s| == 1 || isSep(s[1])) ==> Tokens(s, isSep) == [[s[0]]] + Tokens(s[1..], isSep)
  {
    var parts := Split(s[1..], isSep);
    if isSep(s[0]) {
      assert ([[]] + parts)[1..] == parts;
    } else {
      assert ([[s[0]] + parts[0]] + parts[1..])[1..] == parts[1..];
      if |s| > 1 && !isSep(s[1]) {
        assert parts[0] != [];
      } else {
        assert parts[0] == [];
        assert [s[0]] + parts[0] == [s[0]];
        assert NonEmpty(parts) == NonEmpty(parts[1..]);
      }
    }
  }

  /** Every text is a layout of its own tokens. */
  lemma {:induction false} LayoutOfTokens<T>(s: seq<T>, isSep: T -> bool) returns (gaps: seq<seq<T>>)
    ensures LaysOut(s, gaps, Tokens(s, isSep), isSep)
    ensures s != [] ==> (gaps[0] == [] <==> !isSep(s[0]))
  {
    if s == [] {
      NoTokens(isSep);
      gaps := [[]];
    } else {
      var c, t, tokens := s[0], s[1..], Tokens(s[1..], isSep);
      gaps := LayoutOfTokens(t, isSep);
      assert s == [c] + t;
      TokensStep(s, isSep);
      if isSep(c) {
        WidenGap(c, t, gaps, tokens, isSep);
        gaps := [[c] + gaps[0]] + gaps[1..];
      } else if t != [] && !isSep(t[0]) {
        WidenToken(c, t, gaps, tokens, isSep);
      } else {
        NewToken(c, t, gaps, tokens, isSep);
        gaps := [[]] + gaps;
      }
    }
  }

  /**
   The tokens of a text are the only token list it is a layout of: `Tokens(s) == tokens` holds
   exactly when `s` is `tokens` with separator runs around them, non-empty in between.
   */
  lemma TokensExact<T(!new)>(s: seq<T>, tokens: seq<seq<T>>, isSep: T -> bool)
    ensures Tokens(s, isSep) == tokens <==> exists gaps :: LaysOut(s, gaps, tokens, isSep)
  {
    var _ := LayoutOfTokens(s, isSep);
    forall gaps | LaysOut(s, gaps, tokens, isSep)
      ensures Tokens(s, isSep) == tokens
    {
      TokensOfLayout(gaps, tokens, isSep);
    }
  }

  // ----- Whitespace -----

  /** The Unicode property White_Space, which `char::is_whitespace` tests. */
  predicate IsWhitespace(c: char) {
    || '\t' <= c <= '\r'
    || c == ' ' || c == '\U{85}' || c == '\U{A0}' || c == '\U{1680}'
    || '\U{2000}' <= c <= '\U{200A}'
    || c == '\U{2028}' || c == '\U{2029}' || c == '\U{202F}' || c == '\U{205F}' || c == '\U{3000}'
  }

  /** What `split_ascii_whitespace` separates on: no vertical tab, nothing outside ASCII. */
  predicate IsAsciiWhitespace(c: char) {
    c == '\t' || c == '\n' || c == '\U{0C}' || c == '\r' || c == ' '
  }

  /** The characters with the property White_Space, one by one. */
  lemma WhitespaceExact(c: char)
    ensures IsWhitespace(c) <==>
            || c in "\t\n\U{0B}\U{0C}\r \U{85}\U{A0}\U{1680}\U{2000}\U{2001}\U{2002}\U{2003}\U{2004}"
            || c in "\U{2005}\U{2006}\U{2007}\U{2008}\U{2009}\U{200A}\U{2028}\U{2029}\U{202F}\U{205F}\U{3000}"
    ensures IsAsciiWhitespace(c) <==> c in "\t\n\U{0C}\r "
  {
    var a := "\t\n\U{0B}\U{0C}\r \U{85}\U{A0}\U{1680}\U{2000}\U{2001}\U{2002}\U{2003}\U{2004}";
    var b := "\U{2005}\U{2006}\U{2007}\U{2008}\U{2009}\U{200A}\U{2028}\U{2029}\U{202F}\U{205F}\U{3000}";
    if '\t' <= c <= '\r' {
      assert a[c as int - 9] == c;
    }
    if '\U{2000}' <= c <= '\U{200A}' {
      assert c <= '\U{2004}' ==> a[c as int - 0x2000 + 9] == c;
      assert c > '\U{2004}' ==> b[c as int - 0x2005] == c;
    }
  }

  function TrimEnd(s: string): (r: string)
    ensures r <= s
    ensures r != [] ==> !IsWhitespace(r[|r| - 1])
    ensures forall i | |r| <= i < |s| :: IsWhitespace(s[i])
  {
    if s != [] && IsWhitespace(s[|s| - 1]) then TrimEnd(s[..|s| - 1]) else s
  }

  function Trim(s: string): string {
    TrimEnd(s[Span(s, IsWhitespace)..])
  }

  /**
   What trimming leaves: leading whitespace goes, a core that starts and ends in non-whitespace
   stays, and of what follows the core only trailing whitespace goes.
   */
  lemma TrimAround(lead: string, core: string, tail: string)
    requires AllOf(lead, IsWhitespace)
    requires core != [] && !IsWhitespace(core[0]) && !IsWhitespace(core[|core| - 1])
    ensures Trim(lead + core + tail) == core + TrimEnd(tail)
  {
    var s := lead + core + tail;
    assert s == lead + (core + tail);
    SpanOf(lead, core + tail, IsWhitespace);
    assert s[|lead|..] == core + tail;
    TrimEndAppend(core, tail);
  }

  lemma {:induction false} TrimEndAppend(core: string, tail: string)
    requires core != [] && !IsWhitespace(core[|core| - 1])
    ensures TrimEnd(core + tail) == core + TrimEnd(tail)
  {
    if tail == [] {
      assert core + tail == core;
    } else {
      assert (core + tail)[..|core + tail| - 1] == core + tail[..|tail| - 1];
      if IsWhitespace(tail[|tail| - 1]) {
        TrimEndAppend(core, tail[..|tail| - 1]);
      }
    }
  }

  lemma TrimEndAll(tail: string)
    requires AllOf(tail, IsWhitespace)
    ensures TrimEnd(tail) == []
  {
  }

  /** `r` is `s` without whitespace around it: it starts and ends in other characters, or is empty. */
  ghost predicate Trims(s: string, lead: string, r: string, tail: string) {
    && s == lead + r + tail && AllOf(lead, IsWhitespace) && AllOf(tail, IsWhitespace)
    && (r != "" ==> !IsWhitespace(r[0]) && !IsWhitespace(r[|r| - 1]))
  }

  lemma TrimBlank(s: string)
    requires AllOf(s, IsWhitespace)
    ensures Trim(s) == ""
  {
    TrimEndAll(s[Span(s, IsWhitespace)..]);
  }

  lemma SpanRest(s: string) returns (lead: string, rest: string)
    ensures s == lead + rest && AllOf(lead, IsWhitespace) && (rest == "" || !IsWhitespace(rest[0]))
    ensures Trim(s) == TrimEnd(rest)
  {
    var n := Span(s, IsWhitespace);
    lead, rest := s[..n], s[n..];
  }

  lemma TrimEndRest(s: string) returns (tail: string)
    ensures s == TrimEnd(s) + tail && AllOf(tail, IsWhitespace)
  {
    tail := s[|TrimEnd(s)|..];
  }

  lemma TrimLayout(s: string) returns (lead: string, tail: string)
    ensures Trims(s, lead, Trim(s), tail)
  {
    var rest;
    lead, rest := SpanRest(s);
    tail := TrimEndRest(rest);
    var core := TrimEnd(rest);
    assert lead + (core + tail) == lead + core + tail;
    assert core != "" ==> core[0] == rest[0];
  }

  lemma TrimOfLayout(s: string, lead: string, r: string, tail: string)
    requires Trims(s, lead, r, tail)
    ensures Trim(s) == r
  {
    if r == "" {
      TrimBlank(s);
    } else {
      TrimAround(lead, r, tail);
      TrimEndAll(tail);
      assert r + "" == r;
    }
  }

  /** Trimming gives the one text that is left when all whitespace around `s` goes. */
  lemma TrimExact(s: string, r: string)
    ensures Trim(s) == r <==> exists lead, tail :: Trims(s, lead, r, tail)
  {
    var _, _ := TrimLayout(s);
    forall lead, tail | Trims(s, lead, r, tail)
      ensures Trim(s) == r
    {
      TrimOfLayout(s, lead, r, tail);
    }
  }
}
