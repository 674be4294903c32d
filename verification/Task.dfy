/** The list of a task's children. */
module Task {
  import opened Wrappers
  import opened Text
  import opened Decimal

  datatype ChildrenError = BadChild

  /** Parse all tokens, or fail on the first that is no 32-bit number. */
  function ParseAll(tokens: seq<string>): Result<seq<int>, ChildrenError> {
    if tokens == [] then Ok([])
    else
      match ParseInt(U32, tokens[0])
      case Err(_) => Err(BadChild)
      case Ok(pid) =>
        match ParseAll(tokens[1..])
        case Err(error) => Err(error)
        case Ok(pids) => Ok([pid] + pids)
  }

  function Children(buf: string): Result<seq<int>, ChildrenError> {
    ParseAll(Tokens(buf, IsWhitespace))
  }

  /** The tokens are 32-bit numerals of the numbers, in order. */
  ghost predicate AllDenote(tokens: seq<string>, pids: seq<int>) {
    |tokens| == |pids| && forall i | 0 <= i < |pids| :: Denotes(U32, tokens[i], pids[i])
  }

  lemma {:induction false} ParseAllExact(tokens: seq<string>, pids: seq<int>)
    ensures ParseAll(tokens) == Ok(pids) <==> AllDenote(tokens, pids)
  {
    if tokens != [] {
      ParseIntExact(U32, tokens[0]);
      if pids != [] {
        ParseAllExact(tokens[1..], pids[1..]);
        assert pids == [pids[0]] + pids[1..];
        assert AllDenote(tokens, pids) <==>
            Denotes(U32, tokens[0], pids[0]) && AllDenote(tokens[1..], pids[1..]);
      }
    }
  }

  /** `buf` is laid out as `tokens`, with gaps of whitespace. */
  ghost predicate HasTokens(buf: string, tokens: seq<string>) {
    exists gaps :: LaysOut(buf, gaps, tokens, IsWhitespace)
  }

  /**
   The list is read exactly from the texts laid out as 32-bit numerals with whitespace around
   them, and then holds their values in order.
   */
  lemma ChildrenExact(buf: string, pids: seq<int>)
    ensures Children(buf) == Ok(pids) <==> exists tokens :: HasTokens(buf, tokens) && AllDenote(tokens, pids)
  {
    forall tokens
      ensures HasTokens(buf, tokens) <==> tokens == Tokens(buf, IsWhitespace)
    {
      TokensExact(buf, tokens, IsWhitespace);
    }
    ParseAllExact(Tokens(buf, IsWhitespace), pids);
  }

  lemma {:induction false} ParseAllFails(tokens: seq<string>, i: nat)
    requires i < |tokens| && !IsNumeral(U32, tokens[i])
    ensures ParseAll(tokens) == Err(BadChild)
  {
    if i == 0 {
      ParseIntRejects(U32, tokens[0]);
    } else {
      ParseAllFails(tokens[1..], i - 1);
    }
  }

  /** A single token that is no 32-bit numeral, anywhere in the text, fails the whole list. */
  lemma OneBadToken(buf: string, tokens: seq<string>, i: nat)
    requires HasTokens(buf, tokens) && i < |tokens| && !IsNumeral(U32, tokens[i])
    ensures Children(buf) == Err(BadChild)
  {
    TokensExact(buf, tokens, IsWhitespace);
    ParseAllFails(tokens, i);
  }

  function PrintAll(pids: seq<int>): (tokens: seq<string>)
    ensures |tokens| == |pids|
    ensures forall i | 0 <= i < |pids| :: tokens[i] == Print(pids[i])
  {
    if pids == [] then [] else [Print(pids[0])] + PrintAll(pids[1..])
  }

  /** Any list of 32-bit numbers, printed with any whitespace around and between them, is read back. */
  lemma ChildrenRoundTrip(pids: seq<int>, gaps: seq<string>)
    requires forall i | 0 <= i < |pids| :: U32.Contains(pids[i])
    requires |gaps| == |pids| + 1 && forall i | 0 <= i < |gaps| :: AllOf(gaps[i], IsWhitespace)
    requires forall i | 0 < i < |pids| :: gaps[i] != ""
    ensures Children(Render(gaps, PrintAll(pids))) == Ok(pids)
  {
    var tokens := PrintAll(pids);
    forall i | 0 <= i < |pids|
      ensures tokens[i] != "" && NoneOf(tokens[i], IsWhitespace) && Denotes(U32, tokens[i], pids[i])
    {
      PrintedChars(pids[i]);
      ParsePrint(U32, pids[i]);
      ParseIntExact(U32, tokens[i]);
    }
    TokensOfLayout(gaps, tokens, IsWhitespace);
    ParseAllExact(tokens, pids);
  }
}
