/** Reading and writing values as text files, over an in-memory file system. */
module Helpers {
  import opened Wrappers
  import opened Text
  import opened Decimal

  datatype IoError = OpenFailed | TransferFailed

  datatype ValueError<+E> = Io(io: IoError) | Parse(parse: E)

  /** How the operating system treats one call: it works, or it fails to open, or after some characters. */
  datatype Fault = NoFault | AtOpen | AtTransfer(done: nat)

  /** What parsing a file's contents as a value gives: trim, then parse. */
  function Decode<T, E>(contents: Result<string, IoError>, parse: string -> Result<T, E>): Result<T, ValueError<E>> {
    match contents
    case Err(error) => Err(Io(error))
    case Ok(text) =>
      match parse(Trim(text))
      case Err(error) => Err(Parse(error))
      case Ok(value) => Ok(value)
  }

  /** What a read returns. */
  function Contents(files: map<string, string>, path: string, fault: Fault): Result<string, IoError> {
    if fault.AtOpen? || path !in files then Err(OpenFailed)
    else if fault.AtTransfer? then Err(TransferFailed)
    else Ok(files[path])
  }

  /**
   What a write leaves and returns. The file is created or truncated when it is opened, so a write
   that fails leaves a prefix of the data, and nothing of the earlier contents.
   */
  function Written(files: map<string, string>, path: string, data: string, fault: Fault)
    : (map<string, string>, Result<(), IoError>)
  {
    match fault
    case NoFault => (files[path := data], Ok(()))
    case AtOpen => (files, Err(OpenFailed))
    case AtTransfer(done) => (files[path := data[..Min(done, |data|)]], Err(TransferFailed))
  }

  function IntParser(t: IntType): string -> Result<int, IntError> {
    (s: string) => ParseInt(t, s)
  }

  function Min(a: nat, b: nat): nat {
    if a < b then a else b
  }

  /** The files under one procfs root. */
  class ProcfsIo {
    var files: map<string, string>

    constructor ()
      ensures files == map[]
    {
      files := map[];
    }

    method ReadFile(path: string, fault: Fault) returns (r: Result<string, IoError>)
      ensures r == Contents(files, path, fault)
    {
      if fault.AtOpen? || path !in files {
        return Err(OpenFailed);
      }
      if fault.AtTransfer? {
        return Err(TransferFailed);
      }
      r := Ok(files[path]);
    }

    method WriteFile(path: string, data: string, fault: Fault) returns (r: Result<(), IoError>)
      modifies this
      ensures (files, r) == Written(old(files), path, data, fault)
    {
      if fault.AtOpen? {
        return Err(OpenFailed);
      }
      files := files[path := ""];
      var done := if fault.AtTransfer? then data[..Min(fault.done, |data|)] else data;
      assert files[path] + done == done;
      files := files[path := files[path] + done];
      assert files == old(files)[path := done];
      r := if fault.AtTransfer? then Err(TransferFailed) else Ok(());
    }

    method ReadValue<T, E>(path: string, parse: string -> Result<T, E>, fault: Fault)
      returns (r: Result<T, ValueError<E>>)
      ensures r == Decode(Contents(files, path, fault), parse)
    {
      var contents := ReadFile(path, fault);
      if contents.Err? {
        return Err(Io(contents.error));
      }
      var parsed := parse(Trim(contents.value));
      r := if parsed.Ok? then Ok(parsed.value) else Err(Parse(parsed.error));
    }

    method WriteValue(path: string, x: int, fault: Fault) returns (r: Result<(), IoError>)
      modifies this
      ensures (files, r) == Written(old(files), path, Print(x), fault)
    {
      r := WriteFile(path, Print(x), fault);
    }

    /** Whatever the file held before, a value that was written is the value that is read back. */
    method WriteThenRead(t: IntType, path: string, x: int) returns (r: Result<int, ValueError<IntError>>)
      requires t.Contains(x)
      modifies this
      ensures r == Ok(x) && files == old(files)[path := Print(x)]
    {
      var _ := WriteValue(path, x, NoFault);
      DecodeExactly(t, x);
      r := ReadValue(path, IntParser(t), NoFault);
    }
  }

  /**
   A read succeeds exactly if the file is there, nothing fails and the trimmed text parses;
   otherwise the error names the step that failed.
   */
  lemma ReadExact<T(!new), E(!new)>(
    files: map<string, string>, path: string, fault: Fault, parse: string -> Result<T, E>)
    ensures var r := Decode(Contents(files, path, fault), parse);
            && (forall v :: r == Ok(v) <==>
                  fault == NoFault && path in files && parse(Trim(files[path])) == Ok(v))
            && (forall error :: r == Err(Parse(error)) <==>
                  fault == NoFault && path in files && parse(Trim(files[path])) == Err(error))
            && (r == Err(Io(OpenFailed)) <==> fault == AtOpen || path !in files)
            && (r == Err(Io(TransferFailed)) <==> fault.AtTransfer? && path in files)
  {
  }

  /**
   A write succeeds exactly if nothing fails, and then the file holds the data. If it cannot be
   opened, no file changes; if it fails later, the file holds the characters written so far. Other
   files never change.
   */
  lemma WrittenExact(files: map<string, string>, path: string, data: string, fault: Fault)
    ensures var (after, r) := Written(files, path, data, fault);
            && (r == Ok(()) <==> fault == NoFault)
            && (r == Err(OpenFailed) <==> fault == AtOpen)
            && (fault == NoFault ==> path in after && after[path] == data)
            && (fault == AtOpen ==> after == files)
            && (fault.AtTransfer? ==>
                  && path in after && after[path] <= data
                  && |after[path]| == if fault.done < |data| then fault.done else |data|)
            && (forall other | other != path :: other in after <==> other in files)
            && (forall other | other != path && other in files :: after[other] == files[other])
  {
  }

  /** The number channel: a printed value, with any whitespace a file adds around it, decodes to itself. */
  lemma DecodePrinted(t: IntType, x: int, lead: string, tail: string)
    requires t.Contains(x) && AllOf(lead, IsWhitespace) && AllOf(tail, IsWhitespace)
    ensures Decode(Ok(lead + Print(x) + tail), IntParser(t)) == Ok(x)
  {
    ParseTrimmed(t, x, lead, tail);
  }

  /** A value file as the kernel prints it: the number and a newline. */
  lemma DecodeLine(t: IntType, x: int)
    requires t.Contains(x)
    ensures Decode(Ok(Print(x) + "\n"), IntParser(t)) == Ok(x)
  {
    DecodePrinted(t, x, "", "\n");
    assert "" + Print(x) + "\n" == Print(x) + "\n";
  }

  /** `x` without its last `k` decimal digits. */
  function Shortened(x: nat, k: nat): nat {
    if k == 0 then x else Shortened(x / 10, k - 1)
  }

  lemma {:induction false} DigitsPrefix(x: nat, n: nat)
    requires 0 < n <= |Digits(x)|
    ensures Digits(x)[..n] == Digits(Shortened(x, |Digits(x)| - n))
    ensures Shortened(x, |Digits(x)| - n) <= x
    decreases |Digits(x)| - n
  {
    if n == |Digits(x)| {
      assert Digits(x)[..n] == Digits(x);
    } else {
      assert Digits(x)[..n] == Digits(x / 10)[..n];
      DigitsPrefix(x / 10, n);
    }
  }

  lemma DecodeEmpty(t: IntType)
    ensures Decode(Ok(""), IntParser(t)) == Err(Parse(Empty))
  {
    TrimBlank("");
  }

  /**
   Writing is not atomic: after a write of an unsigned number that failed with `n` characters
   done, reading gives the number without its missing last digits, and an error only if the
   truncated file stayed empty.
   */
  lemma TornWrite(t: IntType, x: nat, n: nat)
    requires t.Contains(x) && n <= |Print(x)|
    ensures Decode(Ok(Print(x)[..n]), IntParser(t)) ==
            if n == 0 then Err(Parse(Empty)) else Ok(Shortened(x, |Print(x)| - n))
  {
    if n == 0 {
      assert Print(x)[..0] == "";
      DecodeEmpty(t);
    } else {
      DigitsPrefix(x, n);
      var short := Shortened(x, |Digits(x)| - n);
      assert Print(x)[..n] == Print(short);
      DecodeExactly(t, short);
    }
  }

  lemma DecodeExactly(t: IntType, x: int)
    requires t.Contains(x)
    ensures Decode(Ok(Print(x)), IntParser(t)) == Ok(x)
  {
    DecodePrinted(t, x, "", "");
    assert "" + Print(x) + "" == Print(x);
  }
}
