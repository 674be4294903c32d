/** The thread limit, guarded by the cached kernel version, and the SysRq setting. */
module SysKernel {
  import opened Wrappers
  import opened Bytes
  import opened Text
  import opened Decimal
  import opened Helpers
  import opened KernelVersion
  import opened KernelParameters
  import opened VersionCache

  const OSRELEASE := "sys/kernel/osrelease"
  const THREADS_FILE := "sys/kernel/threads-max"
  const SYSRQ_FILE := "sys/kernel/sysrq"

  const THREADS_MIN := 20
  const THREADS_MAX := 0x3fff_ffff

  datatype SetError = OutsideRange | WriteFailed(io: IoError)

  function VersionParser(): string -> Result<Version, VersionError> {
    (s: string) => KernelVersion.FromStr(s)
  }

  function SysRqParser(): string -> Result<SysRq, SysRqError> {
    (s: string) => SysRqFromStr(s)
  }

  /** The kernel version under a root, or `None` if it cannot be read or parsed. */
  function Release(files: map<string, string>, fault: Fault): Option<Version> {
    var r := Decode(Contents(files, OSRELEASE, fault), VersionParser());
    if r.Ok? then Some(r.value) else None
  }

  predicate WithinRange(limit: Word) {
    THREADS_MIN <= limit <= THREADS_MAX
  }

  /** The field-wise version test of the limit's guard. */
  predicate GuardApplies(v: Version) {
    v.major >= 4 && v.minor >= 1
  }

  /** The guard rejects a limit only if the version is known. */
  predicate Rejects(version: Option<Version>, limit: Word) {
    version.Some? && GuardApplies(version.value) && !WithinRange(limit)
  }

  /** The outcome of writing a limit that is not rejected. */
  function LimitWritten(files: map<string, string>, limit: Word, fault: Fault)
    : (map<string, string>, Result<(), SetError>)
  {
    var (after, r) := Written(files, THREADS_FILE, Print(limit), fault);
    (after, match r case Ok(_) => Ok(()) case Err(error) => Err(WriteFailed(error)))
  }

  /** A limit that is not rejected is reported as set exactly if it was written to `threads-max`. */
  lemma LimitWrittenExact(files: map<string, string>, limit: Word, fault: Fault)
    ensures var (after, r) := LimitWritten(files, limit, fault);
            && (r == Ok(()) <==> fault == NoFault)
            && (r == Ok(()) ==> after == files["sys/kernel/threads-max" := Print(limit)])
            && (r == Err(WriteFailed(OpenFailed)) <==> fault == AtOpen)
            && (fault == AtOpen ==> after == files)
            && (r == Err(WriteFailed(TransferFailed)) <==> fault.AtTransfer?)
            && (after - {"sys/kernel/threads-max"} == files - {"sys/kernel/threads-max"})
  {
    WrittenExact(files, "sys/kernel/threads-max", Print(limit), fault);
  }

  /** One task's use of a root and of the process-wide cache word. */
  class Kernel {
    const endian: Endian
    const io: ProcfsIo
    var kernel: Word

    constructor (endian: Endian, io: ProcfsIo)
      ensures this.endian == endian && this.io == io && kernel == SENTINEL
    {
      this.endian := endian;
      this.io := io;
      kernel := SENTINEL;
    }

    method Current(fault: Fault) returns (r: Result<Version, ValueError<VersionError>>)
      ensures r == Decode(Contents(io.files, OSRELEASE, fault), VersionParser())
    {
      r := io.ReadValue(OSRELEASE, VersionParser(), fault);
    }

    /** Serve the word if it is set; otherwise read the version and store it. */
    method Cached(fault: Fault) returns (r: Result<Version, ValueError<VersionError>>)
      modifies this`kernel
      ensures var outcome := CachedOutcome(endian, old(kernel), Release(io.files, fault));
              kernel == outcome.0 && r.Ok? == outcome.1.Some? && (r.Ok? ==> r.value == outcome.1.value)
      ensures r.Err? ==> r == Decode(Contents(io.files, OSRELEASE, fault), VersionParser())
    {
      var word := kernel;
      if word == SENTINEL {
        var current := Current(fault);
        if current.Err? {
          return Err(current.error);
        }
        word := ToU32(endian, current.value);
        kernel := word;
      }
      r := Ok(FromU32(endian, word));
    }

    /** A rejected limit leaves the files alone; an accepted one is written. */
    method SetThreadsMax(limit: Word, readFault: Fault, writeFault: Fault) returns (r: Result<(), SetError>)
      modifies this`kernel, io
      ensures var outcome := CachedOutcome(endian, old(kernel), old(Release(io.files, readFault)));
              && kernel == outcome.0
              && (Rejects(outcome.1, limit) ==> r == Err(OutsideRange) && io.files == old(io.files))
              && (!Rejects(outcome.1, limit) ==>
                    (io.files, r) == LimitWritten(old(io.files), limit, writeFault))
    {
      var version := Cached(readFault);
      if version.Ok? && version.value.major >= 4 && version.value.minor >= 1 && !WithinRange(limit) {
        return Err(OutsideRange);
      }
      var written := io.WriteValue(THREADS_FILE, limit, writeFault);
      r := if written.Ok? then Ok(()) else Err(WriteFailed(written.error));
    }

    method ThreadsMax(fault: Fault) returns (r: Result<int, ValueError<IntError>>)
      ensures r == Decode(Contents(io.files, THREADS_FILE, fault), IntParser(U32))
    {
      r := io.ReadValue(THREADS_FILE, IntParser(U32), fault);
    }

    /** A limit that was set is the limit that is read; one that was rejected changes nothing to read. */
    method SetThenGetThreadsMax(limit: Word, readFault: Fault)
      returns (stored: Result<(), SetError>, got: Result<int, ValueError<IntError>>)
      modifies this`kernel, io
      ensures stored.Ok? ==>
                && got == Ok(limit)
                && io.files == old(io.files)["sys/kernel/threads-max" := Print(limit)]
      ensures stored.Err? ==>
                stored == Err(OutsideRange) && io.files == old(io.files) && (limit < 20 || limit > 1073741823)
    {
      stored := SetThreadsMax(limit, readFault, NoFault);
      DecodeExactly(U32, limit);
      got := ThreadsMax(NoFault);
    }

    /** A setting is reported as set exactly if its number was written to `sysrq`. */
    method SetSysRq(v: SysRq, fault: Fault) returns (r: Result<(), IoError>)
      modifies io
      ensures r == Ok(()) <==> fault == NoFault
      ensures r == Ok(()) ==> io.files == old(io.files)["sys/kernel/sysrq" := Print(ToNumber(v))]
      ensures fault == AtOpen ==> r == Err(OpenFailed) && io.files == old(io.files)
      ensures (io.files, r) == Written(old(io.files), SYSRQ_FILE, Print(ToNumber(v)), fault)
    {
      r := io.WriteValue(SYSRQ_FILE, ToNumber(v), fault);
    }

    method GetSysRq(fault: Fault) returns (r: Result<SysRq, ValueError<SysRqError>>)
      ensures r == Decode(Contents(io.files, SYSRQ_FILE, fault), SysRqParser())
    {
      r := io.ReadValue(SYSRQ_FILE, SysRqParser(), fault);
    }

    /** A setting that was written is the one that is read exactly if it is in normal form. */
    method SetThenGetSysRq(v: SysRq) returns (r: Result<SysRq, ValueError<SysRqError>>)
      modifies io
      ensures r == Ok(v) <==> (v.AllowedFunctions? ==> v.bits != 0 && v.bits % 2 == 0 && v.bits < 512)
      ensures v == AllowedFunctions(0) ==> r == Ok(Disable)
    {
      var _ := SetSysRq(v, NoFault);
      var text := Print(ToNumber(v));
      PrintedChars(ToNumber(v));
      TrimAround("", text, "");
      assert "" + text + "" == text && text + "" == text;
      SysRqRoundTrip(v);
      r := GetSysRq(NoFault);
    }
  }

  // ----- What the guard is documented to do -----

  /** Versions since which the limit is documented as bounded. */
  predicate SinceBounded(v: Version) {
    Cmp(v, Version(4, 1, 0)) != Less
  }

  /**
   The guard tests the fields of the version one by one. It agrees with "at least 4.1.0" in the
   order of versions exactly on versions that are not x.0.y with x >= 5.
   */
  lemma GuardExact(v: Version)
    ensures GuardApplies(v) == SinceBounded(v) <==> !(v.major >= 5 && v.minor == 0)
  {
  }

  /** What the documentation says: since 4.1, a limit outside the range is refused. */
  predicate DocumentedRejects(v: Version, limit: Word) {
    SinceBounded(v) && !(20 <= limit <= 1073741823)
  }

  /**
   One call on a root that holds `v`, with any cache word and whether or not the file can be read:
   the limit is refused exactly as documented if it is in range, or if what the guard sees (the
   version in the word, else the one read, else none) is on the same side of 4.1.0 as `v`.
   */
  lemma RejectsAsDocumented(e: Endian, word: Word, v: Version, read: Option<Version>, limit: Word)
    requires read == None || read == Some(v)
    ensures Rejects(CachedOutcome(e, word, read).1, limit) == DocumentedRejects(v, limit) <==>
            || 20 <= limit <= 1073741823
            || (if word != SENTINEL then GuardApplies(FromU32(e, word)) == SinceBounded(v)
                else if read == None then !SinceBounded(v)
                else !(v.major >= 5 && v.minor == 0))
  {
    FromToU32(e, v);
    GuardExact(v);
  }

  /** With a version the guard applies to, exactly the limits from 20 to 1073741823 are let through. */
  lemma RejectsExact(v: Version, limit: Word)
    requires v.major >= 4 && v.minor >= 1
    ensures Rejects(Some(v), limit) <==> limit < 20 || limit > 1073741823
    ensures Rejects(Some(v), 19) && Rejects(Some(v), 1073741824)
    ensures !Rejects(Some(v), 20) && !Rejects(Some(v), 1073741823)
  {
  }

  /** For example, limit 0 on kernel 5.0.0 is documented as refused but let through, ... */
  lemma UnrefusedLimit(e: Endian)
    ensures DocumentedRejects(Version(5, 0, 0), 0)
    ensures !Rejects(CachedOutcome(e, SENTINEL, Some(Version(5, 0, 0))).1, 0)
  {
    FromToU32(e, Version(5, 0, 0));
  }

  /** ... and so it is on kernel 4.1.0 if the release file cannot be opened, ... */
  lemma UnrefusedUnread(e: Endian, files: map<string, string>)
    ensures DocumentedRejects(Version(4, 1, 0), 0)
    ensures !Rejects(CachedOutcome(e, SENTINEL, Release(files, AtOpen)).1, 0)
  {
  }

  /** ... or if another root has left 3.10.0 in the cache; ... */
  lemma UnrefusedForeign(e: Endian, read: Option<Version>)
    ensures DocumentedRejects(Version(4, 1, 0), 0)
    ensures !Rejects(CachedOutcome(e, ToU32(e, Version(3, 10, 0)), read).1, 0)
  {
    FromToU32(e, Version(3, 10, 0));
    OnlyZeroPacksToZero(e, Version(3, 10, 0));
  }

  /** ... while kernel 3.10.0 refuses it if another root has left 4.1.0 there. */
  lemma RefusedForeign(e: Endian, read: Option<Version>)
    ensures !DocumentedRejects(Version(3, 10, 0), 0)
    ensures Rejects(CachedOutcome(e, ToU32(e, Version(4, 1, 0)), read).1, 0)
  {
    FromToU32(e, Version(4, 1, 0));
    OnlyZeroPacksToZero(e, Version(4, 1, 0));
  }

  // ----- The guard over all runs of the cache -----

  /** With `learned` for a root that holds `v`, every limit is refused or not as documented. */
  ghost predicate DecidesAsDocumented(v: Version, learned: Option<Version>) {
    forall limit: Word :: Rejects(learned, limit) == DocumentedRejects(v, limit)
  }

  lemma DecidesExact(v: Version, learned: Option<Version>)
    ensures DecidesAsDocumented(v, learned) <==>
            SinceBounded(v) == (learned.Some? && GuardApplies(learned.value))
  {
    assert Rejects(learned, 0) == DocumentedRejects(v, 0) <==>
           SinceBounded(v) == (learned.Some? && GuardApplies(learned.value));
  }

  /** Every call that ended on a root with a version left the guard deciding as documented for that version. */
  ghost predicate GuardedAsDocumented(world: World, log: seq<Event>) {
    forall i | 0 <= i < |log| && EndsCall(log[i]) && world(log[i].root).Some? ::
      DecidesAsDocumented(world(log[i].root).value, Learned(log[i]))
  }

  /**
   No root whose file may fail to be read is at 4.1.0 or later, and what the guard says of a
   version agrees with the side of 4.1.0 of its own root and, if it can be cached, of every root.
   */
  ghost predicate GuardConsistent(world: World, flaky: nat -> bool) {
    && (forall r | flaky(r) && world(r).Some? :: !SinceBounded(world(r).value))
    && (forall r1, r2 | world(r1).Some? && world(r2).Some? && (r1 == r2 || world(r1).value != ZERO) ::
          GuardApplies(world(r1).value) == SinceBounded(world(r2).value))
  }

  lemma GuardedIfConsistent(e: Endian, world: World, flaky: nat -> bool, steps: seq<Step>, s: State)
    requires GuardConsistent(world, flaky)
    requires Run(e, steps) == Some(s) && Conforms(world, flaky, s.log)
    ensures GuardedAsDocumented(world, s.log)
  {
    CacheProvenance(e, steps, s);
    forall i | 0 <= i < |s.log| && EndsCall(s.log[i]) && world(s.log[i].root).Some?
      ensures DecidesAsDocumented(world(s.log[i].root).value, Learned(s.log[i]))
    {
      var root := s.log[i].root;
      DecidesExact(world(root).value, Learned(s.log[i]));
      if s.log[i].Returned? {
        var v := s.log[i].version;
        assert Justified(s.log, i, root, v);
        var j :| j < i && Source(s.log, j, v) && (v == ZERO ==> s.log[j].root == root);
        assert world(s.log[j].root) == Some(v);
      }
    }
  }

  /** A failed read on a root at 4.1.0 or later leaves the guard off. */
  lemma UnguardedRead(e: Endian, world: World, flaky: nat -> bool, r: nat) returns (steps: seq<Step>, s: State)
    requires flaky(r) && world(r).Some? && SinceBounded(world(r).value)
    ensures Run(e, steps) == Some(s) && Conforms(world, flaky, s.log) && !GuardedAsDocumented(world, s.log)
  {
    steps, s := Extend(e, [], INIT, Spawn);
    steps, s := SoloCall(e, steps, s, 0, r, None);
    assert s.log[0] == ReadFailed(0, r);
    DecidesExact(world(r).value, None);
  }

  /** A version on the wrong side reaches its own root's caller, or any root's through the cache. */
  lemma UnguardedAnswer(e: Endian, world: World, flaky: nat -> bool, r1: nat, r2: nat)
    returns (steps: seq<Step>, s: State)
    requires world(r1).Some? && world(r2).Some? && (r1 == r2 || world(r1).value != ZERO)
    requires GuardApplies(world(r1).value) != SinceBounded(world(r2).value)
    ensures Run(e, steps) == Some(s) && Conforms(world, flaky, s.log) && !GuardedAsDocumented(world, s.log)
  {
    var v := world(r1).value;
    if r1 == r2 {
      steps, s := FreshRun(e, r1, v);
      assert s.log[1] == Returned(0, r2, v);
    } else {
      steps, s := CrossRun(e, r1, v, r2);
      assert s.log[2] == Returned(0, r2, v);
    }
    DecidesExact(world(r2).value, Some(v));
  }

  /**
   Over all runs, with any reads of flaky roots failing, every limit on every root with a version
   is refused as documented if and only if the world is consistent.
   */
  lemma GuardDocumentedIff(e: Endian, world: World, flaky: nat -> bool)
    ensures (forall steps, s :: Run(e, steps) == Some(s) && Conforms(world, flaky, s.log) ==>
               GuardedAsDocumented(world, s.log)) <==> GuardConsistent(world, flaky)
  {
    if GuardConsistent(world, flaky) {
      forall steps, s | Run(e, steps) == Some(s) && Conforms(world, flaky, s.log)
        ensures GuardedAsDocumented(world, s.log)
      {
        GuardedIfConsistent(e, world, flaky, steps, s);
      }
    } else if r :| flaky(r) && world(r).Some? && SinceBounded(world(r).value) {
      var steps, s := UnguardedRead(e, world, flaky, r);
    } else {
      var r1, r2 :| world(r1).Some? && world(r2).Some? && (r1 == r2 || world(r1).value != ZERO) &&
        GuardApplies(world(r1).value) != SinceBounded(world(r2).value);
      var steps, s := UnguardedAnswer(e, world, flaky, r1, r2);
    }
  }

  /** The version under a root is what its release file parses as, and is unknown if that fails anywhere. */
  lemma ReleaseExact(files: map<string, string>, fault: Fault, v: Version)
    ensures Release(files, fault) == Some(v) <==>
            && fault == NoFault && "sys/kernel/osrelease" in files
            && KernelVersion.FromStr(Trim(files["sys/kernel/osrelease"])) == Ok(v)
  {
    ReadExact(files, "sys/kernel/osrelease", fault, VersionParser());
  }

  /** A release file that holds a version, with any suffix and surrounding whitespace, yields that version. */
  lemma ReleaseOfText(files: map<string, string>, v: Version, lead: string, suffix: string)
    requires "sys/kernel/osrelease" in files
    requires files["sys/kernel/osrelease"] == lead + VersionText(v) + suffix
    requires AllOf(lead, IsWhitespace) && (suffix == "" || !IsDigit(suffix[0]))
    ensures Release(files, NoFault) == Some(v)
  {
    ParsePrintedVersion(v, lead, suffix);
  }
}
