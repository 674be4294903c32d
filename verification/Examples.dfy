/** What the readers make of files as the kernel prints them, on concrete texts. */
module Examples {
  import opened Wrappers
  import opened Bytes
  import opened Text
  import opened Decimal
  import opened Helpers
  import opened KernelVersion
  import opened KernelParameters
  import opened SysKernel
  import KernelBuild
  import Process
  import Task

  lemma Printed()
    ensures Print(1234567890) == "1234567890" && Print(-17) == "-17"
    ensures ParseInt(U32, "1234567890") == Ok(1234567890)
  {
    assert Digits(12) == "12" && Digits(123) == "123" && Digits(1234) == "1234" && Digits(12345) == "12345";
    assert Digits(123456) == "123456" && Digits(1234567) == "1234567";
    assert Digits(12345678) == "12345678" && Digits(123456789) == "123456789";
    ParsePrint(U32, 1234567890);
  }

  lemma ThreadsMaxFile()
    ensures Decode(Ok("63704\n"), IntParser(U32)) == Ok(63704)
  {
    assert Digits(63) == "63" && Digits(637) == "637" && Digits(6370) == "6370" && Print(63704) == "63704";
    assert "63704" + "\n" == "63704\n";
    DecodeLine(U32, 63704);
  }

  lemma ReleaseFile()
    ensures Release(map["sys/kernel/osrelease" := "6.12.55-generic\n"], NoFault) == Some(Version(6, 12, 55))
  {
    var v := Version(6, 12, 55);
    assert Digits(6) == "6" && Digits(12) == "12" && Digits(55) == "55";
    assert VersionText(v) == "6.12.55";
    assert "" + "6.12.55" + "-generic\n" == "6.12.55-generic\n";
    ReleaseOfText(map["sys/kernel/osrelease" := "6.12.55-generic\n"], v, "", "-generic\n");
  }

  lemma JoinFour(a: string, b: string, c: string, d: string)
    ensures Join([a, b, c, d], ' ') == a + " " + (b + " " + (c + " " + d))
    ensures Join([c, d], ' ') == c + " " + d
  {
    assert [c, d][1..] == [d];
    assert [b, c, d][1..] == [c, d];
    assert [a, b, c, d][1..] == [b, c, d];
    assert Join([c, d], ' ') == c + " " + d;
    assert Join([b, c, d], ' ') == b + " " + (c + " " + d);
  }

  lemma BuildFields(version: string, flag: string, x: string, y: string, upper: char -> bool)
    requires NoneOf(version, KernelBuild.IsSpace) && NoneOf(flag, KernelBuild.IsSpace)
    requires NoneOf(x, KernelBuild.IsSpace) && NoneOf(y, KernelBuild.IsSpace)
    requires AllOf(flag, upper) && !AllOf(x, upper)
    ensures KernelBuild.Parse("#" + version + " " + (flag + " " + (x + " " + y)), upper) ==
            Ok(KernelBuild.BuildInfo(version, {flag}, x + " " + y))
  {
    var flags, rest := [flag], [x, y];
    KernelBuild.BuildInfoRoundTrip(version, flags, rest, upper);
    assert ["#" + version] + flags + rest == ["#" + version, flag, x, y];
    JoinFour("#" + version, flag, x, y);
    assert Join(rest, ' ') + "" == x + " " + y;
    assert flags[0] == flag && KernelBuild.SetOf(flags) == {flag};
  }

  lemma BuildFile(upper: char -> bool)
    requires forall c :: upper(c) <==> 'A' <= c <= 'Z'
    ensures KernelBuild.Parse("#12 SMP Fri May", upper) == Ok(KernelBuild.BuildInfo("12", {"SMP"}, "Fri May"))
  {
    FlagOrNot(upper);
    BuildFields("12", "SMP", "Fri", "May", upper);
    BuildText("12", "SMP", "Fri", "May");
  }

  lemma BuildText(version: string, flag: string, x: string, y: string)
    requires version == "12" && flag == "SMP" && x == "Fri" && y == "May"
    ensures x + " " + y == "Fri May"
    ensures "#" + version + " " + (flag + " " + (x + " " + y)) == "#12 SMP Fri May"
  {
  }

  lemma FlagOrNot(upper: char -> bool)
    requires forall c :: upper(c) <==> 'A' <= c <= 'Z'
    ensures AllOf("SMP", upper) && !AllOf("Fri", upper)
    ensures forall s | s in ["12", "SMP", "Fri", "May"] :: NoneOf(s, KernelBuild.IsSpace)
  {
    assert !upper("Fri"[1]);
  }

  lemma SemNumbers()
    ensures Print(250) == "250" && Print(32000) == "32000" && Print(32) == "32" && Print(128) == "128"
  {
    assert Digits(25) == "25" && Digits(12) == "12";
    assert Digits(320) == "320" && Digits(3200) == "3200";
  }

  lemma SemFile()
    ensures SemaphoresFromStr(Trim("250\t32000\t32\t128\n")) == Ok(SemaphoreLimits(250, 32000, 32, 128))
  {
    var l := SemaphoreLimits(250, 32000, 32, 128);
    SemNumbers();
    SemaphoreRoundTrip(l, "", "\t", "\t", "\t", "\n");
    SemText("250", "32000", "32", "128");
  }

  lemma SemText(a: string, b: string, c: string, d: string)
    requires a == "250" && b == "32000" && c == "32" && d == "128"
    ensures "" + (a + "\t" + b + "\t" + c + "\t" + d) + "\n" == "250\t32000\t32\t128\n"
  {
  }

  lemma SysRqFile()
    ensures SysRqFromStr("0") == Ok(Disable) && SysRqFromStr("1") == Ok(Enable)
    ensures SysRqFromStr("176") == Ok(AllowedFunctions(176)) && SysRqFromStr("512") == Err(InvalidValue)
  {
    assert Digits(17) == "17" && Digits(51) == "51" && Print(176) == "176" && Print(512) == "512";
    assert Print(0) == "0" && Print(1) == "1";
    SysRqRoundTrip(Disable);
    SysRqRoundTrip(Enable);
    SysRqRoundTrip(AllowedFunctions(176));
    ParsePrint(U16, 512);
    OnlyFlagsExact(512);
  }

  lemma TwoByteWord(n: nat)
    requires n < 65536
    ensures LittleBytes(n, 8) == [n % 256, n / 256, 0, 0, 0, 0, 0, 0]
    ensures n < Pow256(8)
  {
    assert LittleBytes(0, 6) == [0, 0, 0, 0, 0, 0];
    assert n / 256 / 256 == 0 && n / 256 % 256 == n / 256;
    assert LittleBytes(n / 256, 7) == [n / 256] + LittleBytes(0, 6);
    assert Pow256(2) == 65536;
  }

  lemma AuxvBytes(key: seq<Byte>, value: seq<Byte>, zero: seq<Byte>)
    requires key == LittleBytes(6, 8) && value == LittleBytes(4096, 8) && zero == LittleBytes(0, 8)
    ensures Process.DecodeAuxv(key + value + (zero + zero), 8, Little) == Ok(map[6 := 4096])
  {
    assert Pow256(2) == 65536 && Pow256(8) > 4096;
    Process.AuxvOne(6, 4096, 8, Little);
  }

  lemma AuxvFile()
    ensures Process.DecodeAuxv([6, 0, 0, 0, 0, 0, 0, 0] + [0, 16, 0, 0, 0, 0, 0, 0] +
                               ([0, 0, 0, 0, 0, 0, 0, 0] + [0, 0, 0, 0, 0, 0, 0, 0]), 8, Little) ==
            Ok(map[6 := 4096])
  {
    TwoByteWord(0);
    TwoByteWord(6);
    TwoByteWord(4096);
    AuxvBytes([6, 0, 0, 0, 0, 0, 0, 0], [0, 16, 0, 0, 0, 0, 0, 0], [0, 0, 0, 0, 0, 0, 0, 0]);
  }

  lemma EnvironFile()
    ensures Process.DecodeEnviron([0x41, 0x3D, 0x31, 0x3D, 0x32, 0]) == map[[0x41] := [0x31, 0x3D, 0x32]]
  {
    Process.EnvironOne([0x41], [0x31, 0x3D, 0x32]);
    assert [0x41] + [0x3D] + [0x31, 0x3D, 0x32] + [0] == [0x41, 0x3D, 0x31, 0x3D, 0x32, 0];
  }

  /** Two tokens with a separator after each. */
  lemma TwoTokens(a: string, b: string, sep: char, isSep: char -> bool)
    requires a != "" && b != "" && NoneOf(a, isSep) && NoneOf(b, isSep) && isSep(sep)
    ensures Tokens(a + [sep] + b + [sep], isSep) == [a, b]
  {
    var t := b + [sep];
    NoTokens(isSep);
    TokensSkip([sep], [], isSep);
    assert [sep] + [] == [sep];
    TokensCons(b, [sep], isSep);
    TokensSkip([sep], t, isSep);
    TokensCons(a, [sep] + t, isSep);
    assert a + ([sep] + t) == a + [sep] + b + [sep];
  }

  lemma CmdlineFile()
    ensures Process.Cmdline("ls\0-l a\0") == ["ls", "-l a"]
  {
    TwoTokens("ls", "-l a", '\0', Process.IsNul);
    assert "ls" + ['\0'] + "-l a" + ['\0'] == "ls\0-l a\0";
  }

  lemma ChildrenFile()
    ensures Task.Children("12 34 ") == Ok([12, 34])
  {
    assert Print(12) == "12" && Print(34) == "34";
    PrintedChars(12);
    PrintedChars(34);
    TwoTokens(Print(12), Print(34), ' ', IsWhitespace);
    assert "12" + [' '] + "34" + [' '] == "12 34 ";
    TwoNumbers(12, 34);
  }

  lemma TwoNumbers(a: int, b: int)
    requires U32.Contains(a) && U32.Contains(b)
    ensures Task.ParseAll([Print(a), Print(b)]) == Ok([a, b])
  {
    ParsePrint(U32, a);
    ParsePrint(U32, b);
    ParseIntExact(U32, Print(a));
    ParseIntExact(U32, Print(b));
    Task.ParseAllExact([Print(a), Print(b)], [a, b]);
  }
}
