# Verified model of async_procfs

A Dafny model of the parts of `async_procfs` that compute something: the process-wide
kernel-version cache, the version, build-string, semaphore and SysRq parsers, the decoders of
`auxv`, `environ`, `cmdline` and `children`, and the text channel that numbers go through when a
kernel parameter is written and read. `dafny verify dfyconfig.toml` checks everything.

## Modules

- `Text`, `Decimal`, `Bytes`, `LastWins`, `Wrappers`: splitting and trimming of strings, checked
  decimal parsing and printing at fixed widths, machine words in either byte order, maps filled by
  insertion. They stand for the standard-library calls the crate makes (`split`, `split_whitespace`,
  `trim`, `parse`, `to_string`, `to_ne_bytes`, `HashMap::insert`).
- `KernelVersion`, `VersionCache`, `KernelBuild`, `KernelParameters`, `SysKernel`:
  `src/sys/kernel/mod.rs`.
- `Helpers`: `src/helpers.rs`. `Process`: `src/process/mod.rs`. `Task`: `src/process/task.rs`.
- `Examples`: concrete texts for the readers above.

Pure code is modelled by functions. Loops and code that updates state are methods and classes
proved equal to specification functions (`KernelBuild.FromStr`, `KernelBuild.ReadVersionNumber`,
`Process.Auxv`, `Process.Environ`, `Process.Cursor`, `Helpers.ProcfsIo`, `SysKernel.Kernel`); the
lemmas state what those functions do.

`Version::cached` is a step machine. Any number of asynchronous callers start, load, wait for the
file, store and return in any order. The atomic word is its modification order. A relaxed load may
pick any entry not older than what the caller has seen, and a store may land anywhere after that,
not only at the end. A wait may be dropped, as a Rust future can be. Reads may fail, and callers may
use different roots. Runs are lists of steps, and the results hold for every run.

Parameters of the model: the byte order and the word size of the machine, the predicate
`char::is_uppercase`, and the outcome of every file operation (success, failure to open, failure
after some characters). A file's text is a sequence of characters; whitespace is the Unicode
property White_Space.

## Where the code differs from its documentation

- The cache is one static word shared by all roots. A call answers for its own root over all runs
  exactly if no two roots disagree on a version other than 0.0.0 (`FaithfulIffOneVersion`).
- `set_threads_max` promises to refuse limits outside the range since Linux 4.1. Its guard tests
  what `cached` answers, field by field. So out-of-range limits pass on versions x.0.y with x at
  least 5, where the release file cannot be read, and where another root has cached a version that
  the guard lets pass; and they are refused on older kernels where another root has cached a later
  version.
  `RejectsAsDocumented` is the exact condition for one call, `GuardDocumentedIff` for all runs.
- `BuildInfo::extra` is the text after the flags, except that a single remaining word gains a
  space (`ExtraIsTheRest`, `ExtraGainsSpace`).
- An `AllowedFunctions` value that is empty, is 1 or has undeclared bits is not read back as
  written (`SysRqRoundTrip`).

## Model

| member | source | states |
|---|---|---|
| VersionCache.CacheProvenance | src/sys/kernel/mod.rs:35-51 | in every reachable state every stored word is the packing of a version read successfully, and every version returned was read before, through the same root if it is 0.0.0 |
| VersionCache.CacheTransparent | src/sys/kernel/mod.rs:35-51 | if all successful reads agree, every answer is that version, over any interleaving and stale load, also when it packs to the sentinel |
| VersionCache.ReadsAreStored | src/sys/kernel/mod.rs:43-48 | stores plus callers about to store equal successful reads in every reachable state, so failed or dropped reads add nothing |
| VersionCache.CacheEconomy | src/sys/kernel/mod.rs:40-48 | without 0.0.0, each caller reads the file successfully at most once, never after seeing a store, and there are at most as many stores as callers |
| VersionCache.EconomyIsTight | src/sys/kernel/mod.rs:35-51 | those bounds are reached: for every n there is a run in which n callers all read the file and store |
| VersionCache.SeenNeverReadsAgain | src/sys/kernel/mod.rs:40-48 | without 0.0.0, once a caller has seen or made a store, no continuation of the run has it touch the file again |
| VersionCache.AnsweredNeverReads | src/sys/kernel/mod.rs:35-51 | without 0.0.0, in terms of the log alone: after its first answer a caller never reads the file again, successfully or not |
| VersionCache.ZeroIsNeverCached | src/sys/kernel/mod.rs:36-48 | version 0.0.0 is never served from the cache, whatever else is read: stores of it are as many as answers of it given or pending, and as successful reads of it not waiting to be stored, so answers never exceed reads |
| VersionCache.ReadsBounded | src/sys/kernel/mod.rs:35-51 | in every run, with any versions, each caller reads the file successfully at most once more than all callers together read 0.0.0 |
| VersionCache.FaithfulIfOneVersion | src/sys/kernel/mod.rs:35-51 | if no two roots disagree on a version other than 0.0.0, every answer is the version under the caller's own root, also when reads of some roots fail at times |
| VersionCache.UnfaithfulRun | src/sys/kernel/mod.rs:35-51 | if two roots do disagree, there is a run in which a caller gets the other root's version |
| VersionCache.FaithfulIffOneVersion | src/sys/kernel/mod.rs:27-51 | answers match the caller's root over all runs if and only if no two roots disagree on a version other than 0.0.0, whichever roots may fail to be read at times |
| VersionCache.SoloCall | src/sys/kernel/mod.rs:35-51 | the step machine contains the undisturbed call that the sequential specification describes: same word, same events, and the last event tells the caller the very version (or failure) that the specification answers |
| VersionCache.CachedExact | src/sys/kernel/mod.rs:35-51 | an undisturbed call answers v if and only if the set word packs v or the unset word meets a successful read of v; it fails only when the unset word meets a failed read; the word afterwards packs the answer |
| VersionCache.RelaxedRun | src/sys/kernel/mod.rs:35-51 | a run the relaxed word allows: after one caller got its answer another still reads its own file, its store lands before the first one, and its next call gets the first caller's version; a dropped call adds nothing |
| KernelVersion.FromToU32 | src/sys/kernel/mod.rs:54-67 | unpacking inverts packing in either byte order |
| KernelVersion.ToFromU32 | src/sys/kernel/mod.rs:54-67 | packing inverts unpacking, so both are bijections |
| KernelVersion.PackedValue | src/sys/kernel/mod.rs:54-57 | the packed word as a number, for each byte order |
| KernelVersion.OnlyZeroPacksToZero | src/sys/kernel/mod.rs:36-57 | 0.0.0 is the only version that packs to the sentinel |
| KernelVersion.CmpIsNumeric | src/sys/kernel/mod.rs:113-123 | the order of versions is the order of major * 2^24 + minor * 2^16 + patch |
| KernelVersion.CmpTotalOrder | src/sys/kernel/mod.rs:113-129 | the order is total: equal only on equal versions, antisymmetric, transitive |
| KernelVersion.PackedOrderIffBigEndian | src/sys/kernel/mod.rs:54-57 | packed words compare like versions exactly on big-endian machines |
| KernelVersion.FromStrExact | src/sys/kernel/mod.rs:73-102 | a text parses as a.b.c if and only if it starts with three dot-separated digit strings, the last not followed by a digit, of any length, with values within 8, 8 and 16 bits |
| KernelVersion.FromStrSound | src/sys/kernel/mod.rs:73-102 | the three digit strings of an accepted text, and that the rest starts with no digit |
| KernelVersion.FromStrComplete | src/sys/kernel/mod.rs:73-102 | every text of that form is accepted, with anything after it ignored |
| KernelVersion.FromStrMissing | src/sys/kernel/mod.rs:83-91 | the missing-component errors depend only on the number of dots before the first foreign character and come before parse errors; the major one never occurs |
| KernelVersion.FromStrComponents | src/sys/kernel/mod.rs:73-102 | a text with three dot-separated digit strings, possibly empty or too large, gives the version or the error of the first component that does not fit |
| KernelVersion.ComponentsExist | src/sys/kernel/mod.rs:73-91 | every text with at least two dots before the first foreign character is of that form |
| KernelVersion.ReleasePrefixExact | src/sys/kernel/mod.rs:74-80 | the part that is parsed is the longest prefix of dots and digits |
| KernelVersion.ParsePrintedVersion | src/sys/kernel/mod.rs:69-102 | every version is read back from its text with any suffix that starts with no digit, also through the trim |
| Decimal.ParseIntExact | src/sys/kernel/mod.rs:93-95 | checked parsing accepts exactly an optional sign and digits, of any length, whose value fits the type, and returns that value |
| Decimal.DigitsExact | src/sys/kernel/mod.rs:93-95 | the digits are the ten characters 0 to 9 and are worth 0 to 9 |
| Decimal.ParseSigned | src/sys/kernel/mod.rs:93-95 | what any digit string is read as at each integer type, plain and with either sign, with the bounds of the types as numerals |
| Decimal.ParseIntErrors | src/sys/kernel/mod.rs:421 | the empty text has its own error; overflow is reported exactly if some all-digit prefix does not fit |
| Decimal.ParsePrint | src/helpers.rs:83 | every value of every integer type is read back from its decimal text |
| Decimal.PrintExact | src/helpers.rs:83 | a number is printed as the one digit string of its value without leading zeros, after a minus sign if negative |
| Decimal.ParseTrimmed | src/process/mod.rs:568-591 | a number is read back through trim and parse with any whitespace around it, including negative 16-bit scores |
| Text.WhitespaceExact | src/helpers.rs:63 | the characters that are trimmed, one by one, and those that separate the semaphore limits |
| Text.TrimExact | src/helpers.rs:63 | trimming gives r if and only if the text is r with whitespace around it and r neither starts nor ends in whitespace |
| KernelBuild.FromStr | src/sys/kernel/mod.rs:249-283 | the two loops over one iterator compute the specification |
| KernelBuild.BuildInfoExact | src/sys/kernel/mod.rs:249-283 | a text is read as a version, flags and extra if and only if its space-separated tokens are # and the version, then all-upper-case tokens forming the flag set up to the first mixed one, then extra |
| KernelBuild.BuildInfoReconstruction | src/sys/kernel/mod.rs:249-283 | the text is the tokens before the first mixed one joined, then extra, up to the space a single remaining token gains |
| KernelBuild.ParseFails | src/sys/kernel/mod.rs:254-264 | parsing fails exactly on texts that do not start with # |
| KernelBuild.ExtraIsTheRest | src/sys/kernel/mod.rs:266-276 | extra equals the text after the flags if and only if not exactly one token is left |
| KernelBuild.ExtraGainsSpace | src/sys/kernel/mod.rs:266-276 | "#1 x" is read with "x" and a space as extra |
| KernelBuild.BuildInfoRoundTrip | src/sys/kernel/mod.rs:249-283 | a build string composed of version, upper-case flags and a remainder is read back as those parts |
| KernelBuild.ReadVersionNumber | src/sys/kernel/mod.rs:208-221 | the digit-collecting loop computes the specification |
| KernelBuild.BuildVersionNumber | src/sys/kernel/mod.rs:208-264 | for a parsed build string that reads #, digits, then no digit, the version number is n if and only if the digits are non-empty with value n below 2^32 |
| KernelBuild.DigitsAfterHash | src/sys/kernel/mod.rs:208-215 | every text that starts with # is of that form |
| KernelParameters.SemaphoresExact | src/sys/kernel/mod.rs:311-330 | accepted exactly if the text is laid out, with ASCII whitespace, as at least four fields of which the first four are 64-bit numerals of the limits in order |
| KernelParameters.SemaphoreRoundTrip | src/sys/kernel/mod.rs:306-330 | any four limits with any ASCII whitespace between them are read back through the trim, whatever tokens follow |
| KernelParameters.MissingBeforeMalformed | src/sys/kernel/mod.rs:314-322 | a missing-field error occurs exactly on texts with fewer than four fields, whatever they are, and is about the next one; otherwise the error is about the first malformed one of the four |
| KernelParameters.OnlyFlagsExact | src/sys/kernel/mod.rs:375-395 | the declared flags admit exactly the even masks below 512 |
| KernelParameters.SysRqExact | src/sys/kernel/mod.rs:420-429 | accepted exactly on 16-bit numerals that are 1 or even and below 512, and the result's number is the parsed one; which of the two errors the other texts get |
| KernelParameters.SysRqRoundTrip | src/sys/kernel/mod.rs:411-430 | for every setting with any mask, what reading back its text gives |
| Helpers.ProcfsIo.WriteFile | src/helpers.rs:32-53 | create or truncate, then write; a failed write leaves a prefix of the data |
| Helpers.WrittenExact | src/helpers.rs:32-53 | a write succeeds exactly if nothing fails, and then the file holds the data; if it could not be opened no file changes, if it failed later the file holds what was written so far; other files never change |
| Helpers.ReadExact | src/helpers.rs:15-64 | a read gives v exactly if the file is there, nothing fails and the trimmed text parses as v; otherwise which error |
| Helpers.ProcfsIo.WriteValue | src/helpers.rs:78-84 | the file holds exactly the value's text |
| Helpers.ProcfsIo.WriteThenRead | src/helpers.rs:55-84 | a written number of any integer type is read back, whatever the file held |
| Helpers.DecodePrinted | src/helpers.rs:63 | the same with any whitespace added before and after the number |
| Helpers.DecodeLine | src/helpers.rs:63 | a number and a newline, as the kernel prints a value file, is read as the number |
| Helpers.TornWrite | src/helpers.rs:48-51 | after a write that failed midway a read gives the number without its missing last digits, and an error only if nothing was written |
| SysKernel.Kernel.Cached | src/sys/kernel/mod.rs:35-51 | word and result of an undisturbed call |
| SysKernel.ReleaseOfText | src/sys/kernel/mod.rs:27-32 | a release file that holds a version with a suffix and whitespace yields that version |
| SysKernel.ReleaseExact | src/sys/kernel/mod.rs:27-32 | the version under a root is v if and only if its release file can be read and parses as v after the trim |
| SysKernel.Kernel.SetThreadsMax | src/sys/kernel/mod.rs:471-487 | cache word, files and result; a rejected limit leaves the files alone |
| SysKernel.LimitWrittenExact | src/sys/kernel/mod.rs:483-486 | a limit that is not rejected is reported as set exactly if it was written to sys/kernel/threads-max, and no other file changes |
| SysKernel.Kernel.SetThenGetThreadsMax | src/sys/kernel/mod.rs:463-487 | a limit that was set is in sys/kernel/threads-max and is the one read; only limits below 20 or above 1073741823 are refused, without effect on files |
| SysKernel.GuardExact | src/sys/kernel/mod.rs:472-475 | the field-wise test agrees with the order of versions exactly unless major is at least 5 and minor 0 |
| SysKernel.RejectsExact | src/sys/kernel/mod.rs:455-475 | with a version the guard applies to, a limit is refused if and only if it is below 20 or above 1073741823 |
| SysKernel.RejectsAsDocumented | src/sys/kernel/mod.rs:467-481 | for one call with any cache word and any read outcome: the limit is refused as documented if and only if it is in range, or a set word is on the same side of 4.1.0 as the root's version, or an unset word meets a failed read of a version below 4.1.0 or a successful read of one that is not x.0.y with x at least 5 |
| SysKernel.UnrefusedLimit | src/sys/kernel/mod.rs:467-481 | limit 0 on kernel 5.0.0 is documented as refused and let through |
| SysKernel.UnrefusedUnread | src/sys/kernel/mod.rs:467-481 | so is limit 0 on kernel 4.1.0 if the release file cannot be opened |
| SysKernel.UnrefusedForeign | src/sys/kernel/mod.rs:35-51 | so is limit 0 on kernel 4.1.0 if another root has left 3.10.0 in the cache |
| SysKernel.RefusedForeign | src/sys/kernel/mod.rs:35-51 | limit 0 on kernel 3.10.0 is refused, against the documentation, if another root has left 4.1.0 in the cache |
| SysKernel.GuardedIfConsistent | src/sys/kernel/mod.rs:35-51 | in a consistent world every call of every run leaves the guard deciding as documented for its own root |
| SysKernel.UnguardedAnswer | src/sys/kernel/mod.rs:35-51 | a version on the wrong side of 4.1.0 has a run in which the guard decides against the documentation, for its own root or, through the cache, for another |
| SysKernel.GuardDocumentedIff | src/sys/kernel/mod.rs:467-481 | over all runs, limits on roots with a version are refused as documented if and only if no root that may fail to be read is at 4.1.0 or later, and the guard's verdict on each version agrees with the side of 4.1.0 of its own root and, unless it is 0.0.0, of every root |
| SysKernel.Kernel.SetSysRq | src/sys/kernel/mod.rs:448-453 | success exactly if sys/kernel/sysrq then holds the setting's number; a file that cannot be opened leaves all files alone |
| SysKernel.Kernel.SetThenGetSysRq | src/sys/kernel/mod.rs:443-453 | a setting is read back as written exactly if it has a non-empty mask of declared flags or none at all; the empty mask becomes Disable |
| Process.Cursor.ReadExact | src/process/mod.rs:488-490 | fills the word and advances, or runs to the end and leaves the word alone |
| Process.Auxv | src/process/mod.rs:467-499 | the cursor loop computes the specification and terminates |
| Process.AuxvAccepts | src/process/mod.rs:485-496 | a non-empty buffer decodes if and only if some complete aligned pair is (0, 0) |
| Process.AuxvExact | src/process/mod.rs:485-496 | the result is the last-wins map of the pairs before the first (0, 0), whatever follows |
| Process.AuxvRoundTrip | src/process/mod.rs:482-498 | encoded pairs with terminator and any trailing bytes decode to their last-wins map |
| Process.AuxvMapRoundTrip | src/process/mod.rs:482-498 | any map is read back from an encoding of any listing of its entries |
| Process.AuxvOne | src/process/mod.rs:482-498 | one entry and the terminator, word by word |
| Bytes.FromBytesPositional | src/process/mod.rs:488-492 | words of any size in either byte order are positional: the first byte of a little-endian word and the last of a big-endian one count ones |
| Process.AuxvTruncated | src/process/mod.rs:477-492 | every non-empty cut before the terminator is complete is an error |
| Process.Environ | src/process/mod.rs:250-276 | the insertion loop computes the specification |
| Process.EnvironExact | src/process/mod.rs:264-273 | k maps to v if and only if the buffer is a NUL-separated list of records of which the last that reads k=... reads k=v |
| Process.EnvironRoundTrip | src/process/mod.rs:264-275 | serialised entries decode to their last-wins map, with equals signs allowed in values |
| Process.EnvironMapRoundTrip | src/process/mod.rs:264-275 | any environment is read back from any listing of it |
| Process.EnvironOne | src/process/mod.rs:264-273 | key, the byte 0x3D, value and NUL decode to that one entry, also when the value holds 0x3D |
| LastWins.InsertExact | src/process/mod.rs:268-271 | after inserting pairs a key is present exactly if some pair has it, with the last such pair's value |
| Text.SplitExact | src/process/mod.rs:264 | the pieces of a text are the one non-empty list of separator-free pieces that joins to it |
| Process.CmdlineExact | src/process/mod.rs:172-181 | the result is args if and only if the buffer is args with NUL runs around them, non-empty in between |
| Process.NulOnly | src/process/mod.rs:173 | arguments are separated by the character NUL and nothing else |
| Process.CmdlineConserves | src/process/mod.rs:172-181 | the arguments put together are the buffer without its NULs |
| Task.ChildrenExact | src/process/task.rs:127-133 | the list is read if and only if the text is laid out with whitespace as tokens that are 32-bit numerals, and holds their values in order |
| Task.OneBadToken | src/process/task.rs:127-133 | one bad token anywhere in the text fails the whole list |
| Task.ChildrenRoundTrip | src/process/task.rs:127-133 | any list of 32-bit numbers with any whitespace around and between them is read back |
| Examples.Printed | src/helpers.rs:83 | 1234567890 and -17 as printed, and the former read back |
| Examples.ThreadsMaxFile | src/sys/kernel/mod.rs:463-465 | "63704" and a newline is read as 63704 |
| Examples.ReleaseFile | src/sys/kernel/mod.rs:27-32 | "6.12.55-generic" and a newline is read as 6.12.55 |
| Examples.BuildFile | src/sys/kernel/mod.rs:249-283 | "#12 SMP Fri May" is read as version 12, the flag SMP and extra "Fri May" |
| Examples.SemFile | src/sys/kernel/mod.rs:306-330 | tab-separated limits and a newline are read in order |
| Examples.SysRqFile | src/sys/kernel/mod.rs:420-429 | 0, 1, 176 and 512 are read as Disable, Enable, a mask and an invalid value |
| Examples.AuxvFile | src/process/mod.rs:482-498 | the bytes of a 64-bit little-endian vector with page size 4096 |
| Examples.EnvironFile | src/process/mod.rs:264-273 | "A=1=2" is read as A with value "1=2" |
| Examples.CmdlineFile | src/process/mod.rs:172-181 | two arguments, one with a space in it |
| Examples.ChildrenFile | src/process/task.rs:127-133 | "12 34 " is read as two numbers |

## Left out

- Opening and path handling: `open_at`, links, metadata, open flags and the path that errors carry.
- Everything that forwards to the parsers of `procfs_core` (`stat`, `status`, `maps`, `tcp` and so on), whose code is not part of this model.
- `src/runtime.rs`, and the `fds`, `tasks` and `all_processes` streams, which depend on the runtime or on a changing directory.
- `extra_date` and `boot_time`: date formats and time zones.
- `set_oom_score_adj` as a file operation: it does not truncate and relies on the kernel treating the file as a register; only its number text is covered.
- UTF-8 decoding: text files are character sequences, and invalid UTF-8 is a failed read.
- Helpers.ProcfsIo.WriteFile: a regular file that keeps what is written, not a kernel parameter that may refuse or adjust it; data is text, since only printed numbers are written.
- VersionCache.SoloCall: loads are assumed to read stores already performed, so a relaxed load that reads a store made later by another caller is not among the runs; happens-before edges between callers from other memory are not used to exclude runs.
- SysKernel.Kernel.Cached: one caller without interference; interference is the subject of `VersionCache`.
- `pid_max`, `shmall`, `shmmax`, `shmmni`, `Type` and the `smp` family of flag tests: further uses of the number channel, of the identity parser and of set membership.
