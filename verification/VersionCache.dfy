/**
 The process-wide kernel-version cache: one atomic word, filled lazily and raced on by any number
 of asynchronous tasks, modelled as a step machine.

 The word's history is its modification order, a sequence that starts with the sentinel. Loads
 are relaxed: a task may read any entry at or after its own view, so loads may be stale but never
 go backwards. A store is placed anywhere after the storing task's view, not necessarily last.
 A task that waits for the file may be dropped, since its future may be.
 */
module VersionCache {
  import opened Wrappers
  import opened Bytes
  import opened KernelVersion

  const SENTINEL: Word := 0

  /** Where a task stands in a call of `cached`; `root` identifies the handle it was called with. */
  datatype Phase =
    | Idle
    | Loading(root: nat)
    | Reading(root: nat)
    | Storing(root: nat, word: Word)
    | Returning(root: nat, word: Word)

  /** `view` is the latest entry of the modification order that the task has read or written. */
  datatype Task = Task(phase: Phase, view: nat)

  datatype Event =
    | ReadOk(task: nat, root: nat, version: Version)
    | ReadFailed(task: nat, root: nat)
    | Dropped(task: nat, root: nat)
    | Returned(task: nat, root: nat, version: Version)

  datatype State = State(order: seq<Word>, tasks: seq<Task>, log: seq<Event>)

  datatype Step =
    | Spawn
    | Call(task: nat, root: nat)
    | Load(task: nat, at: nat)
    | ReadSucceeds(task: nat, version: Version)
    | ReadFails(task: nat)
    | Drop(task: nat)
    | Store(task: nat, at: nat)
    | Return(task: nat)

  const INIT := State([SENTINEL], [], [])

  predicate Enabled(s: State, step: Step) {
    match step
    case Spawn => true
    case Call(t, _) => t < |s.tasks| && s.tasks[t].phase.Idle?
    case Load(t, at) => t < |s.tasks| && s.tasks[t].phase.Loading? && s.tasks[t].view <= at < |s.order|
    case ReadSucceeds(t, _) => t < |s.tasks| && s.tasks[t].phase.Reading?
    case ReadFails(t) => t < |s.tasks| && s.tasks[t].phase.Reading?
    case Drop(t) => t < |s.tasks| && s.tasks[t].phase.Reading?
    case Store(t, at) => t < |s.tasks| && s.tasks[t].phase.Storing? && s.tasks[t].view < at <= |s.order|
    case Return(t) => t < |s.tasks| && s.tasks[t].phase.Returning?
  }

  /** A new entry at `at` moves the views at or after it. */
  function Shift(task: Task, at: nat): Task {
    if task.view >= at then task.(view := task.view + 1) else task
  }

  function ShiftAll(tasks: seq<Task>, at: nat): (r: seq<Task>)
    ensures |r| == |tasks|
    ensures forall i | 0 <= i < |tasks| :: r[i] == Shift(tasks[i], at)
  {
    seq(|tasks|, i requires 0 <= i < |tasks| => Shift(tasks[i], at))
  }

  function Do(e: Endian, s: State, step: Step): State
    requires Enabled(s, step)
  {
    match step
    case Spawn => s.(tasks := s.tasks + [Task(Idle, 0)])
    case Call(t, root) => s.(tasks := s.tasks[t := s.tasks[t].(phase := Loading(root))])
    case Load(t, at) =>
      var root, word := s.tasks[t].phase.root, s.order[at];
      s.(tasks := s.tasks[t := Task(if word == SENTINEL then Reading(root) else Returning(root, word), at)])
    case ReadSucceeds(t, v) =>
      var root := s.tasks[t].phase.root;
      s.(tasks := s.tasks[t := s.tasks[t].(phase := Storing(root, ToU32(e, v)))],
         log := s.log + [ReadOk(t, root, v)])
    case ReadFails(t) =>
      s.(tasks := s.tasks[t := s.tasks[t].(phase := Idle)],
         log := s.log + [ReadFailed(t, s.tasks[t].phase.root)])
    case Drop(t) =>
      s.(tasks := s.tasks[t := s.tasks[t].(phase := Idle)],
         log := s.log + [Dropped(t, s.tasks[t].phase.root)])
    case Store(t, at) =>
      var root, word := s.tasks[t].phase.root, s.tasks[t].phase.word;
      s.(order := s.order[..at] + [word] + s.order[at..],
         tasks := ShiftAll(s.tasks, at)[t := Task(Returning(root, word), at)])
    case Return(t) =>
      var root, word := s.tasks[t].phase.root, s.tasks[t].phase.word;
      s.(tasks := s.tasks[t := s.tasks[t].(phase := Idle)],
         log := s.log + [Returned(t, root, FromU32(e, word))])
  }

  /** The state after some steps from the start, if each of them was enabled. */
  function Run(e: Endian, steps: seq<Step>): Option<State> {
    if steps == [] then Some(INIT)
    else
      var before := Run(e, steps[..|steps| - 1]);
      var step := steps[|steps| - 1];
      if before.Some? && Enabled(before.value, step) then Some(Do(e, before.value, step)) else None
  }

  lemma RunSnoc(e: Endian, steps: seq<Step>, s: State, step: Step)
    requires Run(e, steps) == Some(s) && Enabled(s, step)
    ensures Run(e, steps + [step]) == Some(Do(e, s, step))
  {
  }

  // ----- Provenance -----

  /** Event `i` is a successful read of `v`. */
  predicate Source(log: seq<Event>, i: int, v: Version) {
    0 <= i < |log| && log[i].ReadOk? && log[i].version == v
  }

  /**
   Among the first `n` events some task read `v`. Version 0.0.0, which packs to the sentinel, was
   even read through `root`, because it never comes out of the cache.
   */
  ghost predicate Justified(log: seq<Event>, n: int, root: nat, v: Version) {
    exists i :: i < n && Source(log, i, v) && (v == ZERO ==> log[i].root == root)
  }

  /** `word` is the packing of a version that was read. */
  ghost predicate WordRead(e: Endian, log: seq<Event>, word: Word) {
    exists i :: Source(log, i, FromU32(e, word))
  }

  ghost predicate TaskJustified(e: Endian, entries: nat, log: seq<Event>, task: Task) {
    && task.view < entries
    && (task.phase.Storing? || task.phase.Returning? ==>
          Justified(log, |log|, task.phase.root, FromU32(e, task.phase.word)))
  }

  ghost predicate Provenance(e: Endian, s: State) {
    && |s.order| > 0 && s.order[0] == SENTINEL
    && (forall i | 1 <= i < |s.order| :: WordRead(e, s.log, s.order[i]))
    && (forall t | 0 <= t < |s.tasks| :: TaskJustified(e, |s.order|, s.log, s.tasks[t]))
    && (forall i | 0 <= i < |s.log| && s.log[i].Returned? :: Justified(s.log, i, s.log[i].root, s.log[i].version))
  }

  lemma JustifiedGrows(log: seq<Event>, event: Event, n: int, m: int, root: nat, v: Version)
    requires Justified(log, n, root, v) && n <= m
    ensures Justified(log + [event], m, root, v)
  {
    var i :| i < n && Source(log, i, v) && (v == ZERO ==> log[i].root == root);
    assert Source(log + [event], i, v) && (log + [event])[i] == log[i];
  }

  /** Entries of the order and of the log stay justified when the log grows by one event. */
  lemma ProvenanceGrows(e: Endian, s: State, event: Event)
    requires Provenance(e, s)
    requires event.Returned? ==> Justified(s.log, |s.log|, event.root, event.version)
    ensures Provenance(e, s.(log := s.log + [event]))
  {
    var log := s.log + [event];
    forall i | 1 <= i < |s.order|
      ensures WordRead(e, log, s.order[i])
    {
      assert WordRead(e, s.log, s.order[i]);
      var j :| Source(s.log, j, FromU32(e, s.order[i]));
      assert Source(log, j, FromU32(e, s.order[i]));
    }
    forall t | 0 <= t < |s.tasks|
      ensures TaskJustified(e, |s.order|, log, s.tasks[t])
    {
      var p := s.tasks[t].phase;
      assert TaskJustified(e, |s.order|, s.log, s.tasks[t]);
      if p.Storing? || p.Returning? {
        JustifiedGrows(s.log, event, |s.log|, |log|, p.root, FromU32(e, p.word));
      }
    }
    forall i | 0 <= i < |log| && log[i].Returned?
      ensures Justified(log, i, log[i].root, log[i].version)
    {
      if i < |s.log| {
        assert log[i] == s.log[i];
      }
      JustifiedGrows(s.log, event, i, i, log[i].root, log[i].version);
    }
  }

  lemma ProvenanceTask(e: Endian, s: State, t: nat, task: Task)
    requires Provenance(e, s) && t < |s.tasks| && TaskJustified(e, |s.order|, s.log, task)
    ensures Provenance(e, s.(tasks := s.tasks[t := task]))
  {
  }

  lemma ProvenanceLoad(e: Endian, s: State, t: nat, at: nat)
    requires Provenance(e, s) && Enabled(s, Load(t, at))
    ensures Provenance(e, Do(e, s, Load(t, at)))
  {
    var root, word := s.tasks[t].phase.root, s.order[at];
    if word != SENTINEL {
      OnlyZeroPacksToZero(e, FromU32(e, word));
      ToFromU32(e, word);
      assert WordRead(e, s.log, word);
      var j :| Source(s.log, j, FromU32(e, word));
      assert Justified(s.log, |s.log|, root, FromU32(e, word));
    }
    ProvenanceTask(e, s, t, Task(if word == SENTINEL then Reading(root) else Returning(root, word), at));
  }

  lemma ProvenanceRead(e: Endian, s: State, t: nat, v: Version)
    requires Provenance(e, s) && Enabled(s, ReadSucceeds(t, v))
    ensures Provenance(e, Do(e, s, ReadSucceeds(t, v)))
  {
    var root := s.tasks[t].phase.root;
    var event := ReadOk(t, root, v);
    ProvenanceGrows(e, s, event);
    var s' := s.(log := s.log + [event]);
    assert Source(s'.log, |s.log|, v);
    FromToU32(e, v);
    assert TaskJustified(e, |s.order|, s.log, s.tasks[t]);
    ProvenanceTask(e, s', t, s.tasks[t].(phase := Storing(root, ToU32(e, v))));
  }

  lemma ProvenanceStore(e: Endian, s: State, t: nat, at: nat)
    requires Provenance(e, s) && Enabled(s, Store(t, at))
    ensures Provenance(e, Do(e, s, Store(t, at)))
  {
  }

  lemma ProvenanceStep(e: Endian, s: State, step: Step)
    requires Provenance(e, s) && Enabled(s, step)
    ensures Provenance(e, Do(e, s, step))
  {
    match step
    case Spawn =>
    case Call(t, root) =>
      assert TaskJustified(e, |s.order|, s.log, s.tasks[t]);
      ProvenanceTask(e, s, t, s.tasks[t].(phase := Loading(root)));
    case Load(t, at) => ProvenanceLoad(e, s, t, at);
    case ReadSucceeds(t, v) => ProvenanceRead(e, s, t, v);
    case Store(t, at) => ProvenanceStore(e, s, t, at);
    case _ =>
      var t, s' := step.task, Do(e, s, step);
      assert TaskJustified(e, |s.order|, s.log, s.tasks[t]);
      ProvenanceTask(e, s, t, s.tasks[t].(phase := Idle));
      ProvenanceGrows(e, s.(tasks := s'.tasks), s'.log[|s.log|]);
  }

  /**
   In every reachable state, each word after the initial one is the packing of a version that was
   read successfully, and each version returned was read successfully before it was returned.
   */
  lemma {:induction false} CacheProvenance(e: Endian, steps: seq<Step>, s: State)
    requires Run(e, steps) == Some(s)
    ensures Provenance(e, s)
  {
    if steps != [] {
      var before := Run(e, steps[..|steps| - 1]).value;
      CacheProvenance(e, steps[..|steps| - 1], before);
      ProvenanceStep(e, before, steps[|steps| - 1]);
    }
  }

  /**
   Transparency: if every successful read yields the same version, then every call that returns a
   version returns that one, over any interleaving and any coherent stale load, even if the
   version packs to the sentinel.
   */
  lemma CacheTransparent(e: Endian, steps: seq<Step>, s: State, v: Version)
    requires Run(e, steps) == Some(s)
    requires forall i | 0 <= i < |s.log| && s.log[i].ReadOk? :: s.log[i].version == v
    ensures forall i | 0 <= i < |s.log| && s.log[i].Returned? :: s.log[i].version == v
    ensures forall i | 1 <= i < |s.order| :: s.order[i] == ToU32(e, v)
  {
    CacheProvenance(e, steps, s);
    forall i | 0 <= i < |s.log| && s.log[i].Returned?
      ensures s.log[i].version == v
    {
      assert Justified(s.log, i, s.log[i].root, s.log[i].version);
    }
    forall i | 1 <= i < |s.order|
      ensures s.order[i] == ToU32(e, v)
    {
      assert WordRead(e, s.log, s.order[i]);
      ToFromU32(e, s.order[i]);
    }
  }

  // ----- Economy -----

  function Count<T>(s: seq<T>, p: T -> bool): nat {
    if s == [] then 0 else Count(s[..|s| - 1], p) + (if p(s[|s| - 1]) then 1 else 0)
  }

  lemma CountSnoc<T>(s: seq<T>, x: T, p: T -> bool)
    ensures Count(s + [x], p) == Count(s, p) + (if p(x) then 1 else 0)
  {
  }

  lemma {:induction false} CountSame<T, U>(a: seq<T>, p: T -> bool, b: seq<U>, q: U -> bool)
    requires |a| == |b| && forall i | 0 <= i < |a| :: p(a[i]) == q(b[i])
    ensures Count(a, p) == Count(b, q)
  {
    if a != [] {
      var n := |a| - 1;
      assert forall i | 0 <= i < n :: p(a[..n][i]) == q(b[..n][i]) by {
        forall i | 0 <= i < n
          ensures p(a[..n][i]) == q(b[..n][i])
        {
          assert p(a[i]) == q(b[i]);
        }
      }
      CountSame(a[..n], p, b[..n], q);
    }
  }

  lemma {:induction false} CountChange<T>(a: seq<T>, b: seq<T>, t: nat, p: T -> bool)
    requires t < |a| == |b| && forall i | 0 <= i < |a| && i != t :: p(a[i]) == p(b[i])
    ensures Count(b, p) + (if p(a[t]) then 1 else 0) == Count(a, p) + (if p(b[t]) then 1 else 0)
  {
    var n := |a| - 1;
    assert forall i | 0 <= i < n && i != t :: p(a[..n][i]) == p(b[..n][i]) by {
      forall i | 0 <= i < n && i != t
        ensures p(a[..n][i]) == p(b[..n][i])
      {
        assert p(a[i]) == p(b[i]);
      }
    }
    if t == n {
      CountSame(a[..n], p, b[..n], p);
    } else {
      CountChange(a[..n], b[..n], t, p);
    }
  }

  predicate IsStoring(task: Task) { task.phase.Storing? }

  predicate IsReadOk(event: Event) { event.ReadOk? }

  /** The task has seen or made some store. */
  predicate HasSeen(task: Task) { task.view > 0 }

  lemma CountStep(e: Endian, s: State, step: Step, p: Task -> bool)
    requires Enabled(s, step) && !step.Spawn?
    requires step.Store? ==> forall task: Task :: p(Shift(task, step.at)) == p(task)
    ensures var s' := Do(e, s, step);
            Count(s'.tasks, p) + (if p(s.tasks[step.task]) then 1 else 0) ==
            Count(s.tasks, p) + (if p(s'.tasks[step.task]) then 1 else 0)
  {
    var s' := Do(e, s, step);
    CountChange(s.tasks, s'.tasks, step.task, p);
  }

  /** A step logs at most one event. */
  lemma CountLog(e: Endian, s: State, step: Step, p: Event -> bool)
    requires Enabled(s, step)
    ensures var log' := Do(e, s, step).log;
            Count(log', p) == Count(s.log, p) + (if |log'| > |s.log| && p(log'[|s.log|]) then 1 else 0)
  {
    var log' := Do(e, s, step).log;
    if |log'| > |s.log| {
      CountSnoc(s.log, log'[|s.log|], p);
    }
  }

  lemma ConservationStep(e: Endian, s: State, step: Step)
    requires Enabled(s, step)
    requires |s.order| == 1 + Count(s.log, IsReadOk) - Count(s.tasks, IsStoring)
    ensures var s' := Do(e, s, step);
            |s'.order| == 1 + Count(s'.log, IsReadOk) - Count(s'.tasks, IsStoring)
  {
    CountLog(e, s, step, IsReadOk);
    if step.Spawn? {
      CountSnoc(s.tasks, Task(Idle, 0), IsStoring);
    } else {
      CountStep(e, s, step, IsStoring);
    }
  }

  /** In every reachable state, stores plus tasks about to store equal the successful reads. */
  lemma {:induction false} ReadsAreStored(e: Endian, steps: seq<Step>, s: State)
    requires Run(e, steps) == Some(s)
    ensures (|s.order| - 1) + Count(s.tasks, IsStoring) == Count(s.log, IsReadOk)
  {
    if steps != [] {
      var before := Run(e, steps[..|steps| - 1]).value;
      ReadsAreStored(e, steps[..|steps| - 1], before);
      ConservationStep(e, before, steps[|steps| - 1]);
    }
  }

  /** Every successful read so far was of a version other than 0.0.0. */
  predicate NonZeroReads(log: seq<Event>) {
    forall i | 0 <= i < |log| && log[i].ReadOk? :: log[i].version != ZERO
  }

  function ReadOkBy(t: nat): Event -> bool {
    (event: Event) => event.ReadOk? && event.task == t
  }

  function ReadsBy(t: nat, log: seq<Event>): nat {
    Count(log, ReadOkBy(t))
  }

  lemma ReadsByStep(e: Endian, s: State, step: Step, t: nat)
    requires Enabled(s, step)
    ensures ReadsBy(t, Do(e, s, step).log) ==
            ReadsBy(t, s.log) + (if step.ReadSucceeds? && step.task == t then 1 else 0)
  {
    CountLog(e, s, step, ReadOkBy(t));
  }

  ghost predicate Frugal(s: State, t: nat)
    requires t < |s.tasks|
  {
    var task := s.tasks[t];
    && (task.view > 0 ==> !task.phase.Reading? && !task.phase.Storing?)
    && ReadsBy(t, s.log) <= 1
    && (task.phase.Storing? ==> ReadsBy(t, s.log) == 1)
    && (task.view == 0 && !task.phase.Storing? ==> ReadsBy(t, s.log) == 0)
  }

  /** The order starts with the sentinel and goes on without it. */
  predicate OneSentinelFirst(order: seq<Word>) {
    |order| > 0 && order[0] == SENTINEL && forall i | 1 <= i < |order| :: order[i] != SENTINEL
  }

  ghost predicate Economical(s: State) {
    && OneSentinelFirst(s.order)
    && (forall t | 0 <= t < |s.tasks| :: s.tasks[t].phase.Storing? ==> s.tasks[t].phase.word != SENTINEL)
    && (forall t | 0 <= t < |s.tasks| :: Frugal(s, t))
    && (forall i | 0 <= i < |s.log| && s.log[i].ReadOk? :: s.log[i].task < |s.tasks|)
    && |s.order| - 1 <= Count(s.tasks, HasSeen)
  }

  lemma {:induction false} NoReadsBy(t: nat, log: seq<Event>)
    requires forall i | 0 <= i < |log| && log[i].ReadOk? :: log[i].task != t
    ensures ReadsBy(t, log) == 0
  {
    if log != [] {
      NoReadsBy(t, log[..|log| - 1]);
      CountSnoc(log[..|log| - 1], log[|log| - 1], ReadOkBy(t));
    }
  }

  /** A step of another task leaves a task's reads alone. */
  lemma FrugalOther(e: Endian, s: State, step: Step, t: nat)
    requires Enabled(s, step) && t < |s.tasks| && Frugal(s, t) && (step.Spawn? || step.task != t)
    ensures Frugal(Do(e, s, step), t)
  {
    ReadsByStep(e, s, step, t);
  }

  lemma FrugalOwn(e: Endian, s: State, step: Step)
    requires Enabled(s, step) && !step.Spawn? && OneSentinelFirst(s.order) && Frugal(s, step.task)
    ensures Frugal(Do(e, s, step), step.task)
  {
    ReadsByStep(e, s, step, step.task);
  }

  lemma FrugalStep(e: Endian, s: State, step: Step, t: nat)
    requires Enabled(s, step) && Economical(s)
    requires t < |Do(e, s, step).tasks|
    ensures Frugal(Do(e, s, step), t)
  {
    if t == |s.tasks| {
      NoReadsBy(t, s.log);
    } else if step.Spawn? || step.task != t {
      assert Frugal(s, t);
      FrugalOther(e, s, step, t);
    } else {
      FrugalOwn(e, s, step);
    }
  }

  /** The counted tasks never fall below the stores. */
  lemma SeenStores(e: Endian, s: State, step: Step)
    requires Enabled(s, step) && Economical(s)
    ensures var s' := Do(e, s, step);
            |s'.order| - 1 <= Count(s'.tasks, HasSeen)
  {
    if step.Spawn? {
      CountSnoc(s.tasks, Task(Idle, 0), HasSeen);
    } else {
      assert Frugal(s, step.task);
      CountStep(e, s, step, HasSeen);
    }
  }

  /** Only the words of versions other than 0.0.0 are about to be stored, or stored. */
  lemma NonZeroWords(e: Endian, s: State, step: Step)
    requires Enabled(s, step) && Economical(s) && NonZeroReads(Do(e, s, step).log)
    ensures var s' := Do(e, s, step);
            && OneSentinelFirst(s'.order)
            && (forall t | 0 <= t < |s'.tasks| :: s'.tasks[t].phase.Storing? ==> s'.tasks[t].phase.word != SENTINEL)
  {
    if step.ReadSucceeds? {
      assert Do(e, s, step).log[|s.log|].version == step.version;
      OnlyZeroPacksToZero(e, step.version);
    }
  }

  lemma EconomicalStep(e: Endian, s: State, step: Step)
    requires Enabled(s, step) && Economical(s) && NonZeroReads(Do(e, s, step).log)
    ensures Economical(Do(e, s, step))
  {
    var s' := Do(e, s, step);
    forall t | 0 <= t < |s'.tasks|
      ensures Frugal(s', t)
    {
      FrugalStep(e, s, step, t);
    }
    SeenStores(e, s, step);
    NonZeroWords(e, s, step);
    assert step.ReadSucceeds? ==> s'.log[|s.log|].task < |s'.tasks|;
  }

  lemma {:induction false} EconomicalRun(e: Endian, steps: seq<Step>, s: State)
    requires Run(e, steps) == Some(s) && NonZeroReads(s.log)
    ensures Economical(s)
  {
    if steps != [] {
      var before := Run(e, steps[..|steps| - 1]).value;
      assert NonZeroReads(before.log) by {
        assert forall i | 0 <= i < |before.log| :: before.log[i] == s.log[i];
      }
      EconomicalRun(e, steps[..|steps| - 1], before);
      EconomicalStep(e, before, steps[|steps| - 1]);
    }
  }

  /**
   If no version read packs to the sentinel, a task that has seen or made a store is never about
   to read the file, every task reads it successfully at most once, and there are at most as many
   stores as tasks.
   */
  lemma CacheEconomy(e: Endian, steps: seq<Step>, s: State)
    requires Run(e, steps) == Some(s) && NonZeroReads(s.log)
    ensures forall t | 0 <= t < |s.tasks| && s.tasks[t].view > 0 :: !s.tasks[t].phase.Reading?
    ensures forall t | 0 <= t < |s.tasks| :: ReadsBy(t, s.log) <= 1
    ensures |s.order| - 1 <= Count(s.tasks, HasSeen) <= |s.tasks|
  {
    EconomicalRun(e, steps, s);
    forall t | 0 <= t < |s.tasks|
      ensures ReadsBy(t, s.log) <= 1
      ensures s.tasks[t].view > 0 ==> !s.tasks[t].phase.Reading?
    {
      assert Frugal(s, t);
    }
    CountBound(s.tasks, HasSeen);
  }

  /** From `log` on, all that task `t` adds is answers. */
  ghost predicate OnlyAnswers(log: seq<Event>, log': seq<Event>, t: nat) {
    && log <= log'
    && forall i | |log| <= i < |log'| && log'[i].task == t :: log'[i].Returned?
  }

  lemma SeenStep(e: Endian, s: State, step: Step, t: nat)
    requires Enabled(s, step) && Economical(s) && t < |s.tasks| && s.tasks[t].view > 0
    ensures var s' := Do(e, s, step);
            t < |s'.tasks| && s'.tasks[t].view > 0 && OnlyAnswers(s.log, s'.log, t)
  {
    assert Frugal(s, t);
  }

  lemma RunBefore(e: Endian, steps: seq<Step>, s: State) returns (before: State)
    requires steps != [] && Run(e, steps) == Some(s) && NonZeroReads(s.log)
    ensures Run(e, steps[..|steps| - 1]) == Some(before) && NonZeroReads(before.log) && Economical(before)
    ensures Enabled(before, steps[|steps| - 1]) && s == Do(e, before, steps[|steps| - 1])
  {
    before := Run(e, steps[..|steps| - 1]).value;
    assert NonZeroReads(before.log) by {
      assert forall i | 0 <= i < |before.log| :: before.log[i] == s.log[i];
    }
    EconomicalRun(e, steps[..|steps| - 1], before);
  }

  /**
   Once a task has seen or made a store, no continuation of the run has it touch the file again:
   all that it adds to the log from then on are answers.
   */
  lemma {:induction false} SeenNeverReadsAgain(
    e: Endian, steps: seq<Step>, s: State, more: seq<Step>, s': State, t: nat)
    requires Run(e, steps) == Some(s) && t < |s.tasks| && s.tasks[t].view > 0
    requires Run(e, steps + more) == Some(s') && NonZeroReads(s'.log)
    ensures t < |s'.tasks| && s'.tasks[t].view > 0 && OnlyAnswers(s.log, s'.log, t)
    decreases |more|
  {
    if more == [] {
      assert steps + more == steps;
    } else {
      var n := |more| - 1;
      var before := RunBefore(e, steps + more, s');
      assert (steps + more)[..|steps + more| - 1] == steps + more[..n];
      SeenNeverReadsAgain(e, steps, s, more[..n], before, t);
      SeenStep(e, before, (steps + more)[|steps + more| - 1], t);
    }
  }

  /** A task that is about to get an answer, or got one, has seen a store. */
  ghost predicate AnswersSeen(s: State) {
    && (forall t | 0 <= t < |s.tasks| && s.tasks[t].phase.Returning? :: s.tasks[t].view > 0)
    && (forall i | 0 <= i < |s.log| && s.log[i].Returned? ::
          s.log[i].task < |s.tasks| && s.tasks[s.log[i].task].view > 0)
  }

  /** Whatever a task logs after an answer is answers. */
  ghost predicate AnswersLast(log: seq<Event>) {
    forall i, j | 0 <= i < j < |log| && log[i].Returned? && log[j].task == log[i].task :: log[j].Returned?
  }

  lemma AnswersSeenStep(e: Endian, s: State, step: Step)
    requires Enabled(s, step) && OneSentinelFirst(s.order) && AnswersSeen(s)
    ensures AnswersSeen(Do(e, s, step))
  {
  }

  lemma AnswersLastStep(e: Endian, s: State, step: Step)
    requires Enabled(s, step) && AnswersSeen(s) && AnswersLast(s.log)
    requires !step.Spawn? && s.tasks[step.task].view > 0 ==> !s.tasks[step.task].phase.Reading?
    ensures AnswersLast(Do(e, s, step).log)
  {
    var log, log' := s.log, Do(e, s, step).log;
    assert forall i | 0 <= i < |log| :: log'[i] == log[i];
  }

  lemma {:induction false} AnswersLastRun(e: Endian, steps: seq<Step>, s: State)
    requires Run(e, steps) == Some(s) && NonZeroReads(s.log)
    ensures AnswersSeen(s) && AnswersLast(s.log)
  {
    if steps != [] {
      var before := RunBefore(e, steps, s);
      AnswersLastRun(e, steps[..|steps| - 1], before);
      assert steps[|steps| - 1].Spawn? || Frugal(before, steps[|steps| - 1].task);
      AnswersSeenStep(e, before, steps[|steps| - 1]);
      AnswersLastStep(e, before, steps[|steps| - 1]);
    }
  }

  /**
   In terms of the log alone: after its first answer a caller has nothing but answers, never again
   a read, failed or not.
   */
  lemma AnsweredNeverReads(e: Endian, steps: seq<Step>, s: State, i: nat, j: nat)
    requires Run(e, steps) == Some(s) && NonZeroReads(s.log)
    requires i < j < |s.log| && s.log[i].Returned? && s.log[j].task == s.log[i].task
    ensures s.log[j].Returned?
  {
    AnswersLastRun(e, steps, s);
  }

  lemma {:induction false} CountBound<T>(s: seq<T>, p: T -> bool)
    ensures Count(s, p) <= |s|
  {
    if s != [] {
      CountBound(s[..|s| - 1], p);
    }
  }

  // ----- The version that packs to the sentinel -----

  predicate IsSentinel(word: Word) { word == SENTINEL }

  predicate IsStoringZero(task: Task) { task.phase.Storing? && task.phase.word == SENTINEL }

  predicate IsReturningZero(task: Task) { task.phase.Returning? && task.phase.word == SENTINEL }

  predicate IsReadOfZero(event: Event) { event.ReadOk? && event.version == ZERO }

  predicate IsAnswerOfZero(event: Event) { event.Returned? && event.version == ZERO }

  lemma {:induction false} CountAppend<T>(a: seq<T>, b: seq<T>, p: T -> bool)
    ensures Count(a + b, p) == Count(a, p) + Count(b, p)
  {
    if b == [] {
      assert a + b == a;
    } else {
      assert (a + b)[..|a + b| - 1] == a + b[..|b| - 1];
      CountAppend(a, b[..|b| - 1], p);
    }
  }

  lemma CountMiddle<T>(a: seq<T>, x: T, b: seq<T>, p: T -> bool)
    ensures Count(a + [x] + b, p) == Count(a + b, p) + (if p(x) then 1 else 0)
  {
    CountAppend(a + [x], b, p);
    CountSnoc(a, x, p);
    CountAppend(a, b, p);
  }

  /** A step puts at most one word into the order. */
  lemma CountOrder(e: Endian, s: State, step: Step, p: Word -> bool)
    requires Enabled(s, step)
    ensures Count(Do(e, s, step).order, p) ==
            Count(s.order, p) + (if step.Store? && p(s.tasks[step.task].phase.word) then 1 else 0)
  {
    if step.Store? {
      CountMiddle(s.order[..step.at], s.tasks[step.task].phase.word, s.order[step.at..], p);
      assert s.order[..step.at] + s.order[step.at..] == s.order;
    }
  }

  /** Sentinels in the order: the initial one, and one for each answer of 0.0.0, given or about to be given. */
  ghost predicate ZeroAnswered(s: State) {
    Count(s.order, IsSentinel) == 1 + Count(s.log, IsAnswerOfZero) + Count(s.tasks, IsReturningZero)
  }

  /** They are also the initial one and one for each read of 0.0.0 that was stored. */
  ghost predicate ZeroRead(s: State) {
    Count(s.order, IsSentinel) + Count(s.tasks, IsStoringZero) == 1 + Count(s.log, IsReadOfZero)
  }

  lemma ZeroAnsweredStep(e: Endian, s: State, step: Step)
    requires Enabled(s, step) && ZeroAnswered(s)
    ensures ZeroAnswered(Do(e, s, step))
  {
    CountOrder(e, s, step, IsSentinel);
    CountLog(e, s, step, IsAnswerOfZero);
    if step.Spawn? {
      CountSnoc(s.tasks, Task(Idle, 0), IsReturningZero);
    } else {
      CountStep(e, s, step, IsReturningZero);
      if step.Return? {
        var word := s.tasks[step.task].phase.word;
        ToFromU32(e, word);
        OnlyZeroPacksToZero(e, FromU32(e, word));
      }
    }
  }

  lemma ZeroReadStep(e: Endian, s: State, step: Step)
    requires Enabled(s, step) && ZeroRead(s)
    ensures ZeroRead(Do(e, s, step))
  {
    CountOrder(e, s, step, IsSentinel);
    CountLog(e, s, step, IsReadOfZero);
    if step.Spawn? {
      CountSnoc(s.tasks, Task(Idle, 0), IsStoringZero);
    } else {
      CountStep(e, s, step, IsStoringZero);
      if step.ReadSucceeds? {
        OnlyZeroPacksToZero(e, step.version);
      }
    }
  }

  lemma OneSentinel()
    ensures ZeroAnswered(INIT) && ZeroRead(INIT)
  {
    assert Count([SENTINEL], IsSentinel) == Count([SENTINEL][..0], IsSentinel) + 1;
  }

  /**
   Version 0.0.0 is never served from the cache, whatever other versions are read: in every
   reachable state the sentinels stored answer exactly the calls that return it, one read each, so
   answers of 0.0.0 never exceed successful reads of it.
   */
  lemma {:induction false} ZeroIsNeverCached(e: Endian, steps: seq<Step>, s: State)
    requires Run(e, steps) == Some(s)
    ensures Count(s.order, IsSentinel) == 1 + Count(s.log, IsAnswerOfZero) + Count(s.tasks, IsReturningZero)
    ensures Count(s.order, IsSentinel) + Count(s.tasks, IsStoringZero) == 1 + Count(s.log, IsReadOfZero)
    ensures Count(s.log, IsAnswerOfZero) <= Count(s.log, IsReadOfZero)
  {
    if steps == [] {
      OneSentinel();
    } else {
      var before := Run(e, steps[..|steps| - 1]).value;
      ZeroIsNeverCached(e, steps[..|steps| - 1], before);
      ZeroAnsweredStep(e, before, steps[|steps| - 1]);
      ZeroReadStep(e, before, steps[|steps| - 1]);
      assert ZeroAnswered(s) && ZeroRead(s);
    }
  }

  /**
   Every successful read by a task uses up one sentinel at or before its view: the task loaded
   that sentinel, and its own store then moved its view past it.
   */
  ghost predicate ReadsPaid(s: State, t: nat)
    requires t < |s.tasks|
  {
    var task := s.tasks[t];
    && task.view < |s.order|
    && (task.phase.Reading? || task.phase.Storing? ==> s.order[task.view] == SENTINEL)
    && ReadsBy(t, s.log) <= Count(s.order[..task.view], IsSentinel) + (if task.phase.Storing? then 1 else 0)
  }

  ghost predicate AllPaid(s: State) {
    && |s.order| > 0
    && (forall t | 0 <= t < |s.tasks| :: ReadsPaid(s, t))
    && (forall i | 0 <= i < |s.log| && s.log[i].ReadOk? :: s.log[i].task < |s.tasks|)
  }

  lemma CountPrefix<T>(s: seq<T>, n: nat, m: nat, p: T -> bool)
    requires n <= m <= |s|
    ensures Count(s[..n], p) <= Count(s[..m], p)
  {
    assert s[..m] == s[..n] + s[n..m];
    CountAppend(s[..n], s[n..m], p);
  }

  /** Inserting an entry removes none from before any view, and moves none past one. */
  lemma PaidAfterInsert(order: seq<Word>, at: nat, word: Word, view: nat)
    requires at <= |order| && view < |order|
    ensures var order' := order[..at] + [word] + order[at..];
            var view' := if view >= at then view + 1 else view;
            && order'[view'] == order[view]
            && Count(order[..view], IsSentinel) <= Count(order'[..view'], IsSentinel)
  {
    var order' := order[..at] + [word] + order[at..];
    if view >= at {
      assert order[..view] == order[..at] + order[at..view];
      assert order'[..view + 1] == order[..at] + [word] + order[at..view];
      CountAppend(order[..at], order[at..view], IsSentinel);
      CountAppend(order[..at] + [word], order[at..view], IsSentinel);
      CountSnoc(order[..at], word, IsSentinel);
    } else {
      assert order'[..view] == order[..view];
    }
  }

  lemma PaidByStore(e: Endian, s: State, t: nat, at: nat)
    requires AllPaid(s) && Enabled(s, Store(t, at))
    ensures ReadsPaid(Do(e, s, Store(t, at)), t)
  {
    var s', view := Do(e, s, Store(t, at)), s.tasks[t].view;
    assert ReadsPaid(s, t);
    assert s'.order[..at] == s.order[..at];
    CountPrefix(s.order, view + 1, at, IsSentinel);
    assert s.order[..view + 1] == s.order[..view] + [s.order[view]];
    CountSnoc(s.order[..view], s.order[view], IsSentinel);
  }

  lemma PaidOther(e: Endian, s: State, step: Step, t: nat)
    requires Enabled(s, step) && AllPaid(s) && t < |s.tasks| && (step.Spawn? || step.task != t)
    ensures ReadsPaid(Do(e, s, step), t)
  {
    assert ReadsPaid(s, t);
    ReadsByStep(e, s, step, t);
    if step.Store? {
      PaidAfterInsert(s.order, step.at, s.tasks[step.task].phase.word, s.tasks[t].view);
    }
  }

  lemma PaidOwn(e: Endian, s: State, step: Step)
    requires Enabled(s, step) && AllPaid(s) && !step.Spawn?
    ensures ReadsPaid(Do(e, s, step), step.task)
  {
    var t := step.task;
    assert ReadsPaid(s, t);
    ReadsByStep(e, s, step, t);
    if step.Load? {
      CountPrefix(s.order, s.tasks[t].view, step.at, IsSentinel);
    } else if step.Store? {
      PaidByStore(e, s, t, step.at);
    }
  }

  lemma PaidStep(e: Endian, s: State, step: Step, t: nat)
    requires Enabled(s, step) && AllPaid(s) && t < |Do(e, s, step).tasks|
    ensures ReadsPaid(Do(e, s, step), t)
  {
    if t == |s.tasks| {
      NoReadsBy(t, s.log);
    } else if step.Spawn? || step.task != t {
      PaidOther(e, s, step, t);
    } else {
      PaidOwn(e, s, step);
    }
  }

  lemma ReadersKnown(e: Endian, s: State, step: Step)
    requires Enabled(s, step)
    requires forall i | 0 <= i < |s.log| && s.log[i].ReadOk? :: s.log[i].task < |s.tasks|
    ensures var s' := Do(e, s, step);
            forall i | 0 <= i < |s'.log| && s'.log[i].ReadOk? :: s'.log[i].task < |s'.tasks|
  {
  }

  lemma {:induction false} ReadsPaidRun(e: Endian, steps: seq<Step>, s: State)
    requires Run(e, steps) == Some(s)
    ensures AllPaid(s)
  {
    if steps != [] {
      var before, step := Run(e, steps[..|steps| - 1]).value, steps[|steps| - 1];
      ReadsPaidRun(e, steps[..|steps| - 1], before);
      forall t | 0 <= t < |s.tasks|
        ensures ReadsPaid(s, t)
      {
        PaidStep(e, before, step, t);
      }
      ReadersKnown(e, before, step);
    }
  }

  /**
   The economy of the cache with 0.0.0 among the versions read: no task reads the file
   successfully more often than once plus the number of reads of 0.0.0 by anyone.
   */
  lemma ReadsBounded(e: Endian, steps: seq<Step>, s: State, t: nat)
    requires Run(e, steps) == Some(s) && t < |s.tasks|
    ensures ReadsBy(t, s.log) <= 1 + Count(s.log, IsReadOfZero)
  {
    ReadsPaidRun(e, steps, s);
    assert ReadsPaid(s, t);
    var view := s.tasks[t].view;
    assert s.order[..view + 1] == s.order[..view] + [s.order[view]];
    CountSnoc(s.order[..view], s.order[view], IsSentinel);
    CountPrefix(s.order, view + 1, |s.order|, IsSentinel);
    assert s.order[..|s.order|] == s.order;
    ZeroIsNeverCached(e, steps, s);
  }

  // ----- Different roots -----

  /**
   What one undisturbed call does: `word` is the atomic's value and `read` the outcome of reading
   the release file, which is consulted only if the word is the sentinel.
   */
  function CachedOutcome(e: Endian, word: Word, read: Option<Version>): (Word, Option<Version>) {
    if word != SENTINEL then (word, Some(FromU32(e, word)))
    else match read
      case Some(v) => (ToU32(e, v), Some(FromU32(e, ToU32(e, v))))
      case None => (word, None)
  }

  /** The events that end a call of `cached`; a call that is dropped has no outcome. */
  predicate EndsCall(event: Event) {
    event.Returned? || event.ReadFailed?
  }

  /** What the caller learns about the version. */
  function Learned(event: Event): Option<Version> {
    if event.Returned? then Some(event.version) else None
  }

  /**
   What the outcome means. A version that is cached is answered whole and not read again; a version
   that is read is answered and packed into the word; without either, the word stays unset.
   */
  lemma CachedExact(e: Endian, word: Word, read: Option<Version>, v: Version)
    ensures CachedOutcome(e, word, read).1 == Some(v) <==>
            (word != 0 && ToU32(e, v) == word) || (word == 0 && read == Some(v))
    ensures CachedOutcome(e, word, read).1 == None <==> word == 0 && read == None
    ensures CachedOutcome(e, word, read).1 == Some(v) ==> CachedOutcome(e, word, read).0 == ToU32(e, v)
    ensures CachedOutcome(e, word, read).1 == None ==> CachedOutcome(e, word, read).0 == 0
  {
    ToFromU32(e, word);
    FromToU32(e, v);
    if word == 0 && read.Some? {
      FromToU32(e, read.value);
    }
  }

  /** Task `t` is idle and has seen the latest store. */
  predicate UpToDate(s: State, t: nat) {
    t < |s.tasks| && s.tasks[t].phase.Idle? && |s.order| > 0 && s.tasks[t].view == |s.order| - 1
  }

  function Latest(s: State): Word
    requires |s.order| > 0
  {
    s.order[|s.order| - 1]
  }

  /** The events that an undisturbed call adds. */
  function CallEvents(e: Endian, word: Word, t: nat, root: nat, read: Option<Version>): seq<Event> {
    if word != SENTINEL then [Returned(t, root, FromU32(e, word))]
    else match read
      case Some(v) => [ReadOk(t, root, v)] + [Returned(t, root, v)]
      case None => [ReadFailed(t, root)]
  }

  /** The machine has that undisturbed call among its runs. */
  lemma SoloCall(e: Endian, steps: seq<Step>, s: State, t: nat, root: nat, read: Option<Version>)
    returns (steps': seq<Step>, s': State)
    requires Run(e, steps) == Some(s) && UpToDate(s, t)
    ensures Run(e, steps') == Some(s') && UpToDate(s', t)
    ensures Latest(s') == CachedOutcome(e, Latest(s), read).0
    ensures s'.log == s.log + CallEvents(e, Latest(s), t, root, read)
    ensures s'.log != []
    ensures var last := s'.log[|s'.log| - 1];
            && EndsCall(last) && last.task == t && last.root == root
            && Learned(last) == CachedOutcome(e, Latest(s), read).1
  {
    steps', s' := SoloRun(e, steps, s, t, root, read);
    LastEvent(e, Latest(s), t, root, read);
    var events := CallEvents(e, Latest(s), t, root, read);
    assert s'.log[|s'.log| - 1] == events[|events| - 1];
  }

  /** The last event tells the caller the outcome. */
  lemma LastEvent(e: Endian, word: Word, t: nat, root: nat, read: Option<Version>)
    ensures var events := CallEvents(e, word, t, root, read);
            && events != [] && EndsCall(events[|events| - 1])
            && events[|events| - 1].task == t && events[|events| - 1].root == root
            && Learned(events[|events| - 1]) == CachedOutcome(e, word, read).1
  {
    if read.Some? {
      FromToU32(e, read.value);
    }
  }

  lemma SoloRun(e: Endian, steps: seq<Step>, s: State, t: nat, root: nat, read: Option<Version>)
    returns (steps': seq<Step>, s': State)
    requires Run(e, steps) == Some(s) && UpToDate(s, t)
    ensures Run(e, steps') == Some(s') && UpToDate(s', t)
    ensures Latest(s') == CachedOutcome(e, Latest(s), read).0
    ensures s'.log == s.log + CallEvents(e, Latest(s), t, root, read)
  {
    if Latest(s) != SENTINEL {
      steps', s' := SoloHit(e, steps, s, t, root);
    } else {
      steps', s' := SoloMiss(e, steps, s, t, root);
      if read == None {
        steps', s' := Extend(e, steps', s', ReadFails(t));
      } else {
        steps', s' := SoloFill(e, steps', s', t, root, read.value);
      }
    }
  }

  lemma SoloHit(e: Endian, steps: seq<Step>, s: State, t: nat, root: nat)
    returns (steps': seq<Step>, s': State)
    requires Run(e, steps) == Some(s) && UpToDate(s, t) && Latest(s) != SENTINEL
    ensures Run(e, steps') == Some(s') && UpToDate(s', t) && s'.order == s.order
    ensures s'.log == s.log + [Returned(t, root, FromU32(e, Latest(s)))]
  {
    steps', s' := HitAt(e, steps, s, t, root, |s.order| - 1);
  }

  lemma SoloMiss(e: Endian, steps: seq<Step>, s: State, t: nat, root: nat)
    returns (steps': seq<Step>, s': State)
    requires Run(e, steps) == Some(s) && UpToDate(s, t) && Latest(s) == SENTINEL
    ensures Run(e, steps') == Some(s') && s'.order == s.order && s'.log == s.log
    ensures t < |s'.tasks| && s'.tasks[t] == Task(Reading(root), |s.order| - 1)
  {
    steps', s' := Extend(e, steps, s, Call(t, root));
    steps', s' := Extend(e, steps', s', Load(t, |s.order| - 1));
  }

  lemma SoloFill(e: Endian, steps: seq<Step>, s: State, t: nat, root: nat, v: Version)
    returns (steps': seq<Step>, s': State)
    requires Run(e, steps) == Some(s) && t < |s.tasks|
    requires s.tasks[t].phase == Reading(root) && |s.order| > 0 && s.tasks[t].view == |s.order| - 1
    ensures Run(e, steps') == Some(s') && UpToDate(s', t)
    ensures Latest(s') == ToU32(e, v)
    ensures s'.log == s.log + ([ReadOk(t, root, v)] + [Returned(t, root, v)])
  {
    steps', s' := Extend(e, steps, s, ReadSucceeds(t, v));
    steps', s' := Extend(e, steps', s', Store(t, |s.order|));
    assert s'.order == s.order + [ToU32(e, v)];
    steps', s' := Extend(e, steps', s', Return(t));
    FromToU32(e, v);
  }

  lemma Extend(e: Endian, steps: seq<Step>, s: State, step: Step) returns (steps': seq<Step>, s': State)
    requires Run(e, steps) == Some(s) && Enabled(s, step)
    ensures Run(e, steps') == Some(s') && s' == Do(e, s, step)
  {
    RunSnoc(e, steps, s, step);
    steps', s' := steps + [step], Do(e, s, step);
  }

  /** What the release file holds under each root, or `None` where reading it fails. */
  type World = nat -> Option<Version>

  /** All reads in the log went as the world says, except that reads of flaky roots may fail at any time. */
  ghost predicate Conforms(world: World, flaky: nat -> bool, log: seq<Event>) {
    && (forall i | 0 <= i < |log| && log[i].ReadOk? :: world(log[i].root) == Some(log[i].version))
    && (forall i | 0 <= i < |log| && log[i].ReadFailed? :: world(log[i].root) == None || flaky(log[i].root))
  }

  /** Every version returned is the one the caller's own root holds. */
  ghost predicate Faithful(world: World, log: seq<Event>) {
    forall i | 0 <= i < |log| && log[i].Returned? :: world(log[i].root) == Some(log[i].version)
  }

  /** A version other than 0.0.0 under one root is the version under every root. */
  ghost predicate OneVersion(world: World) {
    forall r1, r2 :: world(r1).Some? && world(r1).value != ZERO ==> world(r2) == world(r1)
  }

  lemma FaithfulIfOneVersion(e: Endian, world: World, flaky: nat -> bool, steps: seq<Step>, s: State)
    requires OneVersion(world)
    requires Run(e, steps) == Some(s) && Conforms(world, flaky, s.log)
    ensures Faithful(world, s.log)
  {
    CacheProvenance(e, steps, s);
    forall i | 0 <= i < |s.log| && s.log[i].Returned?
      ensures world(s.log[i].root) == Some(s.log[i].version)
    {
      var root, v := s.log[i].root, s.log[i].version;
      assert Justified(s.log, i, root, v);
      var j :| j < i && Source(s.log, j, v) && (v == ZERO ==> s.log[j].root == root);
      assert world(s.log[j].root) == Some(v);
    }
  }

  /** One call answered from its own file. */
  lemma FreshRun(e: Endian, root: nat, v: Version) returns (steps: seq<Step>, s: State)
    ensures Run(e, steps) == Some(s) && UpToDate(s, 0) && Latest(s) == ToU32(e, v)
    ensures s.log == [ReadOk(0, root, v), Returned(0, root, v)]
  {
    steps, s := Extend(e, [], INIT, Spawn);
    steps, s := SoloCall(e, steps, s, 0, root, Some(v));
  }

  /** A call on one root fills the cache, and a call on any root then gets its version. */
  lemma CrossRun(e: Endian, r1: nat, v: Version, r2: nat) returns (steps: seq<Step>, s: State)
    requires v != ZERO
    ensures Run(e, steps) == Some(s)
    ensures s.log == [ReadOk(0, r1, v), Returned(0, r1, v), Returned(0, r2, v)]
  {
    steps, s := FreshRun(e, r1, v);
    OnlyZeroPacksToZero(e, v);
    FromToU32(e, v);
    steps, s := SoloCall(e, steps, s, 0, r2, None);
  }

  /**
   How weak the word's guarantees are: after one caller got its answer, another may still load the
   unset word, read its own file, have its store ordered before the first one, and only on its next
   call get the first caller's version. Meanwhile a call that is dropped adds nothing.
   */
  lemma RelaxedRun(e: Endian, r1: nat, v1: Version, r2: nat, v2: Version, r3: nat)
    returns (steps: seq<Step>, s: State)
    requires v1 != ZERO
    ensures Run(e, steps) == Some(s)
    ensures s.log == [Dropped(1, r2), ReadOk(0, r1, v1), Returned(0, r1, v1),
                      ReadOk(1, r2, v2), Returned(1, r2, v2), Returned(1, r3, v1)]
    ensures s.order == [SENTINEL, ToU32(e, v2), ToU32(e, v1)]
  {
    steps, s := DroppedRun(e, r2);
    steps, s := FillAt(e, steps, s, 0, r1, v1, 1);
    TwoShifted(Task(Idle, 0), 0, Task(Idle, 1), 1);
    assert s == State([SENTINEL, ToU32(e, v1)], [Task(Idle, 1), Task(Idle, 0)], s.log);
    steps, s := FillThenHit(e, steps, s, v1, r2, v2, r3);
  }

  lemma TwoShifted(idle: Task, t: nat, done: Task, at: nat)
    requires t < 2 && idle == Task(Idle, 0) && at > 0
    ensures ShiftAll([idle, idle], at)[t := done] == [idle, idle][t := done]
  {
  }

  lemma FillThenHit(e: Endian, steps: seq<Step>, s: State, v1: Version, r2: nat, v2: Version, r3: nat)
    returns (steps': seq<Step>, s': State)
    requires Run(e, steps) == Some(s) && v1 != ZERO
    requires s.order == [SENTINEL, ToU32(e, v1)] && s.tasks == [Task(Idle, 1), Task(Idle, 0)]
    ensures Run(e, steps') == Some(s') && s'.order == [SENTINEL, ToU32(e, v2), ToU32(e, v1)]
    ensures s'.log == s.log + [ReadOk(1, r2, v2), Returned(1, r2, v2), Returned(1, r3, v1)]
  {
    OnlyZeroPacksToZero(e, v1);
    FromToU32(e, v1);
    steps', s' := FillAt(e, steps, s, 1, r2, v2, 1);
    assert s'.order == [SENTINEL, ToU32(e, v2), ToU32(e, v1)];
    steps', s' := HitAt(e, steps', s', 1, r3, 2);
  }

  lemma DroppedRun(e: Endian, root: nat) returns (steps: seq<Step>, s: State)
    ensures Run(e, steps) == Some(s)
    ensures s == State([SENTINEL], [Task(Idle, 0), Task(Idle, 0)], [Dropped(1, root)])
  {
    steps, s := Extend(e, [], INIT, Spawn);
    steps, s := Extend(e, steps, s, Spawn);
    assert s == State([SENTINEL], [Task(Idle, 0), Task(Idle, 0)], []);
    steps, s := Extend(e, steps, s, Call(1, root));
    steps, s := Extend(e, steps, s, Load(1, 0));
    steps, s := Extend(e, steps, s, Drop(1));
  }

  /** A call that loads the initial word and has its store placed at `at`. */
  lemma FillAt(e: Endian, steps: seq<Step>, s: State, t: nat, root: nat, v: Version, at: nat)
    returns (steps': seq<Step>, s': State)
    requires Run(e, steps) == Some(s) && t < |s.tasks| && s.tasks[t] == Task(Idle, 0)
    requires 0 < at <= |s.order| && s.order[0] == SENTINEL
    ensures Run(e, steps') == Some(s')
    ensures s'.order == s.order[..at] + [ToU32(e, v)] + s.order[at..]
    ensures s'.tasks == ShiftAll(s.tasks, at)[t := Task(Idle, at)]
    ensures s'.log == s.log + [ReadOk(t, root, v)] + [Returned(t, root, v)]
  {
    steps', s' := Extend(e, steps, s, Call(t, root));
    steps', s' := Extend(e, steps', s', Load(t, 0));
    steps', s' := Extend(e, steps', s', ReadSucceeds(t, v));
    assert s' == State(s.order, s.tasks[t := Task(Storing(root, ToU32(e, v)), 0)], s.log + [ReadOk(t, root, v)]);
    steps', s' := Extend(e, steps', s', Store(t, at));
    FromToU32(e, v);
    steps', s' := Extend(e, steps', s', Return(t));
  }

  lemma {:induction false} SpawnMany(e: Endian, n: nat) returns (steps: seq<Step>, s: State)
    ensures Run(e, steps) == Some(s) && s.order == [SENTINEL] && s.log == []
    ensures |s.tasks| == n && forall t | 0 <= t < n :: s.tasks[t] == Task(Idle, 0)
  {
    if n == 0 {
      steps, s := [], INIT;
    } else {
      steps, s := SpawnMany(e, n - 1);
      steps, s := Extend(e, steps, s, Spawn);
    }
  }

  lemma {:induction false} FirstFill(e: Endian, n: nat, root: nat, v: Version, k: nat)
    returns (steps: seq<Step>, s: State)
    requires k <= n
    ensures Run(e, steps) == Some(s) && |s.order| == k + 1 && s.order[0] == SENTINEL
    ensures |s.tasks| == n && forall t | k <= t < n :: s.tasks[t] == Task(Idle, 0)
    ensures Count(s.log, IsReadOk) == k
    ensures forall i | 0 <= i < |s.log| && s.log[i].ReadOk? :: s.log[i].version == v
  {
    if k == 0 {
      steps, s := SpawnMany(e, n);
    } else {
      var log;
      steps, s := FirstFill(e, n, root, v, k - 1);
      log := s.log;
      steps, s := FillAt(e, steps, s, k - 1, root, v, |s.order|);
      CountSnoc(log, ReadOk(k - 1, root, v), IsReadOk);
      CountSnoc(log + [ReadOk(k - 1, root, v)], Returned(k - 1, root, v), IsReadOk);
    }
  }

  /**
   The bounds of `CacheEconomy` are reached: any number of callers may all read the file and store,
   if each loads the word before it has seen a store.
   */
  lemma EconomyIsTight(e: Endian, n: nat, v: Version) returns (steps: seq<Step>, s: State)
    requires v != ZERO
    ensures Run(e, steps) == Some(s) && NonZeroReads(s.log)
    ensures |s.tasks| == |s.order| - 1 == Count(s.log, IsReadOk) == n
  {
    steps, s := FirstFill(e, n, 0, v, n);
  }

  /** A call that loads the word at `at` and answers with it. */
  lemma HitAt(e: Endian, steps: seq<Step>, s: State, t: nat, root: nat, at: nat)
    returns (steps': seq<Step>, s': State)
    requires Run(e, steps) == Some(s) && t < |s.tasks| && s.tasks[t].phase.Idle?
    requires s.tasks[t].view <= at < |s.order| && s.order[at] != SENTINEL
    ensures Run(e, steps') == Some(s') && s'.order == s.order
    ensures t < |s'.tasks| && s'.tasks[t] == Task(Idle, at)
    ensures s'.log == s.log + [Returned(t, root, FromU32(e, s.order[at]))]
  {
    steps', s' := Extend(e, steps, s, Call(t, root));
    steps', s' := Extend(e, steps', s', Load(t, at));
    steps', s' := Extend(e, steps', s', Return(t));
  }

  /** Two roots that differ: some call gets the other root's version. */
  lemma UnfaithfulRun(e: Endian, world: World, flaky: nat -> bool, r1: nat, r2: nat)
    returns (steps: seq<Step>, s: State)
    requires world(r1).Some? && world(r1).value != ZERO && world(r2) != world(r1)
    ensures Run(e, steps) == Some(s) && Conforms(world, flaky, s.log) && !Faithful(world, s.log)
  {
    steps, s := CrossRun(e, r1, world(r1).value, r2);
    assert s.log[2].Returned?;
  }

  /**
   The cache is shared by all roots, so it answers for the caller's own root over all runs exactly
   if no two roots disagree on a version other than 0.0.0.
   */
  lemma FaithfulIffOneVersion(e: Endian, world: World, flaky: nat -> bool)
    ensures (forall steps, s :: Run(e, steps) == Some(s) && Conforms(world, flaky, s.log) ==>
               Faithful(world, s.log)) <==> OneVersion(world)
  {
    if OneVersion(world) {
      forall steps, s | Run(e, steps) == Some(s) && Conforms(world, flaky, s.log)
        ensures Faithful(world, s.log)
      {
        FaithfulIfOneVersion(e, world, flaky, steps, s);
      }
    } else {
      var r1, r2 :| world(r1).Some? && world(r1).value != ZERO && world(r2) != world(r1);
      var steps, s := UnfaithfulRun(e, world, flaky, r1, r2);
    }
  }
}
