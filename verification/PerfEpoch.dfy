/**
 Collecting timing samples while hooks run.

 A block has one record of statistics for each thread. A caller reads hook->perf_data inside its
 epoch section and logs into its own record of the block it found. The reporter stores a pointer
 to a fresh block, waits for every section that was active, and then merges the records of the
 old block into a report and frees it. Each of these is a step of its own. When no memory is found for a
 fresh block, NULL is stored, and the process faults when it is written to or merged.
 */
module PerfEpoch {
  import opened Perf

  const THREADS: nat := 32
  const NULL: nat := 0

  datatype Reporter = Idle | Swapped(block: nat) | Waiting(block: nat, active: set<nat>)

  datatype State = State(
    blocks: map<nat, seq<Stats>>, // allocated blocks, each with the records of all threads
    perfData: nat,                // hook->perf_data
    faulted: bool,
    inside: set<nat>,             // callers in a section
    holding: map<nat, nat>,       // callers that have read perf_data, and what they found
    reporter: Reporter,
    reports: seq<Stats>,          // the reports made
    // history
    logged: seq<nat>,             // every time logged, in order
    times: map<nat, seq<nat>>,    // those logged into each block
    collected: seq<seq<nat>>)     // those of the block of each report

  datatype Step =
    | Begin(t: nat)
    | Load(t: nat)
    | LogSample(t: nat, time: nat)
    | End(t: nat)
    | Swap(block: nat)            // NULL when no memory is found
    | Barrier
    | Collect

  // A block from calloc.
  function NewBlock(): seq<Stats> {
    seq(THREADS, _ => Empty())
  }

  function Init(block: nat): State {
    State(map[block := NewBlock()], block, false, {}, map[], Idle, [], [], map[block := []], [])
  }

  predicate CanDo(s: State, step: Step) {
    !s.faulted &&
    match step
    case Begin(t) => t !in s.inside && t < THREADS
    case Load(t) => t in s.inside && t !in s.holding
    case LogSample(t, time) => t in s.holding
    case End(t) => t in s.inside
    case Swap(block) => s.reporter.Idle? && (block != NULL ==> block !in s.blocks)
    case Barrier => s.reporter.Swapped?
    case Collect => s.reporter.Waiting? && s.reporter.active == {}
  }

  function Times(s: State, block: nat): seq<nat> {
    if block in s.times then s.times[block] else []
  }

  function Records(s: State, block: nat): seq<Stats> {
    if block in s.blocks then s.blocks[block] else []
  }

  // _jbpf_perf_log into a thread's own record.
  function LogInto(block: seq<Stats>, t: nat, time: nat): seq<Stats> {
    if t < |block| && Wf(block[t]) then block[t := Log(block[t], time)] else block
  }

  // The merging loops of jbpf_report_perf_stats.
  function Merged(block: seq<Stats>): Stats {
    if forall i :: 0 <= i < |block| ==> Wf(block[i]) then MergeAll(block) else Empty()
  }

  function Do(s: State, step: Step): State
    requires CanDo(s, step)
  {
    match step
    case Begin(t) => s.(inside := s.inside + {t})
    case Load(t) => s.(holding := s.holding[t := s.perfData])
    case LogSample(t, time) =>
      // nothing is done for a time of 0 without a block; a time written into a freed block is lost
      var b := s.holding[t];
      if b == NULL then s.(faulted := time > 0)
      else if b !in s.blocks then s.(logged := s.logged + [time])
      else s.(logged := s.logged + [time], blocks := s.blocks[b := LogInto(s.blocks[b], t, time)],
              times := s.times[b := Times(s, b) + [time]])
    case End(t) =>
      s.(inside := s.inside - {t}, holding := s.holding - {t},
         reporter := if s.reporter.Waiting? then s.reporter.(active := s.reporter.active - {t}) else s.reporter)
    case Swap(block) =>
      if block == NULL then s.(perfData := NULL, reporter := Swapped(s.perfData))
      else
        s.(blocks := s.blocks[block := NewBlock()], times := s.times[block := []], perfData := block,
           reporter := Swapped(s.perfData))
    case Barrier => s.(reporter := Waiting(s.reporter.block, s.inside))
    case Collect =>
      var b := s.reporter.block;
      if b == NULL then s.(faulted := true)
      else
        s.(reports := s.reports + [Merged(Records(s, b))], collected := s.collected + [Times(s, b)],
           blocks := s.blocks - {b}, times := s.times - {b}, reporter := Idle)
  }

  predicate LegalRun(s: State, run: seq<Step>)
    decreases |run|
  {
    run == [] || (CanDo(s, run[0]) && LegalRun(Do(s, run[0]), run[1..]))
  }

  function After(s: State, run: seq<Step>): State
    requires LegalRun(s, run)
    decreases |run|
  {
    if run == [] then s else After(Do(s, run[0]), run[1..])
  }

  // ---------- the invariant ----------

  // The block being collected.
  function Old(s: State): set<nat> {
    if s.reporter.Idle? then {} else {s.reporter.block}
  }

  function Pending(s: State): multiset<nat> {
    multiset(Times(s, s.perfData)) + (if s.reporter.Idle? then multiset{} else multiset(Times(s, s.reporter.block)))
  }

  function Reported(collected: seq<seq<nat>>): multiset<nat> {
    if collected == [] then multiset{}
      else Reported(collected[..|collected| - 1]) + multiset(collected[|collected| - 1])
  }

  // The records of a block together are the log of the times logged into it.
  ghost predicate Summarises(block: seq<Stats>, times: seq<nat>) {
    |block| == THREADS && (forall i :: 0 <= i < THREADS ==> Wf(block[i])) && MergeAll(block) == LogAll(times)
  }

  ghost predicate RecordsOk(s: State) {
    && s.times.Keys == s.blocks.Keys && (forall b :: b in s.blocks ==> Summarises(s.blocks[b], s.times[b]))
    && |s.reports| == |s.collected| && (forall i :: 0 <= i < |s.reports| ==> s.reports[i] == LogAll(s.collected[i]))
  }

  ghost predicate BlocksOk(s: State) {
    && s.blocks.Keys == {s.perfData} + Old(s) - {NULL} && NULL !in s.blocks
    && (s.perfData in Old(s) ==> s.perfData == NULL)
  }

  ghost predicate HoldersOk(s: State) {
    && s.holding.Keys <= s.inside && (forall t :: t in s.inside ==> t < THREADS)
    && (s.reporter.Waiting? ==> s.reporter.active <= s.inside)
    && forall t :: t in s.holding ==>
         s.holding[t] == s.perfData
         || (!s.reporter.Idle? && s.holding[t] == s.reporter.block && (s.reporter.Waiting? ==> t in s.reporter.active))
  }

  ghost predicate Inv(s: State) {
    BlocksOk(s) && HoldersOk(s) && RecordsOk(s) && multiset(s.logged) == Reported(s.collected) + Pending(s)
  }

  // Logging into any one of the merged parts is logging into the whole.
  lemma MergeLogFirst(a: Stats, b: Stats, t: nat)
    requires Wf(a) && Wf(b)
    ensures Log(Merge(a, b), t) == Merge(Log(a, t), b)
  {
    if t > 0 { assert Log(Merge(a, b), t).hist == Merge(Log(a, t), b).hist; }
  }

  lemma MergeAllLast(before: seq<Stats>, last: Stats)
    requires Wf(last) && forall i :: 0 <= i < |before| ==> Wf(before[i])
    ensures MergeAll(before + [last]) == Merge(MergeAll(before), last)
  {
    assert (before + [last])[..|before|] == before;
  }

  lemma {:induction false} LogIntoOne(parts: seq<Stats>, t: nat, time: nat)
    requires t < |parts| && forall i :: 0 <= i < |parts| ==> Wf(parts[i])
    ensures MergeAll(parts[t := Log(parts[t], time)]) == Log(MergeAll(parts), time)
  {
    var n := |parts| - 1;
    var before, last := parts[..n], parts[n];
    assert parts == before + [last];
    MergeAllLast(before, last);
    if t == n {
      assert parts[t := Log(parts[t], time)] == before + [Log(last, time)];
      MergeAllLast(before, Log(last, time));
      MergeLog(MergeAll(before), last, time);
    } else {
      var before' := before[t := Log(before[t], time)];
      assert parts[t := Log(parts[t], time)] == before' + [last];
      MergeAllLast(before', last);
      LogIntoOne(before, t, time);
      MergeLogFirst(MergeAll(before), last, time);
    }
  }

  lemma LogSummarises(block: seq<Stats>, times: seq<nat>, t: nat, time: nat)
    requires Summarises(block, times) && t < THREADS
    ensures Summarises(LogInto(block, t, time), times + [time])
  {
    LogIntoOne(block, t, time);
    assert (times + [time])[..|times|] == times;
  }

  lemma {:induction false} MergeEmpty(n: nat)
    ensures MergeAll(seq(n, _ => Empty())) == Empty()
  {
    if n > 0 {
      var parts := seq(n, _ => Empty());
      assert parts[..n - 1] == seq(n - 1, _ => Empty());
      MergeEmpty(n - 1);
      MergeZero(Empty());
    }
  }

  lemma NewSummarises()
    ensures Summarises(NewBlock(), [])
  {
    MergeEmpty(THREADS);
  }

  lemma LogPending(s: State, t: nat, time: nat)
    requires BlocksOk(s) && HoldersOk(s) && s.times.Keys == s.blocks.Keys && CanDo(s, LogSample(t, time))
    requires s.holding[t] != NULL
    ensures s.holding[t] in s.blocks && Pending(Do(s, LogSample(t, time))) == Pending(s) + multiset{time}
  {
    var s', b := Do(s, LogSample(t, time)), s.holding[t];
    assert Times(s', b) == Times(s, b) + [time];
  }

  lemma LogRecords(s: State, s': State, b: nat, block: seq<Stats>, times: seq<nat>)
    requires RecordsOk(s) && b in s.blocks && Summarises(block, times) && s'.reports == s.reports
             && s'.collected == s.collected
    requires s'.blocks == s.blocks[b := block] && s'.times == s.times[b := times]
    ensures RecordsOk(s')
  {}

  lemma SameFrame(s: State, s': State)
    requires BlocksOk(s) && HoldersOk(s) && s'.blocks.Keys == s.blocks.Keys && s'.perfData == s.perfData
    requires s'.inside == s.inside && s'.holding == s.holding && s'.reporter == s.reporter
    ensures BlocksOk(s') && HoldersOk(s')
  {}

  lemma SumMore(a: multiset<nat>, r: multiset<nat>, p: multiset<nat>, p': multiset<nat>, x: nat)
    requires a == r + p && p' == p + multiset{x}
    ensures a + multiset{x} == r + p'
  {}

  lemma LogInv(s: State, s': State, b: nat, block: seq<Stats>, times: seq<nat>, time: nat)
    requires Inv(s) && b in s.blocks && Summarises(block, times) && s'.logged == s.logged + [time]
    requires s' == s.(logged := s'.logged, blocks := s.blocks[b := block], times := s.times[b := times])
    requires Pending(s') == Pending(s) + multiset{time}
    ensures Inv(s')
  {
    LogRecords(s, s', b, block, times);
    assert s'.blocks.Keys == s.blocks.Keys;
    SameFrame(s, s');
    SumMore(multiset(s.logged), Reported(s.collected), Pending(s), Pending(s'), time);
  }

  lemma SameInv(s: State, s': State)
    requires Inv(s) && s' == s.(faulted := s'.faulted)
    ensures Inv(s')
  {
    assert Pending(s') == Pending(s);
  }

  lemma LogKeeps(s: State, t: nat, time: nat)
    requires Inv(s) && CanDo(s, LogSample(t, time))
    ensures Inv(Do(s, LogSample(t, time)))
  {
    var b := s.holding[t];
    if b == NULL {
      SameInv(s, Do(s, LogSample(t, time)));
    } else {
      LogPending(s, t, time);
      LogSummarises(s.blocks[b], s.times[b], t, time);
      LogInv(s, Do(s, LogSample(t, time)), b, LogInto(s.blocks[b], t, time), s.times[b] + [time], time);
    }
  }

  lemma CollectRecords(s: State, s': State, b: nat)
    requires RecordsOk(s) && b in s.blocks
    requires s'.blocks == s.blocks - {b} && s'.times == s.times - {b}
    requires s'.reports == s.reports + [Merged(s.blocks[b])] && s'.collected == s.collected + [s.times[b]]
    ensures RecordsOk(s')
  {
    assert Summarises(s.blocks[b], s.times[b]);
  }

  lemma CollectFrame(s: State)
    requires BlocksOk(s) && HoldersOk(s) && CanDo(s, Collect) && s.reporter.block != NULL
    ensures s.reporter.block in s.blocks && BlocksOk(Do(s, Collect)) && HoldersOk(Do(s, Collect))
  {}

  lemma CollectPending(s: State, s': State, b: nat)
    requires s.reporter.Waiting? && s.reporter.block == b && s'.reporter.Idle? && s.perfData != b
             && s'.perfData == s.perfData
    requires b in s.times && s'.times == s.times - {b} && s'.collected == s.collected + [s.times[b]]
    ensures Reported(s'.collected) + Pending(s') == Reported(s.collected) + Pending(s)
  {
    assert s'.collected[..|s'.collected| - 1] == s.collected;
    assert Times(s', s.perfData) == Times(s, s.perfData);
  }

  lemma CollectKeeps(s: State)
    requires Inv(s) && CanDo(s, Collect)
    ensures Inv(Do(s, Collect))
  {
    var s', b := Do(s, Collect), s.reporter.block;
    if b == NULL {
      SameInv(s, s');
    } else {
      CollectFrame(s);
      CollectRecords(s, s', b);
      CollectPending(s, s', b);
    }
  }

  lemma SwapRecords(s: State, s': State, b: nat)
    requires RecordsOk(s) && b !in s.blocks && s'.reports == s.reports && s'.collected == s.collected
    requires s'.blocks == s.blocks[b := NewBlock()] && s'.times == s.times[b := []]
    ensures RecordsOk(s')
  {
    NewSummarises();
  }

  lemma SwapFrame(s: State, block: nat)
    requires BlocksOk(s) && HoldersOk(s) && CanDo(s, Swap(block)) && s.times.Keys == s.blocks.Keys
    ensures BlocksOk(Do(s, Swap(block))) && HoldersOk(Do(s, Swap(block)))
    ensures Pending(Do(s, Swap(block))) == Pending(s)
  {}

  lemma SwapKeeps(s: State, block: nat)
    requires Inv(s) && CanDo(s, Swap(block))
    ensures Inv(Do(s, Swap(block)))
  {
    SwapFrame(s, block);
    if block == NULL {
      SameRecords(s, Do(s, Swap(block)));
    } else {
      SwapRecords(s, Do(s, Swap(block)), block);
    }
  }

  lemma SameRecords(s: State, s': State)
    requires RecordsOk(s) && s'.blocks == s.blocks && s'.times == s.times && s'.reports == s.reports
             && s'.collected == s.collected
    ensures RecordsOk(s')
  {}

  lemma QuietFrame(s: State, step: Step)
    requires BlocksOk(s) && HoldersOk(s) && CanDo(s, step) && !step.LogSample? && !step.Collect? && !step.Swap?
    ensures BlocksOk(Do(s, step)) && HoldersOk(Do(s, step))
    ensures Pending(Do(s, step)) == Pending(s)
  {}

  // The steps that log and collect nothing.
  lemma QuietKeeps(s: State, step: Step)
    requires Inv(s) && CanDo(s, step) && !step.LogSample? && !step.Collect? && !step.Swap?
    ensures Inv(Do(s, step))
  {
    QuietFrame(s, step);
    SameRecords(s, Do(s, step));
  }

  lemma StepKeeps(s: State, step: Step)
    requires Inv(s) && CanDo(s, step)
    ensures Inv(Do(s, step))
  {
    match step
    case LogSample(t, time) => LogKeeps(s, t, time);
    case Collect => CollectKeeps(s);
    case Swap(block) => SwapKeeps(s, block);
    case _ => QuietKeeps(s, step);
  }

  lemma {:induction false} RunKeeps(s: State, run: seq<Step>)
    requires Inv(s) && LegalRun(s, run)
    ensures Inv(After(s, run))
    decreases |run|
  {
    if run != [] {
      StepKeeps(s, run[0]);
      RunKeeps(Do(s, run[0]), run[1..]);
    }
  }

  lemma InitInv(block: nat)
    requires block != NULL
    ensures Inv(Init(block))
  {
    NewSummarises();
  }

  /** Every time logged is in exactly one report or waits in one of the blocks still in use, counted with
      multiplicity, and each report is the log of its times in one stream, whichever threads logged them and in
      whatever order. */
  lemma EverySampleCountedOnce(block: nat, run: seq<Step>)
    requires block != NULL && LegalRun(Init(block), run)
    ensures var s := After(Init(block), run);
            && multiset(s.logged) == Reported(s.collected) + Pending(s)
            && |s.reports| == |s.collected|
            && forall i :: 0 <= i < |s.reports| ==> s.reports[i] == LogAll(s.collected[i])
  {
    InitInv(block);
    RunKeeps(Init(block), run);
  }

  /** A block is freed only when no caller can still log into it. */
  lemma NoLogIntoFreedBlock(block: nat, run: seq<Step>, t: nat)
    requires block != NULL && LegalRun(Init(block), run) && t in After(Init(block), run).holding
    ensures var s := After(Init(block), run); s.holding[t] in s.blocks <==> s.holding[t] != NULL
    ensures !OutOfMemory(run) ==> After(Init(block), run).holding[t] in After(Init(block), run).blocks
  {
    InitInv(block);
    RunKeeps(Init(block), run);
    NullIff(Init(block), run);
  }

  // ---------- without memory for a block ----------

  // Some swap of the run found no memory.
  ghost predicate OutOfMemory(run: seq<Step>) {
    exists i :: 0 <= i < |run| && run[i] == Swap(NULL)
  }

  // NULL is published or about to be merged.
  predicate Null(s: State) {
    s.perfData == NULL || NULL in Old(s)
  }

  // A caller holds NULL only while it is published or about to be merged.
  ghost predicate HeldNull(s: State) {
    forall t :: t in s.holding && s.holding[t] == NULL ==> Null(s)
  }

  // So NULL does not go away.
  lemma NullStep(s: State, step: Step)
    requires HeldNull(s) && CanDo(s, step)
    ensures HeldNull(Do(s, step))
    ensures Null(Do(s, step)) <==> Null(s) || step == Swap(NULL)
    ensures Do(s, step).faulted ==> Null(s)
  {}

  lemma OutOfMemoryCons(step: Step, rest: seq<Step>)
    ensures OutOfMemory([step] + rest) <==> step == Swap(NULL) || OutOfMemory(rest)
  {
    var run := [step] + rest;
    if i :| 0 <= i < |rest| && rest[i] == Swap(NULL) { assert run[i + 1] == Swap(NULL); }
    if step == Swap(NULL) { assert run[0] == Swap(NULL); }
  }

  lemma {:induction false} NullIff(s: State, run: seq<Step>)
    requires HeldNull(s) && LegalRun(s, run)
    ensures Null(After(s, run)) <==> Null(s) || OutOfMemory(run)
    ensures After(s, run).faulted && !s.faulted ==> Null(After(s, run))
    decreases |run|
  {
    if run != [] {
      NullStep(s, run[0]);
      NullIff(Do(s, run[0]), run[1..]);
      assert run == [run[0]] + run[1..];
      OutOfMemoryCons(run[0], run[1..]);
    }
  }

  // The process can fault from here although memory is found for all blocks from now on.
  ghost predicate CanFault(s: State) {
    exists more :: Faulting(s, more)
  }

  ghost predicate Faulting(s: State, more: seq<Step>) {
    LegalRun(s, more) && !OutOfMemory(more) && After(s, more).faulted
  }

  lemma FaultingCons(s: State, step: Step, rest: seq<Step>)
    requires CanDo(s, step) && step != Swap(NULL) && Faulting(Do(s, step), rest)
    ensures Faulting(s, [step] + rest)
  {
    assert ([step] + rest)[1..] == rest;
    OutOfMemoryCons(step, rest);
  }

  // A caller that logs through the NULL that is published.
  lemma LogFaults(s: State, t: nat) returns (more: seq<Step>)
    requires Inv(s) && !s.faulted && s.perfData == NULL && t !in s.inside && t < THREADS
    ensures Faulting(s, more)
  {
    var s1 := Do(s, Begin(t));
    var s2 := Do(s1, Load(t));
    var s3 := Do(s2, LogSample(t, 1));
    assert Faulting(s3, []);
    FaultingCons(s2, LogSample(t, 1), []);
    FaultingCons(s1, Load(t), [LogSample(t, 1)] + []);
    more := [Begin(t)] + ([Load(t)] + ([LogSample(t, 1)] + []));
    FaultingCons(s, Begin(t), [Load(t)] + ([LogSample(t, 1)] + []));
  }

  // A reporter that comes to merge NULL once the callers it waits for have left.
  lemma {:induction false} MergeFaults(s: State) returns (more: seq<Step>)
    requires Inv(s) && !s.faulted && s.reporter.Waiting? && s.reporter.block == NULL
    ensures Faulting(s, more)
    decreases s.reporter.active
  {
    var step, rest := Collect, [];
    if s.reporter.active == {} {
      assert Faulting(Do(s, Collect), []);
    } else {
      var t :| t in s.reporter.active;
      step := End(t);
      StepKeeps(s, step);
      rest := MergeFaults(Do(s, step));
    }
    more := [step] + rest;
    FaultingCons(s, step, rest);
  }

  lemma NullFaults(s: State) returns (more: seq<Step>)
    requires Inv(s) && !s.faulted && Null(s)
    ensures Faulting(s, more)
  {
    var step, rest := Barrier, [];
    if s.perfData == NULL {
      if 0 !in s.inside {
        more := LogFaults(s, 0);
        return;
      }
      step := End(0);
      StepKeeps(s, step);
      rest := LogFaults(Do(s, step), 0);
    } else if s.reporter.Waiting? {
      more := MergeFaults(s);
      return;
    } else {
      StepKeeps(s, step);
      rest := MergeFaults(Do(s, step));
    }
    more := [step] + rest;
    FaultingCons(s, step, rest);
  }

  /** As long as it has not faulted, a process can still fault while memory is found for all further blocks, exactly
      when some swap so far found none; and it has not faulted if each found some. */
  lemma CanFaultIff(block: nat, run: seq<Step>)
    requires block != NULL && LegalRun(Init(block), run)
    ensures !After(Init(block), run).faulted ==> (CanFault(After(Init(block), run)) <==> OutOfMemory(run))
    ensures After(Init(block), run).faulted ==> OutOfMemory(run)
  {
    InitInv(block);
    RunKeeps(Init(block), run);
    NullIff(Init(block), run);
    var s := After(Init(block), run);
    if !s.faulted {
      if OutOfMemory(run) {
        var more := NullFaults(s);
      } else if CanFault(s) {
        var more :| Faulting(s, more);
        NullIff(s, more);
      }
    }
  }

  // ---------- what a run logs and reports ----------

  function SampleOf(step: Step): seq<nat> {
    if step.LogSample? then [step.time] else []
  }

  // The times the steps of a run log.
  function Samples(run: seq<Step>): seq<nat> {
    if run == [] then [] else SampleOf(run[0]) + Samples(run[1..])
  }

  function Collects(run: seq<Step>): nat {
    if run == [] then 0 else (if run[0].Collect? then 1 else 0) + Collects(run[1..])
  }

  lemma StepLogs(s: State, step: Step)
    requires HeldNull(s) && !Null(s) && CanDo(s, step)
    ensures Do(s, step).logged == s.logged + SampleOf(step)
    ensures |Do(s, step).reports| == |s.reports| + (if step.Collect? then 1 else 0)
  {}

  lemma {:induction false} RunLogs(s: State, run: seq<Step>)
    requires HeldNull(s) && !Null(s) && LegalRun(s, run) && !OutOfMemory(run)
    ensures After(s, run).logged == s.logged + Samples(run) && |After(s, run).reports| == |s.reports| + Collects(run)
    decreases |run|
  {
    if run != [] {
      assert run == [run[0]] + run[1..];
      OutOfMemoryCons(run[0], run[1..]);
      NullStep(s, run[0]);
      StepLogs(s, run[0]);
      RunLogs(Do(s, run[0]), run[1..]);
      assert s.logged + SampleOf(run[0]) + Samples(run[1..]) == s.logged + (SampleOf(run[0]) + Samples(run[1..]));
    }
  }

  /** While memory is found, every time that a caller logs is in exactly one report or still to be reported, and
      there are as many reports as collections. */
  lemma EverySampleIsLogged(block: nat, run: seq<Step>)
    requires block != NULL && LegalRun(Init(block), run) && !OutOfMemory(run)
    ensures var s := After(Init(block), run);
            multiset(Samples(run)) == Reported(s.collected) + Pending(s) && |s.reports| == Collects(run)
  {
    EverySampleCountedOnce(block, run);
    RunLogs(Init(block), run);
    assert [] + Samples(run) == Samples(run);
  }

  // The reporter is where it can start over, and nothing was logged meanwhile.
  ghost predicate Finished(s: State, s': State) {
    && s'.reporter.Idle? && s'.perfData == s.perfData && s'.logged == s.logged
    && Times(s', s'.perfData) == Times(s, s.perfData)
  }

  lemma RunCons(s: State, step: Step, rest: seq<Step>)
    requires CanDo(s, step) && LegalRun(Do(s, step), rest)
    ensures LegalRun(s, [step] + rest) && After(s, [step] + rest) == After(Do(s, step), rest)
  {
    assert ([step] + rest)[1..] == rest;
  }

  // A reporter that waits comes to its report once the callers it waits for have left.
  lemma {:induction false} WaitEnds(s: State) returns (run: seq<Step>)
    requires Inv(s) && HeldNull(s) && !s.faulted && !Null(s) && s.reporter.Waiting?
    ensures LegalRun(s, run) && Finished(s, After(s, run)) && !After(s, run).faulted && !OutOfMemory(run)
    decreases s.reporter.active
  {
    var step, rest := Collect, [];
    if s.reporter.active != {} {
      var t :| t in s.reporter.active;
      step := End(t);
    }
    StepKeeps(s, step);
    NullStep(s, step);
    if s.reporter.active != {} { rest := WaitEnds(Do(s, step)); }
    OutOfMemoryCons(step, rest);
    RunCons(s, step, rest);
    run := [step] + rest;
  }

  lemma ReportEnds(s: State) returns (run: seq<Step>)
    requires Inv(s) && HeldNull(s) && !s.faulted && !Null(s)
    ensures LegalRun(s, run) && Finished(s, After(s, run)) && !After(s, run).faulted && !OutOfMemory(run)
  {
    run := [];
    if s.reporter.Waiting? {
      run := WaitEnds(s);
    } else if s.reporter.Swapped? {
      StepKeeps(s, Barrier);
      NullStep(s, Barrier);
      var rest := WaitEnds(Do(s, Barrier));
      OutOfMemoryCons(Barrier, rest);
      RunCons(s, Barrier, rest);
      run := [Barrier] + rest;
    }
  }

  lemma {:induction false} Unused(blocks: set<nat>) returns (b: nat)
    ensures b != NULL && b !in blocks && forall c :: c in blocks ==> c < b
  {
    if blocks == {} {
      b := 1;
    } else {
      var c :| c in blocks;
      var d := Unused(blocks - {c});
      b := if c < d then d else c + 1;
      assert forall x :: x in blocks ==> x == c || x in blocks - {c};
    }
  }

  lemma {:induction false} RunSplice(s: State, run: seq<Step>, more: seq<Step>)
    requires LegalRun(s, run) && LegalRun(After(s, run), more)
    ensures LegalRun(s, run + more) && After(s, run + more) == After(After(s, run), more)
    decreases |run|
  {
    if run == [] {
      assert run + more == more;
    } else {
      assert (run + more)[1..] == run[1..] + more;
      RunSplice(Do(s, run[0]), run[1..], more);
    }
  }

  // A whole report when none is under way.
  lemma ReportOnce(s: State) returns (run: seq<Step>)
    requires Inv(s) && HeldNull(s) && !s.faulted && !Null(s) && s.reporter.Idle?
    ensures LegalRun(s, run) && !After(s, run).faulted && After(s, run).logged == s.logged
    ensures var s' := After(s, run); s'.reporter.Idle? && Times(s', s'.perfData) == []
  {
    var b := Unused(s.blocks.Keys);
    StepKeeps(s, Swap(b));
    NullStep(s, Swap(b));
    var rest := ReportEnds(Do(s, Swap(b)));
    RunCons(s, Swap(b), rest);
    run := [Swap(b)] + rest;
  }

  /** While memory is found, whatever has been logged can be reported in full, with no other time logged: the callers
      leave and the reporter ends the report under way and makes another. */
  lemma EverythingCanBeReported(block: nat, run: seq<Step>) returns (more: seq<Step>)
    requires block != NULL && LegalRun(Init(block), run) && !OutOfMemory(run)
    requires !After(Init(block), run).faulted
    ensures LegalRun(After(Init(block), run), more)
    ensures var s, s' := After(Init(block), run), After(After(Init(block), run), more);
            s'.logged == s.logged && multiset(s.logged) == Reported(s'.collected)
  {
    var s := After(Init(block), run);
    InitInv(block);
    RunKeeps(Init(block), run);
    NullIff(Init(block), run);
    HeldNullRun(Init(block), run);
    var end := ReportEnds(s);
    RunKeeps(s, end);
    NullIff(s, end);
    HeldNullRun(s, end);
    var once := ReportOnce(After(s, end));
    RunKeeps(After(s, end), once);
    RunSplice(s, end, once);
    more := end + once;
  }

  lemma {:induction false} HeldNullRun(s: State, run: seq<Step>)
    requires HeldNull(s) && LegalRun(s, run)
    ensures HeldNull(After(s, run))
    decreases |run|
  {
    if run != [] {
      NullStep(s, run[0]);
      HeldNullRun(Do(s, run[0]), run[1..]);
    }
  }
}
