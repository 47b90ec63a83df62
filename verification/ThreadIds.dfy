/**
 Thread ids: the bitmap of ids in use and the threads that register and leave concurrently.

 Every shared-memory access is a step: the read of a word, the compare-and-swap that takes a bit and
 the fetch-and-and that gives it back.
 */
module ThreadIds {
  import opened Words

  const BITS: nat := 32
  const INT_MAX: int := 0x7fff_ffff
  const SIZE_T: nat := 0x1_0000_0000_0000_0000

  function Blocks(size: nat): nat {
    (size + BITS - 1) / BITS
  }

  // Bit i of the bitmap.
  predicate IsSet(data: seq<nat>, i: nat) {
    i / BITS < |data| && Bit(data[i / BITS], i % BITS)
  }

  function Mask(i: nat): nat {
    Pow2(i % BITS)
  }

  lemma {:induction false} AndPow2(x: nat, k: nat)
    ensures And(x, Pow2(k)) == 0 <==> !Bit(x, k)
  {
    if k == 0 {
      assert Pow2(0) == 1;
    } else if x == 0 {
      BitZero(k);
    } else {
      assert Pow2(k) / 2 == Pow2(k - 1) && Pow2(k) % 2 == 0;
      AndPow2(x / 2, k - 1);
    }
  }

  lemma SetSpec(data: seq<nat>, i: nat, j: nat)
    requires i / BITS < |data|
    ensures IsSet(data[i / BITS := Or(data[i / BITS], Mask(i))], j) <==> IsSet(data, j) || i == j
  {
    if j / BITS == i / BITS {
      BitOr(data[i / BITS], Mask(i), j % BITS);
      BitPow2(i % BITS, j % BITS);
    }
  }

  /** jbpf_free_bit on a signed index, which the unsigned division first makes a size_t */
  function FreeBit(data: seq<nat>, bit: int): seq<nat>
    requires -INT_MAX - 1 <= bit <= INT_MAX
  {
    var u := if bit < 0 then SIZE_T + bit else bit;
    if u / BITS >= |data| then data else data[u / BITS := AndNot(data[u / BITS], Mask(u))]
  }

  /** Freeing clears that one bit; a negative index, the id of a thread that has none, changes nothing. */
  lemma FreeSpec(data: seq<nat>, bit: int, j: nat)
    requires -INT_MAX - 1 <= bit <= INT_MAX && |data| <= INT_MAX
    ensures bit < 0 ==> FreeBit(data, bit) == data
    ensures |FreeBit(data, bit)| == |data|
    ensures IsSet(FreeBit(data, bit), j) <==> IsSet(data, j) && j != bit
  {
    if bit >= 0 && j / BITS == bit / BITS && j / BITS < |data| {
      BitAndNot(data[j / BITS], Mask(bit), j % BITS);
      BitPow2(bit % BITS, j % BITS);
    }
  }

  // ---------- the machine ----------

  datatype Pc = Idle | Scanning(i: nat) | Swapping(i: nat, seen: nat)

  // The thread-local variables of one thread; id is -1 while it has none. gone: it has given its id back.
  datatype Thread = Thread(registered: bool, unregistered: bool, gone: bool, id: int, pc: Pc)

  // owner records which thread took each id that has not been given back.
  datatype State = State(size: nat, data: seq<nat>, threads: map<nat, Thread>, owner: map<nat, nat>)

  datatype Step = Register(t: nat) | Read(t: nat) | Swap(t: nat) | Cleanup(t: nat)

  function Init(size: nat, threads: set<nat>): State {
    State(size, seq(Blocks(size), _ => 0), map t | t in threads :: Thread(false, false, false, -1, Idle), map[])
  }

  predicate CanDo(s: State, step: Step) {
    step.t in s.threads &&
    var th := s.threads[step.t];
    match step
    case Register(t) => th.pc.Idle? && !th.registered
    case Read(t) => th.pc.Scanning? && (th.pc.i < s.size ==> th.pc.i / BITS < |s.data|)
    case Swap(t) => th.pc.Swapping? && th.pc.i / BITS < |s.data|
    case Cleanup(t) => th.pc.Idle? && !th.unregistered && -1 <= th.id <= INT_MAX
  }

  function DoRead(s: State, th: Thread): Thread
    requires th.pc.Scanning? && (th.pc.i < s.size ==> th.pc.i / BITS < |s.data|)
  {
    var i := th.pc.i;
    if i >= s.size then th.(id := -1, pc := Idle)
    else if And(s.data[i / BITS], Mask(i)) == 0 then th.(pc := Swapping(i, s.data[i / BITS]))
    else th.(pc := Scanning(i + 1))
  }

  function DoSwap(s: State, t: nat, th: Thread): State
    requires th.pc.Swapping? && th.pc.i / BITS < |s.data|
  {
    var i, seen := th.pc.i, th.pc.seen;
    if s.data[i / BITS] == seen then
      s.(data := s.data[i / BITS := Or(seen, Mask(i))], owner := s.owner[i := t],
         threads := s.threads[t := th.(registered := true, id := i, pc := Idle)])
    else
      s.(threads := s.threads[t := th.(pc := Scanning(i + 1))])
  }

  function DoCleanup(s: State, t: nat, th: Thread): State
    requires -1 <= th.id <= INT_MAX
  {
    s.(data := FreeBit(s.data, th.id), owner := if th.id < 0 then s.owner else s.owner - {th.id},
       threads := s.threads[t := th.(unregistered := true, gone := th.registered)])
  }

  function Do(s: State, step: Step): State
    requires CanDo(s, step)
  {
    var th := s.threads[step.t];
    match step
    case Register(t) => s.(threads := s.threads[t := th.(pc := Scanning(0))])
    case Read(t) => s.(threads := s.threads[t := DoRead(s, th)])
    case Swap(t) => DoSwap(s, t, th)
    case Cleanup(t) => DoCleanup(s, t, th)
  }

  predicate LegalRun(s: State, run: seq<Step>)
    decreases |run|
  {
    run == [] || (CanDo(s, run[0]) && LegalRun(Do(s, run[0]), run[1..]))
  }

  function After(s: State, run: seq<Step>): State
    requires LegalRun(s, run)
    decreases |run|
  {
    if run == [] then s else After(Do(s, run[0]), run[1..])
  }

  // ---------- the invariant ----------

  predicate ThreadOk(size: nat, th: Thread) {
    && (!th.registered ==> th.id == -1)
    && (th.registered ==> th.pc.Idle? && 0 <= th.id < size)
    && (th.gone ==> th.registered && th.unregistered)
    && (th.pc.Swapping? ==> th.pc.i < size && !Bit(th.pc.seen, th.pc.i % BITS))
  }

  ghost predicate Inv(s: State) {
    && s.size <= INT_MAX && |s.data| == Blocks(s.size)
    && (forall i: nat :: IsSet(s.data, i) <==> i in s.owner)
    && (forall t :: t in s.threads ==> ThreadOk(s.size, s.threads[t]))
    && (forall i :: i in s.owner ==> s.owner[i] in s.threads && Holds(s, s.owner[i], i))
    && (forall t :: t in s.threads && s.threads[t].registered && !s.threads[t].gone ==>
          s.threads[t].id in s.owner && s.owner[s.threads[t].id] == t)
  }

  // The thread has taken the id and not given it back.
  predicate Holds(s: State, t: nat, i: nat) {
    t in s.threads && s.threads[t].registered && !s.threads[t].gone && s.threads[t].id == i
  }

  lemma SwapKeeps(s: State, t: nat)
    requires Inv(s) && CanDo(s, Swap(t))
    ensures Inv(Do(s, Swap(t)))
  {
    var th := s.threads[t];
    var i := th.pc.i;
    if s.data[i / BITS] == th.pc.seen {
      assert i !in s.owner;
      var s' := Do(s, Swap(t));
      forall j: nat ensures IsSet(s'.data, j) <==> j in s'.owner {
        SetSpec(s.data, i, j);
      }
    }
  }

  lemma CleanupKeeps(s: State, t: nat)
    requires Inv(s) && CanDo(s, Cleanup(t))
    ensures Inv(Do(s, Cleanup(t)))
  {
    var th := s.threads[t];
    var s' := Do(s, Cleanup(t));
    forall j: nat ensures IsSet(s'.data, j) <==> j in s'.owner {
      FreeSpec(s.data, th.id, j);
    }
    FreeSpec(s.data, th.id, 0);
  }

  lemma StepKeeps(s: State, step: Step)
    requires Inv(s) && CanDo(s, step)
    ensures Inv(Do(s, step)) && Do(s, step).size == s.size && Do(s, step).threads.Keys == s.threads.Keys
  {
    match step
    case Register(t) =>
    case Read(t) =>
      var pc := s.threads[t].pc;
      if pc.i < s.size { AndPow2(s.data[pc.i / BITS], pc.i % BITS); }
    case Swap(t) => SwapKeeps(s, t);
    case Cleanup(t) => CleanupKeeps(s, t);
  }

  lemma InitInv(size: nat, threads: set<nat>)
    requires size <= INT_MAX
    ensures Inv(Init(size, threads))
  {
    forall i: nat ensures !IsSet(Init(size, threads).data, i) {
      BitZero(i % BITS);
    }
  }

  lemma {:induction false} RunKeeps(s: State, run: seq<Step>)
    requires Inv(s) && LegalRun(s, run)
    ensures Inv(After(s, run)) && After(s, run).size == s.size && After(s, run).threads.Keys == s.threads.Keys
    decreases |run|
  {
    if run != [] {
      StepKeeps(s, run[0]);
      RunKeeps(Do(s, run[0]), run[1..]);
    }
  }

  /** An id that a thread has taken and not given back is in range, and no other thread has it. */
  lemma IdsAreExclusive(size: nat, threads: set<nat>, run: seq<Step>, t: nat, u: nat, i: nat)
    requires size <= INT_MAX && LegalRun(Init(size, threads), run)
    requires var s := After(Init(size, threads), run); Holds(s, t, i) && Holds(s, u, i)
    ensures i < size && t == u
  {
    InitInv(size, threads);
    RunKeeps(Init(size, threads), run);
  }

  /** The bits set are exactly the ids taken and not given back. */
  lemma SetBitsAreHeld(size: nat, threads: set<nat>, run: seq<Step>, i: nat)
    requires size <= INT_MAX && LegalRun(Init(size, threads), run)
    ensures var s := After(Init(size, threads), run); IsSet(s.data, i) <==> exists t :: Holds(s, t, i)
  {
    InitInv(size, threads);
    RunKeeps(Init(size, threads), run);
    var s := After(Init(size, threads), run);
    if i in s.owner { assert Holds(s, s.owner[i], i); }
  }

  // A thread whose cleanup is over before it registers has nothing left to do.
  lemma {:induction false} StaysAsItIs(s: State, run: seq<Step>, t: nat)
    requires LegalRun(s, run) && t in s.threads && s.threads[t].registered && s.threads[t].unregistered
             && s.threads[t].pc.Idle?
    ensures t in After(s, run).threads && After(s, run).threads[t] == s.threads[t]
    decreases |run|
  {
    if run != [] { StaysAsItIs(Do(s, run[0]), run[1..], t); }
  }

  ghost predicate CanGiveBack(s: State, t: nat) {
    exists run :: LegalRun(s, run) && t in After(s, run).threads && After(s, run).threads[t].gone
  }

  /** A thread can still give its id back exactly when it did not clean up before it registered. */
  lemma GivenBackIff(size: nat, threads: set<nat>, run: seq<Step>, t: nat, i: nat)
    requires size <= INT_MAX && LegalRun(Init(size, threads), run)
    requires Holds(After(Init(size, threads), run), t, i)
    ensures var s := After(Init(size, threads), run); CanGiveBack(s, t) <==> !s.threads[t].unregistered
  {
    InitInv(size, threads);
    RunKeeps(Init(size, threads), run);
    var s := After(Init(size, threads), run);
    if s.threads[t].unregistered {
      forall more | LegalRun(s, more) ensures t in After(s, more).threads && !After(s, more).threads[t].gone {
        StaysAsItIs(s, more, t);
      }
    } else {
      RunCons(s, Cleanup(t), []);
      assert After(s, [Cleanup(t)] + []).threads[t].gone;
    }
  }

  /** With one id, a thread that cleans up and then registers takes the id and never gives it back. */
  lemma CleanupFirstKeepsId(run: seq<Step>)
    requires run == [Cleanup(0), Register(0), Read(0), Swap(0)]
    ensures LegalRun(Init(1, {0}), run)
    ensures Holds(After(Init(1, {0}), run), 0, 0) && !CanGiveBack(After(Init(1, {0}), run), 0)
  {
    var s0 := Init(1, {0});
    var s1 := Do(s0, Cleanup(0));
    var s2 := Do(s1, Register(0));
    assert FreeBit(s0.data, -1) == s0.data == [0] by { FreeSpec(s0.data, -1, 0); }
    AndPow2(0, 0);
    BitZero(0);
    var s3 := Do(s2, Read(0));
    var s4 := Do(s3, Swap(0));
    RunCons(s3, Swap(0), []);
    RunCons(s2, Read(0), [Swap(0)] + []);
    RunCons(s1, Register(0), [Read(0)] + ([Swap(0)] + []));
    RunCons(s0, Cleanup(0), [Register(0)] + ([Read(0)] + ([Swap(0)] + [])));
    assert run == [Cleanup(0)] + ([Register(0)] + ([Read(0)] + ([Swap(0)] + [])));
    GivenBackIff(1, {0}, run, 0, 0);
  }

  // ---------- calling a hook ----------

  // e_record: the epoch record of the thread, from the time it has registered.
  function RecordOf(th: Thread): int {
    if th.registered then th.id else -1
  }

  // The index under which its times are logged, an unsigned int.
  function PerfIndex(th: Thread): int {
    if th.id < 0 then th.id + WORD else th.id
  }

  // The thread's epoch record and its record of times are there, and they are set aside for this thread alone.
  ghost predicate CallIsSafe(s: State, t: nat) {
    && t in s.threads && 0 <= RecordOf(s.threads[t]) < s.size && 0 <= PerfIndex(s.threads[t]) < s.size
    && IsSet(s.data, s.threads[t].id)
    && forall u :: u != t ==> !Holds(s, u, s.threads[t].id)
  }

  /** In every interleaving, a thread that has tried to register can call hooks safely exactly when it holds an id: not
      when it was refused, and not once it has cleaned up. */
  lemma CallIsSafeIff(size: nat, threads: set<nat>, run: seq<Step>, t: nat)
    requires size <= INT_MAX && LegalRun(Init(size, threads), run)
    ensures var s := After(Init(size, threads), run); CallIsSafe(s, t) <==> exists i: nat :: Holds(s, t, i)
  {
    InitInv(size, threads);
    RunKeeps(Init(size, threads), run);
    var s := After(Init(size, threads), run);
    if CallIsSafe(s, t) {
      var i: nat := s.threads[t].id;
      assert i in s.owner && Holds(s, s.owner[i], i);
      assert s.owner[i] == t;
    }
    if i: nat :| Holds(s, t, i) {
      assert s.owner[i] == t;
    }
  }

  /** A thread without an id, as one that was refused, has no epoch record and logs outside the block of times. */
  lemma RefusedHasNoRecord(size: nat, threads: set<nat>, run: seq<Step>, t: nat)
    requires size <= INT_MAX && LegalRun(Init(size, threads), run) && t in threads
    ensures var s := After(Init(size, threads), run);
            t in s.threads && (s.threads[t].id == -1 ==>
              RecordOf(s.threads[t]) == -1 && PerfIndex(s.threads[t]) >= size)
  {
    InitInv(size, threads);
    RunKeeps(Init(size, threads), run);
  }

  /** With one id, two threads can have the same epoch record: the first has cleaned up, the second has taken its id. */
  lemma RecordIsShared(run: seq<Step>)
    requires run == [Register(0), Read(0), Swap(0), Cleanup(0), Register(1), Read(1), Swap(1)]
    ensures LegalRun(Init(1, {0, 1}), run)
    ensures var s := After(Init(1, {0, 1}), run);
            && 0 in s.threads && 1 in s.threads && RecordOf(s.threads[0]) == RecordOf(s.threads[1]) == 0
            && !CallIsSafe(s, 0) && CallIsSafe(s, 1)
  {
    var first, second := [Register(0), Read(0), Swap(0), Cleanup(0)], [Register(1), Read(1), Swap(1)];
    var s0 := Init(1, {0, 1});
    var s1 := TakeOnly(s0, 0);
    RunCons(s1, Cleanup(0), []);
    var s2 := Do(s1, Cleanup(0));
    FreeOnly(s1.data);
    var s3 := TakeOnly(s2, 1);
    RunSplice(s0, [Register(0), Read(0), Swap(0)], [Cleanup(0)] + []);
    assert [Register(0), Read(0), Swap(0)] + ([Cleanup(0)] + []) == first;
    RunSplice(s0, first, second);
    assert run == first + second;
    CallIsSafeIff(1, {0, 1}, run, 0);
    CallIsSafeIff(1, {0, 1}, run, 1);
    assert Holds(s3, 1, 0);
  }

  // A thread takes the only id while it is free.
  lemma TakeOnly(s: State, t: nat) returns (s': State)
    requires s.size == 1 && s.data == [0] && t in s.threads && !s.threads[t].registered && s.threads[t].pc.Idle?
    ensures LegalRun(s, [Register(t), Read(t), Swap(t)]) && s' == After(s, [Register(t), Read(t), Swap(t)])
    ensures s'.size == 1 && s'.data == [1] && s'.owner == s.owner[0 := t]
    ensures s'.threads == s.threads[t := s.threads[t].(registered := true, id := 0, pc := Idle)]
  {
    AndPow2(0, 0);
    BitZero(0);
    var s1 := Do(s, Register(t));
    var s2 := Do(s1, Read(t));
    s' := Do(s2, Swap(t));
    RunCons(s2, Swap(t), []);
    RunCons(s1, Read(t), [Swap(t)] + []);
    RunCons(s, Register(t), [Read(t)] + ([Swap(t)] + []));
    assert [Register(t), Read(t), Swap(t)] == [Register(t)] + ([Read(t)] + ([Swap(t)] + []));
  }

  lemma FreeOnly(data: seq<nat>)
    requires data == [1]
    ensures FreeBit(data, 0) == [0]
  {}

  lemma {:induction false} RunSplice(s: State, run: seq<Step>, more: seq<Step>)
    requires LegalRun(s, run) && LegalRun(After(s, run), more)
    ensures LegalRun(s, run + more) && After(s, run + more) == After(After(s, run), more)
    decreases |run|
  {
    if run == [] {
      assert run + more == more;
    } else {
      RunSplice(Do(s, run[0]), run[1..], more);
      assert (run + more)[1..] == run[1..] + more;
    }
  }

  /** No access is out of bounds: whatever a thread is about to do, it can do. */
  lemma NoStepIsOutOfBounds(size: nat, threads: set<nat>, run: seq<Step>, t: nat)
    requires size <= INT_MAX && LegalRun(Init(size, threads), run) && t in threads
    ensures var s := After(Init(size, threads), run);
            t in s.threads &&
            match s.threads[t].pc
            case Scanning(_) => CanDo(s, Read(t))
            case Swapping(_, _) => CanDo(s, Swap(t))
            case Idle => (!s.threads[t].registered ==> CanDo(s, Register(t)))
                         && (!s.threads[t].unregistered ==> CanDo(s, Cleanup(t)))
  {
    InitInv(size, threads);
    RunKeeps(Init(size, threads), run);
  }

  lemma {:induction false} RunAppend(s: State, run: seq<Step>, step: Step)
    requires LegalRun(s, run) && CanDo(After(s, run), step)
    ensures LegalRun(s, run + [step]) && After(s, run + [step]) == Do(After(s, run), step)
    decreases |run|
  {
    if run != [] {
      assert (run + [step])[1..] == run[1..] + [step];
      RunAppend(Do(s, run[0]), run[1..], step);
    }
  }

  const FRESH: Thread := Thread(false, false, false, -1, Idle)

  // Thread 1 takes id 0.
  lemma TakesFirst() returns (run: seq<Step>)
    ensures LegalRun(Init(2, {1, 2}), run)
    ensures After(Init(2, {1, 2}), run)
              == State(2, [1], map[1 := Thread(true, false, false, 0, Idle), 2 := FRESH], map[0 := 1])
  {
    var s := Init(2, {1, 2});
    assert s == State(2, [0], map[1 := FRESH, 2 := FRESH], map[]);
    AndPow2(0, 0);
    RunAppend(s, [], Register(1));
    run := [] + [Register(1)];
    RunAppend(s, run, Read(1));
    run := run + [Read(1)];
    RunAppend(s, run, Swap(1));
    run := run + [Swap(1)];
  }

  // Thread 2 finds id 0 taken and reads the word for id 1.
  lemma ReadsSecond() returns (run: seq<Step>)
    ensures LegalRun(Init(2, {1, 2}), run)
    ensures After(Init(2, {1, 2}), run) ==
      State(2, [1], map[1 := Thread(true, false, false, 0, Idle), 2 := FRESH.(pc := Swapping(1, 1))], map[0 := 1])
  {
    var s := Init(2, {1, 2});
    AndPow2(1, 0);
    AndPow2(1, 1);
    run := TakesFirst();
    RunAppend(s, run, Register(2));
    run := run + [Register(2)];
    RunAppend(s, run, Read(2));
    run := run + [Read(2)];
    RunAppend(s, run, Read(2));
    run := run + [Read(2)];
  }

  /** Under contention a thread can be refused while every id is free: the other id was given back
      between this thread's read of the word and its swap. */
  lemma RefusedWithRoom() returns (run: seq<Step>)
    ensures LegalRun(Init(2, {1, 2}), run)
    ensures var s := After(Init(2, {1, 2}), run);
            2 in s.threads && s.threads[2].pc == Scanning(s.size) && forall i: nat :: !IsSet(s.data, i)
  {
    var half := ReadsSecond();
    var s0 := Init(2, {1, 2});
    var s := After(s0, half);
    assert AndNot(1, Pow2(0)) == 0;
    var s1 := Do(s, Cleanup(1));
    assert s1.data == [0];
    RunAppend(s0, half, Cleanup(1));
    RunAppend(s0, half + [Cleanup(1)], Swap(2));
    run := half + [Cleanup(1)] + [Swap(2)];
    forall i: nat ensures !IsSet([0], i) {
      BitZero(i % BITS);
    }
  }

  // The steps thread t takes to the end of its registration when no other thread comes in between.
  function Alone(s: State, t: nat): seq<Step>
    requires t in s.threads && s.threads[t].pc.Scanning? && |s.data| == Blocks(s.size)
    decreases s.size - s.threads[t].pc.i
  {
    var i := s.threads[t].pc.i;
    if i >= s.size then [Read(t)]
    else if And(s.data[i / BITS], Mask(i)) == 0 then [Read(t)] + [Swap(t)]
    else [Read(t)] + Alone(Do(s, Read(t)), t)
  }

  lemma RunCons(s: State, step: Step, rest: seq<Step>)
    requires CanDo(s, step) && LegalRun(Do(s, step), rest)
    ensures LegalRun(s, [step] + rest) && After(s, [step] + rest) == After(Do(s, step), rest)
  {
    assert ([step] + rest)[1..] == rest;
  }

  // th has the lowest id of data that is free from i on, or none when none is.
  ghost predicate HasLowest(data: seq<nat>, size: nat, i: nat, th: Thread) {
    && th.pc.Idle?
    && (!th.registered ==> forall j :: i <= j < size ==> IsSet(data, j))
    && (th.registered ==> i <= th.id < size && !IsSet(data, th.id) && forall j :: i <= j < th.id ==> IsSet(data, j))
  }

  lemma TakesFree(s: State, t: nat)
    requires Inv(s) && t in s.threads && s.threads[t].pc.Scanning? && s.threads[t].pc.i < s.size
    requires And(s.data[s.threads[t].pc.i / BITS], Mask(s.threads[t].pc.i)) == 0
    ensures LegalRun(s, [Read(t)] + [Swap(t)])
    ensures var s' := After(s, [Read(t)] + [Swap(t)]);
            t in s'.threads && HasLowest(s.data, s.size, s.threads[t].pc.i, s'.threads[t])
  {
    var i, s1 := s.threads[t].pc.i, Do(s, Read(t));
    AndPow2(s.data[i / BITS], i % BITS);
    RunCons(s1, Swap(t), []);
    assert [Swap(t)] + [] == [Swap(t)];
    RunCons(s, Read(t), [Swap(t)]);
  }

  lemma MovesOn(s: State, t: nat)
    requires Inv(s) && t in s.threads && s.threads[t].pc.Scanning? && s.threads[t].pc.i < s.size
    requires And(s.data[s.threads[t].pc.i / BITS], Mask(s.threads[t].pc.i)) != 0
    ensures CanDo(s, Read(t)) && IsSet(s.data, s.threads[t].pc.i)
    ensures var s1 := Do(s, Read(t));
            && Inv(s1) && s1.data == s.data && s1.size == s.size
            && t in s1.threads && s1.threads[t].pc == Scanning(s.threads[t].pc.i + 1)
  {
    var i := s.threads[t].pc.i;
    AndPow2(s.data[i / BITS], i % BITS);
    StepKeeps(s, Read(t));
  }

  lemma GivesUp(s: State, t: nat)
    requires Inv(s) && t in s.threads && s.threads[t].pc.Scanning? && s.threads[t].pc.i >= s.size
    ensures LegalRun(s, [Read(t)])
    ensures var s' := After(s, [Read(t)]);
            t in s'.threads && HasLowest(s.data, s.size, s.threads[t].pc.i, s'.threads[t])
  {
    RunCons(s, Read(t), []);
    assert [Read(t)] + [] == [Read(t)];
  }

  lemma LowestFromBefore(data: seq<nat>, size: nat, i: nat, th: Thread)
    requires HasLowest(data, size, i + 1, th) && IsSet(data, i)
    ensures HasLowest(data, size, i, th)
  {}

  /** Without contention a registering thread gets the lowest free id from where its scan stands, and is
      refused exactly when there is none. */
  lemma {:induction false} UncontendedGetsLowest(s: State, t: nat)
    requires Inv(s) && t in s.threads && s.threads[t].pc.Scanning?
    ensures LegalRun(s, Alone(s, t))
    ensures var s' := After(s, Alone(s, t));
            t in s'.threads && HasLowest(s.data, s.size, s.threads[t].pc.i, s'.threads[t])
    decreases s.size - s.threads[t].pc.i
  {
    var i := s.threads[t].pc.i;
    if i >= s.size {
      GivesUp(s, t);
    } else if And(s.data[i / BITS], Mask(i)) == 0 {
      TakesFree(s, t);
    } else {
      var s1 := Do(s, Read(t));
      MovesOn(s, t);
      UncontendedGetsLowest(s1, t);
      RunCons(s, Read(t), Alone(s1, t));
      LowestFromBefore(s.data, s.size, i, After(s1, Alone(s1, t)).threads[t]);
    }
  }

  // ---------- refusal under contention ----------

  // At some step of the run the thread reads the word of bit i and finds the bit set.
  predicate SeenSet(s: State, run: seq<Step>, t: nat, i: nat)
    requires LegalRun(s, run)
    decreases |run|
  {
    run != [] &&
    ((run[0] == Read(t) && s.threads[t].pc == Scanning(i) && IsSet(s.data, i))
      || SeenSet(Do(s, run[0]), run[1..], t, i))
  }

  // At some step the thread tries to swap the word of bit i, and it is not the given one.
  predicate SwapFails(s: State, run: seq<Step>, t: nat, i: nat, word: nat)
    requires LegalRun(s, run)
    decreases |run|
  {
    run != [] &&
    ((run[0] == Swap(t) && s.threads[t].pc.i == i && s.data[i / BITS] != word)
      || SwapFails(Do(s, run[0]), run[1..], t, i, word))
  }

  // At some step it reads the word of bit i, and at a later one the word has changed when it tries to swap it.
  predicate Overtaken(s: State, run: seq<Step>, t: nat, i: nat)
    requires LegalRun(s, run)
    decreases |run|
  {
    run != [] &&
    var next := Do(s, run[0]);
    || (run[0] == Read(t) && s.threads[t].pc == Scanning(i) && i / BITS < |s.data|
       && SwapFails(next, run[1..], t, i, s.data[i / BITS]))
    || Overtaken(next, run[1..], t, i)
  }

  // The bit was set when the thread read it, or its word changed before the thread's swap.
  ghost predicate Missed(s: State, run: seq<Step>, t: nat, i: nat)
    requires LegalRun(s, run)
  {
    SeenSet(s, run, t, i) || Overtaken(s, run, t, i)
  }

  ghost predicate AllMissed(s: State, run: seq<Step>, t: nat, j: nat)
    requires LegalRun(s, run)
  {
    forall i :: j <= i < s.size ==> Missed(s, run, t, i)
  }

  // The thread's scan is past bit i, or over.
  predicate Past(pc: Pc, i: nat) {
    pc.Idle? || i < pc.i
  }

  lemma StepPast(s: State, step: Step, t: nat, i: nat)
    requires CanDo(s, step) && t in s.threads && Past(s.threads[t].pc, i) && step != Register(t)
    ensures t in Do(s, step).threads && Past(Do(s, step).threads[t].pc, i)
  {}

  lemma {:induction false} NeverAgain(s: State, run: seq<Step>, t: nat, i: nat, word: nat)
    requires LegalRun(s, run) && t in s.threads && Register(t) !in run && Past(s.threads[t].pc, i)
    ensures !SeenSet(s, run, t, i) && !SwapFails(s, run, t, i, word) && !Overtaken(s, run, t, i)
    decreases |run|
  {
    if run != [] {
      assert forall x :: x in run[1..] ==> x in run;
      StepPast(s, run[0], t, i);
      NeverAgain(Do(s, run[0]), run[1..], t, i, word);
    }
  }

  // Once its word is read a bit is not read again.
  lemma {:induction false} NotReadAgain(s: State, run: seq<Step>, t: nat, i: nat)
    requires LegalRun(s, run) && t in s.threads && Register(t) !in run && s.threads[t].pc.Swapping?
             && s.threads[t].pc.i == i
    ensures !SeenSet(s, run, t, i) && !Overtaken(s, run, t, i)
    decreases |run|
  {
    if run != [] {
      assert forall x :: x in run[1..] ==> x in run;
      if run[0].t == t {
        NeverAgain(Do(s, run[0]), run[1..], t, i, 0);
      } else {
        NotReadAgain(Do(s, run[0]), run[1..], t, i);
      }
    }
  }

  // What refuses the thread, from where its scan stands.
  ghost predicate RefusedBy(s: State, run: seq<Step>, t: nat)
    requires LegalRun(s, run) && t in s.threads
  {
    match s.threads[t].pc
    case Idle => !s.threads[t].registered
    case Scanning(j) => AllMissed(s, run, t, j)
    case Swapping(j, seen) => SwapFails(s, run, t, j, seen) && AllMissed(s, run, t, j + 1)
  }

  lemma OthersStep(s: State, run: seq<Step>, t: nat)
    requires LegalRun(s, run) && run != [] && t in s.threads && run[0].t != t
    ensures t in Do(s, run[0]).threads && (RefusedBy(s, run, t) <==> RefusedBy(Do(s, run[0]), run[1..], t))
  {
    var next := Do(s, run[0]);
    assert next.threads[t] == s.threads[t] && next.size == s.size;
    forall i: nat ensures Missed(s, run, t, i) <==> Missed(next, run[1..], t, i) {}
  }

  lemma MissedLater(s: State, run: seq<Step>, t: nat, i: nat)
    requires LegalRun(s, run) && run != [] && t in s.threads && s.threads[t].pc != Scanning(i)
    ensures Missed(s, run, t, i) <==> Missed(Do(s, run[0]), run[1..], t, i)
  {}

  lemma AllMissedLater(s: State, run: seq<Step>, t: nat, j: nat)
    requires LegalRun(s, run) && run != [] && t in s.threads && (s.threads[t].pc.Scanning? ==> s.threads[t].pc.i < j)
    requires Do(s, run[0]).size == s.size
    ensures AllMissed(s, run, t, j) <==> AllMissed(Do(s, run[0]), run[1..], t, j)
  {
    forall i: nat | j <= i < s.size ensures Missed(s, run, t, i) <==> Missed(Do(s, run[0]), run[1..], t, i) {
      MissedLater(s, run, t, i);
    }
  }

  lemma AllMissedFrom(s: State, run: seq<Step>, t: nat, j: nat)
    requires LegalRun(s, run) && j < s.size
    ensures AllMissed(s, run, t, j) <==> Missed(s, run, t, j) && AllMissed(s, run, t, j + 1)
  {}

  lemma ReadStep(s: State, run: seq<Step>, t: nat)
    requires Inv(s) && LegalRun(s, run) && run != [] && run[0] == Read(t) && Register(t) !in run
    ensures RefusedBy(s, run, t) <==> RefusedBy(Do(s, run[0]), run[1..], t)
  {
    var j, next := s.threads[t].pc.i, Do(s, run[0]);
    if j < s.size {
      assert forall x :: x in run[1..] ==> x in run;
      AndPow2(s.data[j / BITS], j % BITS);
      AllMissedLater(s, run, t, j + 1);
      AllMissedFrom(s, run, t, j);
      if next.threads[t].pc.Swapping? { NotReadAgain(next, run[1..], t, j); }
    }
  }

  lemma SwapStep(s: State, run: seq<Step>, t: nat)
    requires Inv(s) && LegalRun(s, run) && run != [] && run[0] == Swap(t) && Register(t) !in run
    ensures RefusedBy(s, run, t) <==> RefusedBy(Do(s, run[0]), run[1..], t)
  {
    var j, next := s.threads[t].pc.i, Do(s, run[0]);
    assert forall x :: x in run[1..] ==> x in run;
    NeverAgain(next, run[1..], t, j, s.threads[t].pc.seen);
    AllMissedLater(s, run, t, j + 1);
  }

  lemma {:induction false} ScanEnds(s: State, run: seq<Step>, t: nat)
    requires Inv(s) && LegalRun(s, run) && t in s.threads && Register(t) !in run
    ensures t in After(s, run).threads
    ensures After(s, run).threads[t].pc.Idle? ==> (!After(s, run).threads[t].registered <==> RefusedBy(s, run, t))
    decreases |run|
  {
    if run != [] {
      assert forall x :: x in run[1..] ==> x in run;
      StepKeeps(s, run[0]);
      if run[0].t != t {
        OthersStep(s, run, t);
      } else if run[0].Read? {
        ReadStep(s, run, t);
      } else if run[0].Swap? {
        SwapStep(s, run, t);
      }
      ScanEnds(Do(s, run[0]), run[1..], t);
    }
  }

  /** Whatever other threads do, a registering thread is refused exactly when, for every id, it read the bit set, or the
      word changed between its read and its swap. */
  lemma RefusedIff(size: nat, threads: set<nat>, before: seq<Step>, t: nat, run: seq<Step>)
    requires size <= INT_MAX && LegalRun(Init(size, threads), before)
             && CanDo(After(Init(size, threads), before), Register(t))
    requires var s := Do(After(Init(size, threads), before), Register(t));
             LegalRun(s, run) && Register(t) !in run && t in After(s, run).threads && After(s, run).threads[t].pc.Idle?
    ensures var s := Do(After(Init(size, threads), before), Register(t));
            !After(s, run).threads[t].registered <==> forall i :: 0 <= i < size ==> Missed(s, run, t, i)
  {
    InitInv(size, threads);
    RunKeeps(Init(size, threads), before);
    var s0 := After(Init(size, threads), before);
    StepKeeps(s0, Register(t));
    var s := Do(s0, Register(t));
    ScanEnds(s, run, t);
  }

  // ---------- one caller at a time ----------

  class Bitmap {
    const data: array<nat>
    const size: nat

    ghost predicate Valid() {
      data.Length == Blocks(size) && size <= INT_MAX
    }

    constructor (n: nat)
      requires n <= INT_MAX
      ensures Valid() && size == n && fresh(data)
      ensures forall i: nat :: !IsSet(data[..], i)
    {
      size := n;
      data := new nat[Blocks(n)](_ => 0);
      new;
      forall i: nat ensures !IsSet(data[..], i) {
        BitZero(i % BITS);
      }
    }

    /** jbpf_allocate_bit with no other thread running: the lowest free bit, or -1 exactly when there is none */
    method Allocate() returns (bit: int)
      requires Valid()
      modifies data
      ensures -1 <= bit < size
      ensures bit == -1 <==> forall i :: 0 <= i < size ==> old(IsSet(data[..], i))
      ensures bit >= 0 ==> !old(IsSet(data[..], bit)) && forall i :: 0 <= i < bit ==> old(IsSet(data[..], i))
      ensures forall j: nat :: IsSet(data[..], j) <==> old(IsSet(data[..], j)) || j == bit
    {
      ghost var before := data[..];
      for i := 0 to size
        invariant data[..] == before && forall j :: 0 <= j < i ==> IsSet(before, j)
      {
        var word := data[i / BITS];
        AndPow2(word, i % BITS);
        if And(word, Mask(i)) == 0 {
          data[i / BITS] := Or(word, Mask(i));
          assert data[..] == before[i / BITS := Or(word, Mask(i))];
          forall j: nat ensures IsSet(data[..], j) <==> IsSet(before, j) || j == i {
            SetSpec(before, i, j);
          }
          assert !IsSet(before, i);
          return i;
        }
      }
      return -1;
    }

    /** jbpf_free_bit */
    method Free(bit: int)
      requires Valid() && -INT_MAX - 1 <= bit <= INT_MAX
      modifies data
      ensures forall j: nat :: IsSet(data[..], j) <==> old(IsSet(data[..], j)) && j != bit
    {
      ghost var before := data[..];
      var u := if bit < 0 then SIZE_T + bit else bit;
      if u / BITS < data.Length {
        data[u / BITS] := AndNot(data[u / BITS], Mask(u));
      }
      assert data[..] == FreeBit(before, bit);
      forall j: nat ensures IsSet(data[..], j) <==> IsSet(before, j) && j != bit {
        FreeSpec(before, bit, j);
      }
    }
  }
}
