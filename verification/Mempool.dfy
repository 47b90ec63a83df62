/**
 The reference-counted buffer pool and its marker-based deferred destruction.

 Buffers are the indices 0..n-1 of the data array; n itself is the extra marker mbuf.
 Every access to shared pool memory is one atomic step, so a run of the pool is a sequence
 of steps in which the operations of all threads are interleaved arbitrarily.
 */
module Mempool {
  import opened Collections

  // The free ring holds at most n tokens: a ring of size n + 1 keeps one cell empty.
  datatype State = State(
    n: nat,                // num_elems
    ring: seq<nat>,        // the free ring, oldest first
    allocMain: bool,       // ring_alloc still points at the free ring
    refs: seq<nat>,        // ref_cnt of every buffer and of the marker
    marked: bool,          // destroy has tried to add the marker
    released: nat,         // how many times the pool memory was given back
    // operations under way and references handed out, over all threads
    loads: nat,            // allocs that read ring_alloc and have not dequeued yet
    starting: set<nat>,       // buffers dequeued, reference count not yet set
    holds: multiset<nat>,  // references in the hands of clients
    returning: set<nat>)   // buffers whose count reached 0, not yet enqueued

  datatype Step =
    | AllocLoad            // read ring_alloc
    | AllocDequeue         // dequeue from the ring that was read
    | AllocInit(b: nat)    // mb->ref_cnt = 1
    | AllocLate(b: nat)    // a whole alloc, ring_alloc already exchanged: returns NULL
    | Share(b: nat)
    | FreeDec(b: nat)
    | FreeReturn(b: nat)
    | DestroySwap
    | DestroyMark

  function Init(n: nat): State {
    State(n, seq(n, i => i), true, seq(n + 1, _ => 0), false, 0, 0, {}, multiset{}, {})
  }

  // What the program can do next.
  predicate CanDo(s: State, step: Step) {
    match step
    case AllocLoad => s.allocMain
    case AllocDequeue => s.loads > 0
    case AllocInit(b) => b in s.starting
    case AllocLate(b) => !s.allocMain
    case Share(b) => true
    case FreeDec(b) => true
    case FreeReturn(b) => b in s.returning
    case DestroySwap => s.allocMain
    case DestroyMark => !s.allocMain && !s.marked
  }

  // What its clients owe: only held references are shared or freed, a late alloc is made by
  // a client that holds a reference, and no alloc is between its two reads at destroy.
  predicate Owed(s: State, step: Step) {
    match step
    case AllocLate(b) => b in s.holds
    case Share(b) => b in s.holds
    case FreeDec(b) => b in s.holds
    case DestroySwap => s.loads == 0
    case _ => true
  }

  function Enqueue(s: State, b: nat): State {
    if |s.ring| >= s.n then s.(released := s.released + 1) else s.(ring := s.ring + [b])
  }

  function SetRef(s: State, b: nat, v: nat): State {
    if b < |s.refs| then s.(refs := s.refs[b := v]) else s
  }

  function Ref(s: State, b: nat): nat {
    if b < |s.refs| then s.refs[b] else 0
  }

  function Do(s: State, step: Step): State
    requires CanDo(s, step)
  {
    match step
    case AllocLoad => s.(loads := s.loads + 1)
    case AllocDequeue =>
      if s.ring == [] then s.(loads := s.loads - 1)
      else s.(loads := s.loads - 1, starting := s.starting + {s.ring[0]}, ring := s.ring[1..])
    case AllocInit(b) =>
      SetRef(s, b, 1).(starting := s.starting - {b}, holds := s.holds + multiset{b})
    case AllocLate(b) => s
    case Share(b) => SetRef(s, b, Ref(s, b) + 1).(holds := s.holds + multiset{b})
    case FreeDec(b) =>
      var v := if Ref(s, b) > 0 then Ref(s, b) - 1 else 0xFFFF_FFFF_FFFF_FFFF;
      SetRef(s, b, v).(holds := s.holds - multiset{b},
                       returning := if v == 0 then s.returning + {b} else s.returning)
    case FreeReturn(b) => Enqueue(s, b).(returning := s.returning - {b})
    case DestroySwap => s.(allocMain := false)
    case DestroyMark => Enqueue(s, s.n).(marked := true)
  }

  predicate LegalRun(s: State, run: seq<Step>)
    decreases |run|
  {
    run == [] || (CanDo(s, run[0]) && Owed(s, run[0]) && LegalRun(Do(s, run[0]), run[1..]))
  }

  function After(s: State, run: seq<Step>): State
    requires LegalRun(s, run)
    decreases |run|
  {
    if run == [] then s else After(Do(s, run[0]), run[1..])
  }

  // ---------- the invariant: every token is in exactly one place ----------

  // The number of places in which token b is found.
  function Places(s: State, b: nat): nat {
    (if b in s.ring then 1 else 0) + (if b in s.starting then 1 else 0)
    + (if b in s.returning then 1 else 0) + (if b in s.holds then 1 else 0)
  }

  // Neither in the free ring nor given back.
  predicate Out(s: State, b: nat) {
    b in s.starting || b in s.returning || b in s.holds
  }

  function Outstanding(s: State): set<nat> {
    s.starting + s.returning + (set b | b in s.holds)
  }

  ghost predicate Partition(s: State) {
    && (forall b: nat :: Places(s, b) == if b < s.n || (b == s.n && s.marked) then 1 else 0)
    && (forall b: nat :: Out(s, b) ==> b < s.n)
    && NoDup(s.ring)
    && |s.ring| <= s.n
  }

  ghost predicate Counted(s: State) {
    |s.refs| == s.n + 1 && forall b: nat :: b in s.holds ==> b < s.n && s.refs[b] == s.holds[b]
  }

  // The state of a pool that is still there / that has been given back.
  ghost predicate Alive(s: State) {
    s.released == 0 && Partition(s) && Counted(s) && (s.marked ==> !s.allocMain)
  }

  ghost predicate Gone(s: State) {
    s.released == 1 && s.marked && !s.allocMain && forall b: nat :: !Out(s, b)
  }

  ghost predicate Inv(s: State) {
    (Alive(s) || Gone(s)) && (!s.allocMain ==> s.loads == 0)
  }

  lemma Cover(s: State)
    requires Partition(s)
    ensures SetOf(s.ring) + Outstanding(s) == Below(s.n) + (if s.marked then {s.n} else {})
    ensures SetOf(s.ring) !! Outstanding(s)
  {
    forall b: nat
      ensures b in s.ring || b in Outstanding(s) <==> b < s.n || (b == s.n && s.marked)
      ensures !(b in s.ring && b in Outstanding(s))
    {
      assert Places(s, b) == if b < s.n || (b == s.n && s.marked) then 1 else 0;
    }
  }

  /** Conservation: free and outstanding buffers always add up to the size of the pool. */
  lemma Conservation(s: State)
    requires Partition(s)
    ensures |s.ring| + |Outstanding(s)| == s.n + (if s.marked then 1 else 0)
  {
    Cover(s);
    SetOfSize(s.ring);
    var ring, out := SetOf(s.ring), Outstanding(s);
    assert |ring + out| == |ring| + |out|;
  }

  // ---------- every step keeps the invariant ----------

  lemma InitInv(n: nat)
    ensures Inv(Init(n))
  {
    var s := Init(n);
    forall b: nat ensures b in s.ring <==> b < n {
      if b < n { assert s.ring[b] == b; }
    }
    assert Partition(s);
  }

  // Partition survives a step that moves no token other than b.
  lemma Moved(s: State, s': State, b: nat)
    requires Partition(s) && s'.n == s.n && s'.marked == s.marked
    requires forall c: nat :: c != b ==> Places(s', c) == Places(s, c) && (Out(s', c) ==> Out(s, c))
    requires Places(s', b) == Places(s, b) && (Out(s', b) ==> b < s.n)
    requires NoDup(s'.ring) && |s'.ring| <= s.n
    ensures Partition(s')
  {}

  lemma DequeueKeeps(s: State)
    requires Alive(s) && s.allocMain && s.loads > 0
    ensures Alive(Do(s, AllocDequeue))
  {
    if s.ring != [] {
      var b := s.ring[0];
      assert Places(s, b) == 1;
      SetOfTail(s.ring);
      Moved(s, Do(s, AllocDequeue), b);
    } else {
      Moved(s, Do(s, AllocDequeue), 0);
    }
  }

  lemma FreeDecKeeps(s: State, b: nat)
    requires Alive(s) && b in s.holds
    ensures Alive(Do(s, FreeDec(b)))
  {
    assert Places(s, b) == 1;
    Moved(s, Do(s, FreeDec(b)), b);
  }

  lemma ShareKeeps(s: State, b: nat)
    requires Alive(s) && b in s.holds
    ensures Alive(Do(s, Share(b)))
  {
    Moved(s, Do(s, Share(b)), b);
  }

  lemma AllocInitKeeps(s: State, b: nat)
    requires Alive(s) && b in s.starting
    ensures Alive(Do(s, AllocInit(b)))
  {
    assert Places(s, b) == 1 && Out(s, b);
    Moved(s, Do(s, AllocInit(b)), b);
  }

  // The return that finds the ring full is the return of the last outstanding buffer.
  lemma FullMeansLast(s: State, b: nat)
    requires Alive(s) && b in s.returning && |s.ring| == s.n
    ensures s.marked && Outstanding(s) == {b}
  {
    Conservation(s);
    OnlyElement(Outstanding(s), b);
  }

  lemma FreeReturnKeeps(s: State, b: nat)
    requires Alive(s) && b in s.returning
    ensures var s' := Do(s, FreeReturn(b)); Alive(s') || Gone(s')
  {
    var s' := Do(s, FreeReturn(b));
    assert Places(s, b) == 1 && Out(s, b);
    if |s.ring| == s.n {
      FullMeansLast(s, b);
      forall c: nat ensures !Out(s', c) {
        assert Out(s, c) ==> c in Outstanding(s);
      }
    } else {
      SetOfAppend(s.ring, b);
      Moved(s, s', b);
    }
  }

  lemma DestroyMarkKeeps(s: State)
    requires Alive(s) && !s.allocMain && !s.marked
    ensures var s' := Do(s, DestroyMark); Alive(s') || Gone(s')
  {
    var s' := Do(s, DestroyMark);
    if |s.ring| == s.n {
      Conservation(s);
      forall c: nat ensures !Out(s', c) {
        assert Out(s, c) ==> c in Outstanding(s);
      }
    } else {
      assert Places(s, s.n) == 0;
      SetOfAppend(s.ring, s.n);
      forall c: nat
        ensures Places(s', c) == if c <= s.n then 1 else 0
        ensures Out(s', c) ==> c < s.n
      {
        assert Places(s, c) == if c < s.n then 1 else 0;
        assert Out(s', c) == Out(s, c);
      }
      assert Alive(s');
    }
  }

  // Without the clause on allocs in flight, kept by every step but a late dequeue.
  lemma StepKeeps(s: State, step: Step)
    requires Alive(s) && CanDo(s, step) && Owed(s, step)
    requires step.AllocDequeue? ==> s.allocMain
    ensures Alive(Do(s, step)) || Gone(Do(s, step))
  {
    match step
    case AllocLoad => Moved(s, Do(s, step), 0);
    case AllocDequeue => DequeueKeeps(s);
    case AllocInit(b) => AllocInitKeeps(s, b);
    case AllocLate(b) =>
    case Share(b) => ShareKeeps(s, b);
    case FreeDec(b) => FreeDecKeeps(s, b);
    case FreeReturn(b) => FreeReturnKeeps(s, b);
    case DestroySwap => Moved(s, Do(s, step), 0);
    case DestroyMark => DestroyMarkKeeps(s);
  }

  // Nothing is left to do on a pool that is gone.
  lemma GoneIsFinal(s: State, step: Step)
    requires Gone(s) && s.loads == 0
    ensures !(CanDo(s, step) && Owed(s, step))
  {
    match step
    case AllocInit(b) => assert !Out(s, b);
    case AllocLate(b) => assert !Out(s, b);
    case Share(b) => assert !Out(s, b);
    case FreeDec(b) => assert !Out(s, b);
    case FreeReturn(b) => assert !Out(s, b);
    case _ =>
  }

  lemma InvStep(s: State, step: Step)
    requires Inv(s) && CanDo(s, step) && Owed(s, step)
    ensures Alive(s) && Inv(Do(s, step)) && Do(s, step).n == s.n
  {
    if Gone(s) { GoneIsFinal(s, step); }
    StepKeeps(s, step);
  }

  lemma {:induction false} RunKeeps(s: State, run: seq<Step>)
    requires Inv(s) && LegalRun(s, run)
    ensures Inv(After(s, run)) && After(s, run).n == s.n
    decreases |run|
  {
    if run != [] {
      InvStep(s, run[0]);
      RunKeeps(Do(s, run[0]), run[1..]);
    }
  }

  // A state that some interleaving of a new pool reaches.
  ghost predicate Reachable(s: State) {
    exists n: nat, run: seq<Step> :: LegalRun(Init(n), run) && s == After(Init(n), run)
  }

  lemma {:induction false} RunAppend(s: State, run: seq<Step>, step: Step)
    requires LegalRun(s, run) && CanDo(After(s, run), step) && Owed(After(s, run), step)
    ensures LegalRun(s, run + [step]) && After(s, run + [step]) == Do(After(s, run), step)
    decreases |run|
  {
    if run != [] {
      assert (run + [step])[1..] == run[1..] + [step];
      RunAppend(Do(s, run[0]), run[1..], step);
    }
  }

  lemma ReachableInit(n: nat)
    ensures Reachable(Init(n))
  {
    assert LegalRun(Init(n), []) && Init(n) == After(Init(n), []);
  }

  lemma ReachableStep(s: State, step: Step)
    requires Reachable(s) && CanDo(s, step) && Owed(s, step)
    ensures Reachable(Do(s, step))
  {
    var n: nat, run: seq<Step> :| LegalRun(Init(n), run) && s == After(Init(n), run);
    RunAppend(Init(n), run, step);
  }

  lemma ReachableInv(s: State)
    requires Reachable(s)
    ensures Inv(s)
  {
    var n: nat, run: seq<Step> :| LegalRun(Init(n), run) && s == After(Init(n), run);
    InitInv(n);
    RunKeeps(Init(n), run);
  }

  // ---------- main results ----------

  /** In every interleaving the pool memory is released at most once, and it has been
      released exactly when destroy has run and no buffer is outstanding. */
  lemma ReleasedExactlyWhenDrained(s: State)
    requires Reachable(s)
    ensures s.released <= 1 && (s.released == 1 <==> s.marked && Outstanding(s) == {})
  {
    ReachableInv(s);
    if Alive(s) { Conservation(s); }
    assert forall b :: b in Outstanding(s) ==> Out(s, b);
  }

  /** No step of any thread touches pool memory that has been released. */
  lemma NoTouchAfterRelease(s: State, step: Step)
    requires Reachable(s) && CanDo(s, step) && Owed(s, step)
    ensures s.released == 0
  {
    ReachableInv(s);
    InvStep(s, step);
  }

  /** While the pool is there each buffer is in exactly one place, and the count of a buffer
      in use is the number of references in clients' hands. */
  lemma BuffersAreInOnePlace(s: State, b: nat)
    requires Reachable(s) && s.released == 0 && b < s.n
    ensures multiset(s.ring)[b] + (if b in s.starting then 1 else 0) + (if b in s.returning then 1 else 0)
            + (if b in s.holds then 1 else 0) == 1
    ensures b in s.holds ==> Ref(s, b) == s.holds[b]
  {
    ReachableInv(s);
    assert Places(s, b) == 1;
    OccursOnce(s.ring, b);
  }

  // The references to b that the steps of a run hand out, and those that they take back.
  function HandedOut(run: seq<Step>, b: nat): nat {
    if run == [] then 0 else HandedOut(run[1..], b) + (if run[0] == AllocInit(b) || run[0] == Share(b) then 1 else 0)
  }

  function TakenBack(run: seq<Step>, b: nat): nat {
    if run == [] then 0 else TakenBack(run[1..], b) + (if run[0] == FreeDec(b) then 1 else 0)
  }

  lemma {:induction false} Ledger(s: State, run: seq<Step>, b: nat)
    requires LegalRun(s, run)
    ensures After(s, run).holds[b] + TakenBack(run, b) == s.holds[b] + HandedOut(run, b)
    decreases |run|
  {
    if run != [] { Ledger(Do(s, run[0]), run[1..], b); }
  }

  /** In every interleaving the count of a buffer in use is the number of times it was allocated or shared, less the
      number of times it was freed; and it is in nobody's hands exactly when the two are the same. */
  lemma CountIsLedger(n: nat, run: seq<Step>, b: nat)
    requires LegalRun(Init(n), run)
    ensures var s := After(Init(n), run);
            && TakenBack(run, b) <= HandedOut(run, b)
            && (b in s.holds <==> TakenBack(run, b) < HandedOut(run, b))
            && (b in s.holds ==> Ref(s, b) == HandedOut(run, b) - TakenBack(run, b))
  {
    Ledger(Init(n), run, b);
    InitInv(n);
    RunKeeps(Init(n), run);
    if b in After(Init(n), run).holds { assert Out(After(Init(n), run), b); }
  }

  function StepsOf(run: seq<Step>, step: Step): nat {
    if run == [] then 0 else StepsOf(run[1..], step) + (if run[0] == step then 1 else 0)
  }

  lemma {:induction false} LoadLedger(s: State, run: seq<Step>)
    requires LegalRun(s, run)
    ensures After(s, run).loads + StepsOf(run, AllocDequeue) == s.loads + StepsOf(run, AllocLoad)
    decreases |run|
  {
    if run != [] { LoadLedger(Do(s, run[0]), run[1..]); }
  }

  /** In every interleaving the allocs that have read ring_alloc and not yet dequeued are as many as the reads so far
      less the dequeues, whether those found a buffer or not; so destroy is owed exactly that these are the same. */
  lemma InFlightIsLedger(n: nat, run: seq<Step>)
    requires LegalRun(Init(n), run)
    ensures StepsOf(run, AllocDequeue) <= StepsOf(run, AllocLoad)
    ensures Owed(After(Init(n), run), DestroySwap) <==> StepsOf(run, AllocDequeue) == StepsOf(run, AllocLoad)
  {
    LoadLedger(Init(n), run);
  }

  // ---------- the obligation on allocs in flight is needed ----------

  // Less is under way, or out, than before.
  ghost predicate Less(s': State, s: State) {
    || s'.starting < s.starting
    || (s'.starting == s.starting && s'.holds < s.holds)
    || (s'.starting == s.starting && s'.holds == s.holds && s'.returning < s.returning)
  }

  lemma FinishingIsLess(s: State, step: Step)
    requires CanDo(s, step) && Owed(s, step) && (step.AllocInit? || step.FreeDec? || step.FreeReturn?)
    ensures var s' := Do(s, step); Less(s', s) && s'.loads == s.loads && s'.marked == s.marked
  {}

  // Some operation under way can be finished, or some reference given back.
  lemma Progress(s: State) returns (step: Step)
    requires Alive(s) && s.marked
    ensures CanDo(s, step) && Owed(s, step) && (step.AllocInit? || step.FreeDec? || step.FreeReturn?)
    ensures Alive(Do(s, step)) || Gone(Do(s, step))
  {
    Conservation(s);
    if s.starting != {} {
      var b :| b in s.starting;
      step := AllocInit(b);
    } else if s.holds != multiset{} {
      var b :| b in s.holds;
      step := FreeDec(b);
    } else {
      assert s.returning != {};
      var b :| b in s.returning;
      step := FreeReturn(b);
    }
    StepKeeps(s, step);
  }

  // Every reference given back in the run is to one of these buffers.
  ghost predicate FreedBy(run: seq<Step>, givers: set<nat>) {
    forall i :: 0 <= i < |run| && run[i].FreeDec? ==> run[i].b in givers
  }

  lemma FreedByCons(step: Step, rest: seq<Step>, givers: set<nat>)
    requires FreedBy(rest, givers) && (step.FreeDec? ==> step.b in givers)
    ensures FreedBy([step] + rest, givers)
  {
    assert forall i :: 0 < i < |[step] + rest| ==> ([step] + rest)[i] == rest[i - 1];
  }

  // The buffers to which someone has, or is about to have, a reference.
  function Referenced(s: State): set<nat> {
    s.starting + (set b | b in s.holds)
  }

  lemma ProgressGivers(s: State, step: Step)
    requires CanDo(s, step) && Owed(s, step) && (step.AllocInit? || step.FreeDec? || step.FreeReturn?)
    ensures Referenced(Do(s, step)) <= Referenced(s) && (step.FreeDec? ==> step.b in Referenced(s))
  {}

  lemma {:induction false} Drain(s: State) returns (run: seq<Step>)
    requires Alive(s) && s.marked
    ensures LegalRun(s, run) && Gone(After(s, run)) && After(s, run).loads == s.loads
    ensures FreedBy(run, Referenced(s))
    decreases s.starting, s.holds, s.returning
  {
    var step := Progress(s);
    FinishingIsLess(s, step);
    ProgressGivers(s, step);
    var rest := [];
    if Alive(Do(s, step)) { rest := Drain(Do(s, step)); }
    FreedByCons(step, rest, Referenced(s));
    run := [step] + rest;
    assert run[1..] == rest;
  }

  lemma {:induction false} HeldStays(s: State, run: seq<Step>, b: nat)
    requires LegalRun(s, run) && b in Referenced(s) && forall i :: 0 <= i < |run| ==> run[i] != FreeDec(b)
    ensures b in Referenced(After(s, run))
    decreases |run|
  {
    if run != [] {
      assert b in Referenced(Do(s, run[0]));
      HeldStays(Do(s, run[0]), run[1..], b);
    }
  }

  lemma {:induction false} ReachableRun(s: State, run: seq<Step>)
    requires Reachable(s) && LegalRun(s, run)
    ensures Reachable(After(s, run))
    decreases |run|
  {
    if run != [] {
      ReachableStep(s, run[0]);
      ReachableRun(Do(s, run[0]), run[1..]);
    }
  }

  /** As long as one reference is not given back the pool is not released. */
  lemma HeldKeepsPool(s: State, run: seq<Step>, b: nat)
    requires Reachable(s) && LegalRun(s, run) && b in Referenced(s)
             && forall i :: 0 <= i < |run| ==> run[i] != FreeDec(b)
    ensures After(s, run).released == 0
  {
    HeldStays(s, run, b);
    ReachableRun(s, run);
    ReleasedExactlyWhenDrained(After(s, run));
    assert b in Outstanding(After(s, run));
  }

  ghost predicate ReleasesPool(s: State, run: seq<Step>, givers: set<nat>) {
    LegalRun(s, run) && FreedBy(run, givers) && After(s, run).released == 1
  }

  /** A destroyed pool can still be released by giving back references to some buffers exactly when those are all the
      buffers to which someone has, or is about to have, a reference. */
  lemma ReleasableIff(s: State, givers: set<nat>)
    requires Reachable(s) && s.marked && s.released == 0
    ensures (exists run :: ReleasesPool(s, run, givers)) <==> Referenced(s) <= givers
  {
    ReachableInv(s);
    if b :| b in Referenced(s) && b !in givers {
      forall run | LegalRun(s, run) && FreedBy(run, givers) ensures After(s, run).released == 0 {
        HeldKeepsPool(s, run, b);
      }
    } else {
      var run := Drain(s);
      assert ReleasesPool(s, run, givers);
    }
  }

  /** From every reachable state in which an alloc is between reading ring_alloc and dequeuing,
      calling destroy can lead to the pool being released with that alloc still to dequeue. */
  lemma AllocInFlightIsUnsafe(s: State) returns (run: seq<Step>)
    requires Reachable(s) && s.allocMain && s.loads > 0
    ensures var d := Do(s, DestroySwap);
            LegalRun(d, run) && After(d, run).released == 1 && CanDo(After(d, run), AllocDequeue)
  {
    ReachableInv(s);
    var d := Do(s, DestroySwap);
    Moved(s, d, 0);
    DestroyMarkKeeps(d);
    var m := Do(d, DestroyMark);
    var rest := [];
    if Alive(m) { rest := Drain(m); }
    run := [DestroyMark] + rest;
    assert run[1..] == rest;
  }
}
