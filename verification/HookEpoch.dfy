/**
 Hook callers against register and remove.

 Callers walk the published array without a lock, inside an epoch section. A writer, serialised
 by a mutex, publishes a new array with one store, waits until every section that was active
 when it started waiting has ended, and then frees the old array. Freed addresses may be handed
 out again. Every load, store, codelet call, section begin and end is a step of its own.
 */
module HookEpoch {
  import opened Collections
  import opened HookList

  // A caller inside its epoch section; `began` is the version current when it entered.
  datatype Reader =
    | Entered(began: nat)                                    // before the second load
    | Skipped(began: nat, ver: nat)                          // loaded NULL
    | Walking(began: nat, a: nat, ver: nat, i: nat, calling: bool, ran: seq<Entry>)

  datatype Writer =
    | Idle
    | Locked(op: Op)
    | Published(op: Op, old_: Option<nat>)
    | Waiting(op: Op, old_: Option<nat>, active: set<nat>)

  datatype State = State(
    ctrl: bool,
    heap: map<nat, seq<Entry>>,      // the arrays that are allocated
    codelets: Option<nat>,           // hook->codelets
    readers: map<nat, Reader>,
    writer: Writer,
    published: seq<seq<Entry>>)      // every list that was ever published, oldest first

  datatype Step =
    | Begin(t: nat)
    | Load(t: nat)
    | Call(t: nat)
    | Return(t: nat)
    | End(t: nat)
    | Lock(op: Op)
    | Publish(a: nat)                // a: the address of the new array, if one is needed
    | Synchronize
    | Free

  function Init(ctrl: bool): State {
    State(ctrl, map[], None, map[], Idle, [[]])
  }

  function Version(s: State): nat {
    if s.published == [] then 0 else |s.published| - 1
  }

  function Current(s: State): seq<Entry> {
    if s.published == [] then [] else s.published[|s.published| - 1]
  }

  predicate Applies(s: State, op: Op) {
    match op
    case Register(e, memory) => Registers(Current(s), s.ctrl, e, memory)
    case Remove(fn, memory) => Removes(Current(s), fn, memory)
  }

  function Updated(s: State, op: Op): seq<Entry> {
    match op
    case Register(e, memory) => Inserted(Current(s), e)
    case Remove(fn, memory) => Without(Current(s), fn)
  }

  predicate CanDo(s: State, step: Step) {
    match step
    case Begin(t) => t !in s.readers
    case Load(t) => t in s.readers && s.readers[t].Entered?
    case Call(t) =>
      && t in s.readers && s.readers[t].Walking? && !s.readers[t].calling
      && (s.readers[t].a in s.heap ==> s.readers[t].i < |s.heap[s.readers[t].a]|)
    case Return(t) => t in s.readers && s.readers[t].Walking? && s.readers[t].calling
    case End(t) =>
      && t in s.readers && !s.readers[t].Entered?
      && (s.readers[t].Walking? ==>
            !s.readers[t].calling && (s.readers[t].a in s.heap ==> s.readers[t].i >= |s.heap[s.readers[t].a]|))
    case Lock(op) => s.writer.Idle?
    case Publish(a) => s.writer.Locked? && a !in s.heap
    case Synchronize => s.writer.Published?
    case Free => s.writer.Waiting? && s.writer.active == {}
  }

  // The entry a walking caller is at; reading a freed array would give anything.
  function EntryAt(s: State, r: Reader): Entry
    requires r.Walking?
  {
    if r.a in s.heap && r.i < |s.heap[r.a]| then s.heap[r.a][r.i] else Entry(0, 0, 0)
  }

  // The store of the new pointer.
  function Publishing(s: State, op: Op, a: nat): State {
    var l := Updated(s, op);
    var s' := s.(writer := Published(op, s.codelets), published := s.published + [l]);
    if l == [] then s'.(codelets := None) else s'.(codelets := Some(a), heap := s.heap[a := l])
  }

  function Do(s: State, step: Step): State
    requires CanDo(s, step)
  {
    match step
    case Begin(t) => s.(readers := s.readers[t := Entered(Version(s))])
    case Load(t) =>
      var b := s.readers[t].began;
      s.(readers := s.readers[t := if s.codelets.None? then Skipped(b, Version(s))
                                   else Walking(b, s.codelets.value, Version(s), 0, false, [])])
    case Call(t) =>
      var r := s.readers[t];
      s.(readers := s.readers[t := r.(calling := true, ran := r.ran + [EntryAt(s, r)])])
    case Return(t) =>
      var r := s.readers[t];
      s.(readers := s.readers[t := r.(calling := false, i := r.i + 1)])
    case End(t) =>
      s.(readers := s.readers - {t},
         writer := if s.writer.Waiting? then s.writer.(active := s.writer.active - {t}) else s.writer)
    case Lock(op) => s.(writer := Locked(op))
    case Publish(a) =>
      if Applies(s, s.writer.op) then Publishing(s, s.writer.op, a) else s.(writer := Idle)
    case Synchronize =>
      // a first registration has nothing to free and does not wait
      if s.writer.old_.None? then s.(writer := Idle)
      else s.(writer := Waiting(s.writer.op, s.writer.old_, s.readers.Keys))
    case Free =>
      s.(writer := Idle, heap := if s.writer.old_.Some? then s.heap - {s.writer.old_.value} else s.heap)
  }

  predicate LegalRun(s: State, run: seq<Step>)
    decreases |run|
  {
    run == [] || (CanDo(s, run[0]) && LegalRun(Do(s, run[0]), run[1..]))
  }

  function After(s: State, run: seq<Step>): State
    requires LegalRun(s, run)
    decreases |run|
  {
    if run == [] then s else After(Do(s, run[0]), run[1..])
  }

  // ---------- the invariant ----------

  // The array that is being replaced.
  function Old(w: Writer): Option<nat> {
    if w.Published? || w.Waiting? then w.old_ else None
  }

  function Pointed(p: Option<nat>): set<nat> {
    if p.Some? then {p.value} else {}
  }

  // Besides the current array only the one being replaced is allocated.
  ghost predicate HeapOk(s: State) {
    && s.heap.Keys == Pointed(s.codelets) + Pointed(Old(s.writer))
    && (s.writer.Published? || s.writer.Waiting? ==>
          |s.published| >= 2 && (s.writer.old_.None? <==> s.published[|s.published| - 2] == []))
    && (s.writer.Waiting? ==> s.writer.old_.Some?)
  }

  // The pointer and what it points at.
  ghost predicate PointerOk(s: State) {
    && s.published != []
    && (s.codelets.None? <==> Current(s) == [])
    && (s.codelets.Some? ==> s.codelets.value in s.heap && s.heap[s.codelets.value] == Current(s))
    && (Old(s.writer).Some? ==> Old(s.writer).value in s.heap && Old(s.writer) != s.codelets)
    && HeapOk(s)
  }

  // The caller walks a published list of its own time, from the start, skipping nothing.
  ghost predicate WalkOk(s: State, r: Reader) {
    r.Walking? ==>
      && r.a in s.heap && r.began <= r.ver < |s.published| && s.heap[r.a] == s.published[r.ver]
      && r.i + (if r.calling then 1 else 0) <= |s.heap[r.a]|
      && r.ran == s.heap[r.a][..r.i + (if r.calling then 1 else 0)]
  }

  // The caller that found NULL did so when nothing was registered.
  ghost predicate SkipOk(s: State, r: Reader) {
    r.Skipped? ==> r.began <= r.ver < |s.published| && s.published[r.ver] == []
  }

  // It is at the current array, or at the one being replaced and waited for.
  ghost predicate PlaceOk(s: State, t: nat, r: Reader) {
    r.Walking? ==>
      s.codelets == Some(r.a) || (Old(s.writer) == Some(r.a) && (s.writer.Waiting? ==> t in s.writer.active))
  }

  ghost predicate CallerOk(s: State, t: nat, r: Reader) {
    WalkOk(s, r) && SkipOk(s, r) && PlaceOk(s, t, r)
  }

  ghost predicate Inv(s: State) {
    && PointerOk(s)
    && (s.writer.Waiting? ==> s.writer.active <= s.readers.Keys)
    && (forall t :: t in s.readers ==> s.readers[t].began < |s.published|)
    && (forall t :: t in s.readers ==> CallerOk(s, t, s.readers[t]))
  }

  lemma ReaderStepKeeps(s: State, step: Step)
    requires Inv(s) && CanDo(s, step) && (step.Begin? || step.Load? || step.Call? || step.Return? || step.End?)
    ensures Inv(Do(s, step))
  {
    var s' := Do(s, step);
    forall t | t in s'.readers
      ensures s'.readers[t].began < |s'.published| && CallerOk(s', t, s'.readers[t])
    {
      if t in s.readers { assert CallerOk(s, t, s.readers[t]); }
    }
  }

  lemma PublishPointer(s: State, op: Op, a: nat)
    requires PointerOk(s) && a !in s.heap && Old(s.writer).None?
    ensures PointerOk(Publishing(s, op, a))
  {
    assert Current(Publishing(s, op, a)) == Updated(s, op);
  }

  // A caller does not notice that more is published and allocated.
  lemma WalkFrame(s: State, s': State, r: Reader)
    requires WalkOk(s, r) && s.published <= s'.published
    requires r.Walking? ==> r.a in s'.heap && s'.heap[r.a] == s.heap[r.a]
    ensures WalkOk(s', r)
  {}

  lemma PublishKeeps(s: State, op: Op, a: nat)
    requires Inv(s) && a !in s.heap && Old(s.writer).None?
    ensures Inv(Publishing(s, op, a))
  {
    var s' := Publishing(s, op, a);
    PublishPointer(s, op, a);
    forall t | t in s'.readers
      ensures s'.readers[t].began < |s'.published| && CallerOk(s', t, s'.readers[t])
    {
      assert CallerOk(s, t, s.readers[t]);
      WalkFrame(s, s', s.readers[t]);
    }
  }

  // Freeing only once nobody is left at the old array.
  lemma FreeKeeps(s: State)
    requires Inv(s) && CanDo(s, Free)
    ensures Inv(Do(s, Free))
  {
    var s' := Do(s, Free);
    forall t | t in s'.readers ensures CallerOk(s', t, s'.readers[t]) {
      assert CallerOk(s, t, s.readers[t]);
    }
  }

  lemma WriterStepKeeps(s: State, step: Step)
    requires Inv(s) && CanDo(s, step)
             && (step.Lock? || step.Synchronize? || (step.Publish? && !Applies(s, s.writer.op)))
    ensures Inv(Do(s, step))
  {
    var s' := Do(s, step);
    forall t | t in s'.readers ensures CallerOk(s', t, s'.readers[t]) {
      assert CallerOk(s, t, s.readers[t]);
    }
  }

  lemma StepKeeps(s: State, step: Step)
    requires Inv(s) && CanDo(s, step)
    ensures Inv(Do(s, step))
  {
    match step
    case Publish(a) =>
      if Applies(s, s.writer.op) { PublishKeeps(s, s.writer.op, a); } else { WriterStepKeeps(s, step); }
    case Free => FreeKeeps(s);
    case Lock(_) => WriterStepKeeps(s, step);
    case Synchronize => WriterStepKeeps(s, step);
    case _ => ReaderStepKeeps(s, step);
  }

  lemma {:induction false} RunKeeps(s: State, run: seq<Step>)
    requires Inv(s) && LegalRun(s, run)
    ensures Inv(After(s, run))
    decreases |run|
  {
    if run != [] {
      StepKeeps(s, run[0]);
      RunKeeps(Do(s, run[0]), run[1..]);
    }
  }

  ghost predicate Reachable(s: State) {
    exists ctrl: bool, run: seq<Step> :: LegalRun(Init(ctrl), run) && s == After(Init(ctrl), run)
  }

  lemma ReachableInv(s: State)
    requires Reachable(s)
    ensures Inv(s)
  {
    var ctrl: bool, run: seq<Step> :| LegalRun(Init(ctrl), run) && s == After(Init(ctrl), run);
    RunKeeps(Init(ctrl), run);
  }

  // ---------- main results ----------

  /** No caller ever reads an array that has been freed. */
  lemma NoUseAfterFree(s: State, t: nat)
    requires Reachable(s) && t in s.readers && s.readers[t].Walking?
    ensures s.readers[t].a in s.heap
  {
    ReachableInv(s);
    assert CallerOk(s, t, s.readers[t]);
  }

  // What a caller has run so far.
  function Ran(r: Reader): seq<Entry> {
    if r.Walking? then r.ran else []
  }

  /** A caller that leaves its section has run, in order, exactly the codelets of one list that was current at some
      moment of the section: none exactly when nothing was registered at that moment. */
  lemma SectionRunsOneList(s: State, t: nat) returns (ver: nat)
    requires Reachable(s) && CanDo(s, End(t))
    ensures s.readers[t].began <= ver < |s.published| && Ran(s.readers[t]) == s.published[ver]
  {
    ReachableInv(s);
    assert CallerOk(s, t, s.readers[t]);
    ver := s.readers[t].ver;
  }

  // The steps of caller t, and publications.
  predicate Quiet(run: seq<Step>, t: nat) {
    forall i :: 0 <= i < |run| ==> !run[i].Publish? && !(run[i].End? && run[i].t == t)
  }

  lemma {:induction false} QuietKeepsSection(s: State, run: seq<Step>, t: nat)
    requires LegalRun(s, run) && Quiet(run, t) && t in s.readers
    ensures After(s, run).published == s.published
    ensures t in After(s, run).readers && After(s, run).readers[t].began == s.readers[t].began
    decreases |run|
  {
    if run != [] {
      assert Quiet(run[1..], t);
      QuietKeepsSection(Do(s, run[0]), run[1..], t);
    }
  }

  /** When no update is published from the time a caller enters to the time it leaves, it has run exactly the list that
      was current all along. */
  lemma UndisturbedRunsCurrent(s: State, t: nat, run: seq<Step>)
    requires Reachable(s) && CanDo(s, Begin(t)) && LegalRun(Do(s, Begin(t)), run) && Quiet(run, t)
    requires CanDo(After(Do(s, Begin(t)), run), End(t))
    ensures Ran(After(Do(s, Begin(t)), run).readers[t]) == Current(s)
  {
    var s1 := Do(s, Begin(t));
    ReachableInv(s);
    ReachableMore(s, [Begin(t)] + run);
    assert ([Begin(t)] + run)[1..] == run;
    QuietKeepsSection(s1, run, t);
    var ver := SectionRunsOneList(After(s1, run), t);
  }

  lemma {:induction false} RunSplice(s: State, run: seq<Step>, more: seq<Step>)
    requires LegalRun(s, run) && LegalRun(After(s, run), more)
    ensures LegalRun(s, run + more) && After(s, run + more) == After(After(s, run), more)
    decreases |run|
  {
    if run == [] {
      assert run + more == more;
    } else {
      RunSplice(Do(s, run[0]), run[1..], more);
      assert (run + more)[1..] == run[1..] + more;
    }
  }

  lemma RunOfOne(s: State, step: Step)
    requires CanDo(s, step)
    ensures LegalRun(s, [step]) && After(s, [step]) == Do(s, step)
  {
    assert [step][1..] == [];
  }

  lemma ReachableMore(s: State, more: seq<Step>)
    requires Reachable(s) && LegalRun(s, more)
    ensures Reachable(After(s, more))
  {
    var ctrl: bool, run: seq<Step> :| LegalRun(Init(ctrl), run) && s == After(Init(ctrl), run);
    RunSplice(Init(ctrl), run, more);
  }

  // The next step of a caller.
  function NextOf(s: State, t: nat): Step
    requires t in s.readers
  {
    var r := s.readers[t];
    if r.Entered? then Load(t)
    else if r.Skipped? then End(t)
    else if r.calling then Return(t)
    else if r.a in s.heap && r.i < |s.heap[r.a]| then Call(t) else End(t)
  }

  // How many steps it is from leaving its section.
  function ToGo(s: State, t: nat): nat
    requires t in s.readers
  {
    var r := s.readers[t];
    if r.Entered? then 2 * (if s.codelets.Some? && s.codelets.value in s.heap then |s.heap[s.codelets.value]| else 0)
      + 1
    else if r.Skipped? || r.a !in s.heap || r.i >= |s.heap[r.a]| then 0
    else 2 * (|s.heap[r.a]| - r.i) - (if r.calling then 1 else 0)
  }

  /** A caller on its own always comes to the end of its section, having run one whole list. */
  lemma {:induction false} CallerFinishes(s: State, t: nat) returns (run: seq<Step>)
    requires Reachable(s) && t in s.readers
    ensures LegalRun(s, run) && t in After(s, run).readers && CanDo(After(s, run), End(t))
    ensures forall i :: 0 <= i < |run| ==> run[i] in {Load(t), Call(t), Return(t)}
    decreases ToGo(s, t)
  {
    ReachableInv(s);
    assert CallerOk(s, t, s.readers[t]);
    var step := NextOf(s, t);
    run := [];
    if step != End(t) {
      var s' := Do(s, step);
      RunOfOne(s, step);
      ReachableMore(s, [step]);
      var rest := CallerFinishes(s', t);
      run := [step] + rest;
      assert run[1..] == rest;
    }
  }

  // A caller is inside codelet fn.
  predicate Running(s: State, t: nat, fn: nat) {
    && t in s.readers && s.readers[t].Walking? && s.readers[t].calling
    && s.readers[t].ran != [] && s.readers[t].ran[|s.readers[t].ran| - 1].fn == fn
  }

  /** No array is lost: when no update is under way the current array is the only one allocated, and none is when no
      codelet is registered. */
  lemma OneArrayWhenIdle(s: State)
    requires Reachable(s) && (s.writer.Idle? || s.writer.Locked?)
    ensures Current(s) == [] ==> s.heap == map[]
    ensures Current(s) != [] ==> s.codelets.Some? && s.heap == map[s.codelets.value := Current(s)]
  {
    ReachableInv(s);
  }

  /** An update of a hook without codelets replaces no array and waits for no caller; any other waits for all callers
      that are inside when it has published. */
  lemma WaitsIffReplaces(s: State)
    requires Reachable(s) && s.writer.Published?
    ensures |s.published| >= 2
    ensures var s' := Do(s, Synchronize);
            if s.published[|s.published| - 2] == [] then s'.writer.Idle?
            else s'.writer.Waiting? && s'.writer.active == s.readers.Keys
  {
    ReachableInv(s);
  }

  /** In every interleaving the hook's pointer is NULL exactly when no codelet is registered, and otherwise leads to an
      allocated array of the current list. */
  lemma NullIffEmpty(s: State)
    requires Reachable(s)
    ensures s.codelets.None? <==> Current(s) == []
    ensures s.codelets.Some? ==> s.codelets.value in s.heap && s.heap[s.codelets.value] == Current(s)
  {
    ReachableInv(s);
  }

  /** Whenever no update is under way, callers run only codelets of the current list. */
  lemma IdleMeansCurrent(s: State, t: nat, fn: nat)
    requires Reachable(s) && s.writer.Idle? && Running(s, t, fn)
    ensures Present(Current(s), fn)
  {
    ReachableInv(s);
    var r := s.readers[t];
    assert CallerOk(s, t, r);
    assert Current(s)[r.i].fn == fn;
  }

  // ---------- after a remove ----------

  predicate Registering(w: Writer, fn: nat) {
    !w.Idle? && w.op.Register? && w.op.e.fn == fn
  }

  // Neither list that callers may walk holds fn, and no update is about to add it.
  ghost predicate Absent(s: State, fn: nat) {
    && !Present(Current(s), fn) && !Registering(s.writer, fn)
    && (Old(s.writer).Some? && Old(s.writer).value in s.heap ==> !Present(s.heap[Old(s.writer).value], fn))
  }

  lemma AbsentIsQuiet(s: State, fn: nat, t: nat)
    requires Inv(s) && Absent(s, fn)
    ensures !Running(s, t, fn)
  {
    if t in s.readers && s.readers[t].Walking? && s.readers[t].calling {
      var r := s.readers[t];
      assert CallerOk(s, t, r);
      assert r.ran[|r.ran| - 1] == s.heap[r.a][r.i];
    }
  }

  lemma PublishAbsent(s: State, a: nat, fn: nat)
    requires Inv(s) && Absent(s, fn) && CanDo(s, Publish(a))
    ensures Absent(Do(s, Publish(a)), fn)
  {
    var s', op := Do(s, Publish(a)), s.writer.op;
    if Applies(s, op) {
      assert Current(s') == Updated(s, op);
      match op
      case Register(e, _) => InsertedPresent(Current(s), e, fn);
      case Remove(g, _) => WithoutPresent(Current(s), g, fn);
    }
  }

  lemma AbsentStep(s: State, step: Step, fn: nat)
    requires Inv(s) && Absent(s, fn) && CanDo(s, step)
    requires !(step.Lock? && step.op.Register? && step.op.e.fn == fn)
    ensures Absent(Do(s, step), fn)
  {
    if step.Publish? { PublishAbsent(s, step.a, fn); }
  }

  predicate NoRegistration(run: seq<Step>, fn: nat) {
    forall i :: 0 <= i < |run| ==> !(run[i].Lock? && run[i].op.Register? && run[i].op.e.fn == fn)
  }

  lemma {:induction false} StaysQuiet(s: State, run: seq<Step>, fn: nat, t: nat)
    requires Inv(s) && Absent(s, fn) && LegalRun(s, run) && NoRegistration(run, fn)
    ensures !Running(After(s, run), t, fn)
    decreases |run|
  {
    if run == [] {
      AbsentIsQuiet(s, fn, t);
    } else {
      StepKeeps(s, run[0]);
      AbsentStep(s, run[0], fn);
      assert NoRegistration(run[1..], fn);
      StaysQuiet(Do(s, run[0]), run[1..], fn, t);
    }
  }

  // The codelet named by a remove that has published is in the old list only.
  ghost predicate RemoveOk(s: State) {
    (s.writer.Published? || s.writer.Waiting?) && s.writer.op.Remove? ==> !Present(Current(s), s.writer.op.fn)
  }

  lemma RemoveOkStep(s: State, step: Step)
    requires RemoveOk(s) && CanDo(s, step)
    ensures RemoveOk(Do(s, step))
  {
    if step.Publish? && Applies(s, s.writer.op) && s.writer.op.Remove? {
      WithoutPresent(Current(s), s.writer.op.fn, s.writer.op.fn);
    }
  }

  lemma {:induction false} RemoveOkRun(s: State, run: seq<Step>)
    requires RemoveOk(s) && LegalRun(s, run)
    ensures RemoveOk(After(s, run))
    decreases |run|
  {
    if run != [] {
      RemoveOkStep(s, run[0]);
      RemoveOkRun(Do(s, run[0]), run[1..]);
    }
  }

  /** Once a successful remove has returned, no caller is inside the removed codelet, then or at
      any later time until a registration of it starts: its code may be freed. */
  lemma RemovedCodeletNeverRuns(s: State, run: seq<Step>, t: nat)
    requires Reachable(s) && CanDo(s, Free) && s.writer.op.Remove?
    requires LegalRun(Do(s, Free), run) && NoRegistration(run, s.writer.op.fn)
    ensures !Running(After(Do(s, Free), run), t, s.writer.op.fn)
  {
    var ctrl: bool, before: seq<Step> :| LegalRun(Init(ctrl), before) && s == After(Init(ctrl), before);
    RemoveOkRun(Init(ctrl), before);
    ReachableInv(s);
    FreeKeeps(s);
    StaysQuiet(Do(s, Free), run, s.writer.op.fn, t);
  }

  // ---------- what is published ----------

  // The updates of a run, in the order in which they took the lock.
  function Updates(run: seq<Step>): seq<Op> {
    if run == [] then [] else (if run[0].Lock? then [run[0].op] else []) + Updates(run[1..])
  }

  // Those that have been decided: all but one that holds the lock and has not published yet.
  ghost predicate Decided(s: State, ops: seq<Op>, all: seq<Op>) {
    all == ops + if s.writer.Locked? then [s.writer.op] else []
  }

  // Every version published is the list after some of the updates, and the last is that after all of them.
  ghost predicate Versions(s: State, ops: seq<Op>) {
    && s.published != [] && Current(s) == HookList.After(s.ctrl, ops).list
    && forall k :: 0 <= k < |s.published| ==> IsVersion(s.ctrl, s.published[k], ops)
  }

  ghost predicate IsVersion(ctrl: bool, list: seq<Entry>, ops: seq<Op>) {
    exists n :: 0 <= n <= |ops| && list == HookList.After(ctrl, ops[..n]).list
  }

  lemma VersionMore(ctrl: bool, list: seq<Entry>, ops: seq<Op>, op: Op)
    requires IsVersion(ctrl, list, ops)
    ensures IsVersion(ctrl, list, ops + [op])
  {
    var n :| 0 <= n <= |ops| && list == HookList.After(ctrl, ops[..n]).list;
    assert (ops + [op])[..n] == ops[..n];
  }

  lemma LastVersion(ctrl: bool, ops: seq<Op>)
    ensures IsVersion(ctrl, HookList.After(ctrl, ops).list, ops)
  {
    assert ops[..|ops|] == ops;
  }

  lemma PublishedList(s: State, a: nat)
    requires CanDo(s, Publish(a)) && s.published != []
    ensures var s', op := Do(s, Publish(a)), s.writer.op;
            && Current(s') == (if Applies(s, op) then Updated(s, op) else Current(s)) && s'.ctrl == s.ctrl
            && s'.published == s.published + (if Applies(s, op) then [Current(s')] else [])
  {}

  lemma AppliedList(s: State, h: Hist, op: Op)
    requires h.list == Current(s)
    ensures Apply(h, s.ctrl, op).list == if Applies(s, op) then Updated(s, op) else Current(s)
  {}

  lemma AfterNext(ctrl: bool, ops: seq<Op>, op: Op)
    ensures HookList.After(ctrl, ops + [op]) == Apply(HookList.After(ctrl, ops), ctrl, op)
  {
    assert (ops + [op])[..|ops|] == ops;
  }

  lemma PublishVersions(s: State, a: nat, ops: seq<Op>)
    requires CanDo(s, Publish(a)) && Versions(s, ops)
    ensures Versions(Do(s, Publish(a)), ops + [s.writer.op])
  {
    var s', ops' := Do(s, Publish(a)), ops + [s.writer.op];
    PublishedList(s, a);
    AppliedList(s, HookList.After(s.ctrl, ops), s.writer.op);
    AfterNext(s.ctrl, ops, s.writer.op);
    LastVersion(s.ctrl, ops');
    forall k | 0 <= k < |s'.published| ensures IsVersion(s.ctrl, s'.published[k], ops') {
      if k < |s.published| { VersionMore(s.ctrl, s.published[k], ops, s.writer.op); }
    }
  }

  // The updates decided after one more step.
  function NextOps(s: State, step: Step, ops: seq<Op>): seq<Op> {
    if step.Publish? && s.writer.Locked? then ops + [s.writer.op] else ops
  }

  lemma VersionsStep(s: State, step: Step, ops: seq<Op>)
    requires CanDo(s, step) && Versions(s, ops)
    ensures Versions(Do(s, step), NextOps(s, step, ops)) && Do(s, step).ctrl == s.ctrl
  {
    if step.Publish? {
      PublishVersions(s, step.a, ops);
    } else {
      assert Do(s, step).published == s.published && Do(s, step).ctrl == s.ctrl;
    }
  }

  lemma DecidedStep(s: State, step: Step, ops: seq<Op>, all: seq<Op>)
    requires CanDo(s, step) && Decided(s, ops, all)
    ensures Decided(Do(s, step), NextOps(s, step, ops), all + Updates([step]))
  {
    assert [step][1..] == [];
    if !step.Lock? { assert all + Updates([step]) == all; }
  }

  // The run so far has made these updates.
  ghost predicate Booked(s: State, all: seq<Op>) {
    exists ops :: Versions(s, ops) && Decided(s, ops, all)
  }

  lemma BookedStep(s: State, step: Step, all: seq<Op>)
    requires CanDo(s, step) && Booked(s, all)
    ensures Booked(Do(s, step), all + Updates([step])) && Do(s, step).ctrl == s.ctrl
  {
    var ops :| Versions(s, ops) && Decided(s, ops, all);
    VersionsStep(s, step, ops);
    DecidedStep(s, step, ops, all);
  }

  lemma UpdatesCons(step: Step, rest: seq<Step>)
    ensures Updates([step] + rest) == Updates([step]) + Updates(rest)
  {
    assert ([step] + rest)[1..] == rest && [step][1..] == [];
  }

  lemma Regroup(a: seq<Op>, b: seq<Op>, c: seq<Op>)
    ensures a + (b + c) == (a + b) + c
  {}

  lemma {:induction false} BookedRun(s: State, run: seq<Step>, all: seq<Op>)
    requires LegalRun(s, run) && Booked(s, all)
    ensures Booked(After(s, run), all + Updates(run)) && After(s, run).ctrl == s.ctrl
    decreases |run|
  {
    if run == [] {
      assert all + [] == all;
    } else {
      assert run == [run[0]] + run[1..];
      UpdatesCons(run[0], run[1..]);
      BookedStep(s, run[0], all);
      BookedRun(Do(s, run[0]), run[1..], all + Updates([run[0]]));
      Regroup(all, Updates([run[0]]), Updates(run[1..]));
    }
  }

  lemma BookedInit(ctrl: bool, run: seq<Step>)
    requires LegalRun(Init(ctrl), run)
    ensures Booked(After(Init(ctrl), run), Updates(run)) && After(Init(ctrl), run).ctrl == ctrl
  {
    LastVersion(ctrl, []);
    assert Versions(Init(ctrl), []) && Decided(Init(ctrl), [], []);
    BookedRun(Init(ctrl), run, []);
    assert [] + Updates(run) == Updates(run);
  }

  /** Whatever callers and updates do, the current list is that of all updates so far, one after another, but for one
      that has the lock and has not published yet. */
  lemma CurrentIsReplay(ctrl: bool, run: seq<Step>) returns (ops: seq<Op>)
    requires LegalRun(Init(ctrl), run)
    ensures var s := After(Init(ctrl), run);
            && Updates(run) == ops + (if s.writer.Locked? then [s.writer.op] else [])
            && Current(s) == HookList.After(ctrl, ops).list
  {
    BookedInit(ctrl, run);
    var s := After(Init(ctrl), run);
    ops :| Versions(s, ops) && Decided(s, ops, Updates(run));
  }

  /** Every list that callers ever see is sorted by descending priority, without duplicates and
      NULLs, and has at most one codelet on a control hook. */
  lemma EveryPublishedListIsSorted(s: State, k: nat)
    requires Reachable(s) && k < |s.published|
    ensures Descending(s.published[k]) && Distinct(s.published[k]) && (s.ctrl ==> |s.published[k]| <= 1)
    ensures forall i :: 0 <= i < |s.published[k]| ==> s.published[k][i].fn != 0
  {
    var ctrl: bool, run: seq<Step> :| LegalRun(Init(ctrl), run) && s == After(Init(ctrl), run);
    BookedInit(ctrl, run);
    var ops :| Versions(s, ops) && Decided(s, ops, Updates(run));
    assert IsVersion(s.ctrl, s.published[k], ops);
    var n :| 0 <= n <= |ops| && s.published[k] == HookList.After(s.ctrl, ops[..n]).list;
    ListIsStableSort(s.ctrl, ops[..n]);
  }

  // ---------- updates come to an end ----------

  lemma {:induction false} WaitingFinishes(s: State) returns (run: seq<Step>)
    requires Reachable(s) && s.writer.Waiting?
    ensures LegalRun(s, run) && After(s, run).writer.Waiting? && After(s, run).writer.active == {}
    ensures After(s, run).writer.op == s.writer.op && After(s, run).published == s.published
    decreases s.writer.active
  {
    run := [];
    if s.writer.active != {} {
      var t :| t in s.writer.active;
      ReachableInv(s);
      var walk := CallerFinishes(s, t);
      OwnStepsKeepWriter(s, walk, t);
      ReachableMore(s, walk);
      var s1 := After(s, walk);
      RunOfOne(s1, End(t));
      ReachableMore(s1, [End(t)]);
      var rest := WaitingFinishes(Do(s1, End(t)));
      assert ([End(t)] + rest)[1..] == rest;
      RunSplice(s, walk, [End(t)] + rest);
      run := walk + ([End(t)] + rest);
    }
  }

  lemma {:induction false} OwnStepsKeepWriter(s: State, run: seq<Step>, t: nat)
    requires LegalRun(s, run) && forall i :: 0 <= i < |run| ==> run[i] in {Load(t), Call(t), Return(t)}
    ensures After(s, run).writer == s.writer && After(s, run).published == s.published
    decreases |run|
  {
    if run != [] {
      assert run[0] in {Load(t), Call(t), Return(t)};
      assert forall i :: 0 <= i < |run[1..]| ==> run[1..][i] == run[i + 1];
      OwnStepsKeepWriter(Do(s, run[0]), run[1..], t);
    }
  }

  /** An update that has published can always finish: the callers it waits for can leave, and then it frees the
      array. */
  lemma UpdateFinishes(s: State) returns (run: seq<Step>)
    requires Reachable(s) && s.writer.Published?
    ensures LegalRun(s, run) && After(s, run).writer.Idle? && After(s, run).published == s.published
  {
    var s1 := Do(s, Synchronize);
    RunOfOne(s, Synchronize);
    run := [Synchronize];
    if s1.writer.Waiting? {
      ReachableMore(s, run);
      var rest := WaitingFinishes(s1);
      RunSplice(s, run, rest);
      run := run + rest;
      var s2 := After(s, run);
      RunOfOne(s2, Free);
      RunSplice(s, run, [Free]);
      run := run + [Free];
    }
  }
}
