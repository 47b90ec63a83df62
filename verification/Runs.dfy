/**
 Runs of an agent: the loads and unloads it serves, one after another, and the states in between.

 What an operation does follows from the operation, the state before it and the orders in which hash tables are gone
 over, so a run is fixed by its operations and these orders. Results are about every run from a new agent.
 */
module Runs {
  import opened Requests
  import opened HookList
  import opened HookTable
  import opened Collections
  import opened Codeletsets
  import opened Removals
  import LM = LinkedMaps

  datatype Operation = LoadOp(r: Request) | UnloadOp(name: LM.Name)

  // The request is for a new set and there is room for it.
  ghost predicate Admitted(r: Request, s: Snapshot) {
    && WellFormed(r) && HooksExist(r.codelets, s.hooks) && |s.registry| < MAX_SETS && r.name !in s.registry
    && s.total + |r.codelets| <= MAX_CODELETS && r.memory
  }

  // The set is there to be unloaded.
  predicate Unloadable(name: LM.Name, s: Snapshot) {
    GoodString(name.text) && name in s.registry
  }

  ghost predicate LoadServes(r: Request, c: Change, ctrl: set<LM.Name>, b: Snapshot, a: Snapshot) {
    match c
    case Nothing => !Admitted(r, b) && a == b
    case Loads(r', o) =>
      && r' == r && Admitted(r, b) && Tried(r, b.hooks, ctrl, b.nmapReg, o)
      && Outcome(r, b.nmapReg, o) == SUCCESS && Succeeded(r, ctrl, b, a, o)
    case Fails(r', o) =>
      && r' == r && Admitted(r, b) && Tried(r, b.hooks, ctrl, b.nmapReg, o)
      && Outcome(r, b.nmapReg, o) in {CREATION_FAIL, LOAD_FAIL} && Failed(r, ctrl, b, a, o)
    case Unloads(_, _) => false
  }

  ghost predicate UnloadServes(name: LM.Name, c: Change, b: Snapshot, a: Snapshot) {
    match c
    case Nothing => !Unloadable(name, b) && a == b
    case Unloads(n, order) =>
      && n == name && Unloadable(name, b) && var set_ := b.registry[name];
      && NoDup(order) && SetOf(order) == set_.codelets.Keys
      && a.registry == b.registry - {name} && a.hooks == TakenOff(b.hooks, set_.codelets, order)
      && a.total == b.total - |set_.codelets| && a.nmapReg == b.nmapReg - |set_.maps.data|
    case _ => false
  }

  // Serving the operation in state b does c and leads to state a.
  ghost predicate Serves(op: Operation, c: Change, ctrl: set<LM.Name>, b: Snapshot, a: Snapshot) {
    match op
    case LoadOp(r) => LoadServes(r, c, ctrl, b, a)
    case UnloadOp(name) => UnloadServes(name, c, b, a)
  }

  // The check of the linked maps faults, in some order.
  ghost predicate Faults(op: Operation, ctrl: set<LM.Name>, b: Snapshot) {
    op.LoadOp? && Admitted(op.r, b) &&
    exists o :: Tried(op.r, b.hooks, ctrl, b.nmapReg, o) && Outcome(op.r, b.nmapReg, o) == FAULT
  }

  // Operation i takes the agent from state i to state i + 1.
  ghost predicate IsRun(ops: seq<Operation>, ctrl: set<LM.Name>, states: seq<Snapshot>, changes: seq<Change>) {
    && |changes| <= |ops| && |states| == |changes| + 1 && New(states[0])
    && forall i :: 0 <= i < |changes| ==> Serves(ops[i], changes[i], ctrl, states[i], states[i + 1])
  }

  ghost predicate New(s: Snapshot) {
    s.registry == map[] && s.total == 0 && s.nmapReg == 0 && forall h :: h in s.hooks ==> s.hooks[h] == []
  }

  lemma RunOfOne(ops: seq<Operation>, ctrl: set<LM.Name>, s: Snapshot)
    requires New(s)
    ensures IsRun(ops, ctrl, [s], [])
  {}

  lemma RunMore(ops: seq<Operation>, ctrl: set<LM.Name>, states: seq<Snapshot>, changes: seq<Change>, c: Change,
      a: Snapshot)
    requires IsRun(ops, ctrl, states, changes) && |changes| < |ops|
    requires Serves(ops[|changes|], c, ctrl, states[|changes|], a)
    ensures IsRun(ops, ctrl, states + [a], changes + [c])
  {
    var states', changes' := states + [a], changes + [c];
    forall i | 0 <= i < |changes'| ensures Serves(ops[i], changes'[i], ctrl, states'[i], states'[i + 1]) {
      if i < |changes| { assert Serves(ops[i], changes[i], ctrl, states[i], states[i + 1]); }
    }
  }

  lemma ServesOneWay(op: Operation, c: Change, ctrl: set<LM.Name>, b: Snapshot, a: Snapshot, a': Snapshot)
    requires Serves(op, c, ctrl, b, a) && Serves(op, c, ctrl, b, a')
    ensures a == a'
  {}

  /** A run is fixed by its first state and its changes: the operations and the orders they went by. */
  lemma {:induction false} RunIsFixed(ops: seq<Operation>, ctrl: set<LM.Name>, states: seq<Snapshot>,
      states': seq<Snapshot>, changes: seq<Change>, k: nat)
    requires IsRun(ops, ctrl, states, changes) && IsRun(ops, ctrl, states', changes) && states[0] == states'[0]
    requires k <= |changes|
    ensures states[k] == states'[k]
  {
    if k > 0 {
      RunIsFixed(ops, ctrl, states, states', changes, k - 1);
      assert Serves(ops[k - 1], changes[k - 1], ctrl, states[k - 1], states[k]);
      assert Serves(ops[k - 1], changes[k - 1], ctrl, states'[k - 1], states'[k]);
      ServesOneWay(ops[k - 1], changes[k - 1], ctrl, states[k - 1], states[k], states'[k]);
    }
  }

  // ---------- what failed loads leave counted ----------

  function SpentBy(c: Change, b: Snapshot): int {
    if c.Fails? then CountOf(c.r, b.nmapReg) - |c.o.unhooked| else 0
  }

  function LostBy(c: Change, b: Snapshot): nat {
    if c.Fails? then LeaksOf(c.r, b.nmapReg) else 0
  }

  // Over the first k operations.
  function Spent(states: seq<Snapshot>, changes: seq<Change>, k: nat): int
    requires k <= |changes| && k <= |states|
  {
    if k == 0 then 0 else Spent(states, changes, k - 1) + SpentBy(changes[k - 1], states[k - 1])
  }

  function Lost(states: seq<Snapshot>, changes: seq<Change>, k: nat): nat
    requires k <= |changes| && k <= |states|
  {
    if k == 0 then 0 else Lost(states, changes, k - 1) + LostBy(changes[k - 1], states[k - 1])
  }

  ghost predicate Counts(s: Snapshot, spent: int, lost: nat) {
    && s.total == |Tagged(CodeletsIn(s.registry))| + spent && s.total <= MAX_CODELETS
    && s.nmapReg == |Tagged(DataIn(s.registry))| + lost
    && |s.registry| <= MAX_SETS
  }

  lemma LoadCounts(r: Request, c: Change, ctrl: set<LM.Name>, b: Snapshot, a: Snapshot, spent: int, lost: nat)
    requires LoadServes(r, c, ctrl, b, a) && Counts(b, spent, lost)
    ensures Counts(a, spent + SpentBy(c, b), lost + LostBy(c, b))
  {
    if c.Loads? {
      FirstNames(r.codelets, |r.codelets|);
      CountsPut(b.registry, r.name, CodeletSet(First(r.codelets, |r.codelets|), MapsOf(r, b.nmapReg)));
    }
  }

  lemma UnloadCounts(name: LM.Name, c: Change, b: Snapshot, a: Snapshot, spent: int, lost: nat)
    requires UnloadServes(name, c, b, a) && Counts(b, spent, lost)
    ensures Counts(a, spent + SpentBy(c, b), lost + LostBy(c, b))
  {
    if c.Unloads? { CountsDrop(b.registry, name); }
  }

  /** In every run the counters are what is registered and what failed loads left counted. */
  lemma {:induction false} RunCounts(ops: seq<Operation>, ctrl: set<LM.Name>, states: seq<Snapshot>,
      changes: seq<Change>, k: nat)
    requires IsRun(ops, ctrl, states, changes) && k <= |changes|
    ensures Counts(states[k], Spent(states, changes, k), Lost(states, changes, k))
  {
    if k == 0 {
      assert Tagged(CodeletsIn(map[])) == {} && Tagged(DataIn(map[])) == {};
    } else {
      RunCounts(ops, ctrl, states, changes, k - 1);
      var c, b, a := changes[k - 1], states[k - 1], states[k];
      assert Serves(ops[k - 1], c, ctrl, b, a);
      match ops[k - 1]
      case LoadOp(r) => LoadCounts(r, c, ctrl, b, a, Spent(states, changes, k - 1), Lost(states, changes, k - 1));
      case UnloadOp(name) => UnloadCounts(name, c, b, a, Spent(states, changes, k - 1), Lost(states, changes, k - 1));
    }
  }

  // The change is not a failed load that had created a codelet.
  predicate NoneCreated(c: Change, b: Snapshot) {
    c.Fails? && c.r.codelets != [] ==> !CanCreate(StartOf(c.r), c.r.codelets[0], b.nmapReg)
  }

  // The change is not a failed load that leaked a map.
  ghost predicate NoneLeaked(c: Change, b: Snapshot) {
    c.Fails? ==> NoLeak(c.r, b.nmapReg)
  }

  lemma ChangeSpends(op: Operation, c: Change, ctrl: set<LM.Name>, b: Snapshot, a: Snapshot)
    requires Serves(op, c, ctrl, b, a)
    ensures SpentBy(c, b) >= 0 && (SpentBy(c, b) == 0 <==> NoneCreated(c, b))
    ensures LostBy(c, b) == 0 <==> NoneLeaked(c, b)
  {
    if c.Fails? {
      NoneCreatedIff(c.r, b.nmapReg);
      NoLeakIff(c.r, b.nmapReg);
    }
  }

  lemma {:induction false} NothingSpentIff(ops: seq<Operation>, ctrl: set<LM.Name>, states: seq<Snapshot>,
      changes: seq<Change>, k: nat)
    requires IsRun(ops, ctrl, states, changes) && k <= |changes|
    ensures Spent(states, changes, k) >= 0
    ensures Spent(states, changes, k) == 0 <==> forall i :: 0 <= i < k ==> NoneCreated(changes[i], states[i])
    ensures Lost(states, changes, k) == 0 <==> forall i :: 0 <= i < k ==> NoneLeaked(changes[i], states[i])
  {
    if k > 0 {
      NothingSpentIff(ops, ctrl, states, changes, k - 1);
      assert Serves(ops[k - 1], changes[k - 1], ctrl, states[k - 1], states[k]);
      ChangeSpends(ops[k - 1], changes[k - 1], ctrl, states[k - 1], states[k]);
    }
  }

  // ---------- what removals leave on the hooks ----------

  lemma ServesChanges(op: Operation, c: Change, ctrl: set<LM.Name>, b: Snapshot, a: Snapshot)
    requires Serves(op, c, ctrl, b, a)
    ensures Changes(c, ctrl, b, a)
  {}

  // Each removal of the change found memory or emptied its hook.
  ghost predicate Clean(c: Change, b: Snapshot) {
    match c
    case Fails(r, o) => CountOf(r, b.nmapReg) <= |r.codelets| && Clear(TakenBack(r, b, o))
    case Unloads(name, order) => name in b.registry && Clear(UnloadOf(b.registry, b.hooks, name, order))
    case _ => true
  }

  lemma CleanIff(c: Change, ctrl: set<LM.Name>, b: Snapshot, a: Snapshot)
    requires Changes(c, ctrl, b, a)
    ensures Clean(c, b) <==> AllClean(RemovalsOf(c, ctrl, b, a))
  {
    var more := RemovalsOf(c, ctrl, b, a);
    if more != [] { assert more == [more[0]]; }
  }

  // The removals of the first k operations.
  ghost function Taken(ops: seq<Operation>, ctrl: set<LM.Name>, states: seq<Snapshot>, changes: seq<Change>,
      k: nat): seq<Removal>
    requires IsRun(ops, ctrl, states, changes) && k <= |changes|
  {
    if k == 0 then []
    else
      var c, b, a := changes[k - 1], states[k - 1], states[k];
      assert Serves(ops[k - 1], c, ctrl, b, a);
      ServesChanges(ops[k - 1], c, ctrl, b, a);
      Taken(ops, ctrl, states, changes, k - 1) + RemovalsOf(c, ctrl, b, a)
  }

  ghost predicate AllClean(taken: seq<Removal>) {
    forall i :: 0 <= i < |taken| ==> Clear(taken[i])
  }

  lemma AllCleanConcat(xs: seq<Removal>, ys: seq<Removal>)
    ensures AllClean(xs + ys) <==> AllClean(xs) && AllClean(ys)
  {
    if AllClean(xs + ys) {
      forall i | 0 <= i < |xs| ensures Clear(xs[i]) { assert (xs + ys)[i] == xs[i]; }
      forall i | 0 <= i < |ys| ensures Clear(ys[i]) { assert (xs + ys)[|xs| + i] == ys[i]; }
    }
  }

  /** Every run keeps the books of what is on the hooks. */
  lemma {:induction false} RunBooked(ops: seq<Operation>, ctrl: set<LM.Name>, states: seq<Snapshot>,
      changes: seq<Change>, k: nat)
    requires IsRun(ops, ctrl, states, changes) && k <= |changes|
    ensures Booked(states[k], Taken(ops, ctrl, states, changes, k))
    ensures AllClean(Taken(ops, ctrl, states, changes, k)) <==> forall i :: 0 <= i < k ==> Clean(changes[i], states[i])
  {
    if k == 0 {
      NothingBooked(states[0]);
    } else {
      var c, b, a := changes[k - 1], states[k - 1], states[k];
      var before := Taken(ops, ctrl, states, changes, k - 1);
      RunBooked(ops, ctrl, states, changes, k - 1);
      assert Serves(ops[k - 1], c, ctrl, b, a);
      ServesChanges(ops[k - 1], c, ctrl, b, a);
      ChangeKeeps(c, ctrl, b, a, before);
      AllCleanConcat(before, RemovalsOf(c, ctrl, b, a));
      CleanIff(c, ctrl, b, a);
    }
  }

  // ---------- main results ----------

  /** After any loads and unloads, total_num_codelets is the number of codelets registered and of those failed loads
      left counted, at most 64, and exactly the number registered when no load of the run that failed had created a
      codelet; nmap_reg is the number of data objects and of the maps failed loads leaked, and exactly that of the data
      objects when none leaked one. There are at most 64 sets. */
  lemma CountersOfRun(ops: seq<Operation>, ctrl: set<LM.Name>, states: seq<Snapshot>, changes: seq<Change>)
    requires IsRun(ops, ctrl, states, changes)
    ensures var s, n := states[|changes|], |changes|;
            && |s.registry| <= MAX_SETS && s.total <= MAX_CODELETS
            && s.total == |Tagged(CodeletsIn(s.registry))| + Spent(states, changes, n) && Spent(states, changes, n) >= 0
            && s.nmapReg == |Tagged(DataIn(s.registry))| + Lost(states, changes, n)
            && (s.total == |Tagged(CodeletsIn(s.registry))| <==>
                 forall i :: 0 <= i < n ==> NoneCreated(changes[i], states[i]))
            && (s.nmapReg == |Tagged(DataIn(s.registry))| <==>
                 forall i :: 0 <= i < n ==> NoneLeaked(changes[i], states[i]))
  {
    RunCounts(ops, ctrl, states, changes, |changes|);
    NothingSpentIff(ops, ctrl, states, changes, |changes|);
  }

  /** After any loads and unloads, every hook has its codelets in order of priority and no function twice, the
      registered codelets are all on their hooks, and every function on a hook belongs to one of them exactly when each
      removal of the run found memory or emptied its hook. */
  lemma HooksOfRun(ops: seq<Operation>, ctrl: set<LM.Name>, states: seq<Snapshot>, changes: seq<Change>)
    requires IsRun(ops, ctrl, states, changes)
    ensures var s := states[|changes|];
            && Tidy(s.hooks) && (forall h, g: nat :: Owned(s.registry, h, g) ==> OnHook(s.hooks, h, g))
            && ((forall h, g: nat :: OnHook(s.hooks, h, g) ==> Owned(s.registry, h, g))
                <==> forall i :: 0 <= i < |changes| ==> Clean(changes[i], states[i]))
  {
    RunBooked(ops, ctrl, states, changes, |changes|);
    NoStrayIff(states[|changes|], Taken(ops, ctrl, states, changes, |changes|));
  }
}
