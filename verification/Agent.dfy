/**
 The agent: the registry of codeletsets, the hooks and the two counters, changed in place.
 */
module Agent {
  import opened Requests
  import opened HookList
  import opened HookTable
  import opened Collections
  import opened Codeletsets
  import opened Removals
  import opened Runs
  import Creation
  import LM = LinkedMaps

  class Agent {
    var registry: Registry
    var hooks: Hooks
    const ctrl: set<LM.Name>   // the control hooks
    var total: int            // total_num_codelets
    var nmapReg: int
    ghost var lost: nat       // unlinked maps whose registration failed
    ghost var spent: nat      // codelets created by failed loads and not counted out again

    ghost predicate Valid() reads this {
      Sound(registry, hooks.Keys, total, nmapReg, lost, spent)
    }

    constructor (names: set<LM.Name>, control: set<LM.Name>)
      ensures Valid() && registry == map[] && total == 0 && nmapReg == 0 && lost == 0 && spent == 0
      ensures ctrl == control && hooks.Keys == names && forall h :: h in hooks ==> hooks[h] == []
    {
      registry, ctrl, total, nmapReg, lost, spent := map[], control, 0, 0, 0, 0;
      hooks := map h | h in names :: [];
    }

    function View(): Snapshot reads this {
      Snapshot(registry, hooks, total, nmapReg)
    }

    // ---------- creating codelets ----------

    /** The relocations the loader makes for one codelet, jbpf_do_map_relocation for each */
    method RelocateAll(s0: LM.State, d: Descriptor, ghost rest: int) returns (s: LM.State, err: bool)
      requires LM.Reachable(s0) && nmapReg == rest + s0.nmap <= MAX_MAPS
      modifies this`nmapReg
      ensures LM.Reachable(s) && s.table == s0.table && Others(s.maps, d.name) == Others(s0.maps, d.name)
      ensures nmapReg == rest + s.nmap <= MAX_MAPS
      ensures s == Relocated(s0, d, |d.symbols|, rest)
      ensures err <==> !Relocates(s0, d, |d.symbols|, rest)
    {
      s, err := s0, false;
      for k := 0 to |d.symbols|
        invariant LM.Reachable(s) && s.table == s0.table && Others(s.maps, d.name) == Others(s0.maps, d.name)
        invariant nmapReg == rest + s.nmap <= MAX_MAPS
        invariant s == Relocated(s0, d, k, rest) && (err <==> !Relocates(s0, d, k, rest))
      {
        var sym, a := d.symbols[k], LM.Alias(d.name, d.symbols[k].name);
        var create := sym.create && nmapReg != MAX_MAPS;
        RelocateFacts(s, a, sym.def, create, sym.register);
        LM.ReachableStep(s, LM.Relocate(a, sym.def, create, sym.register));
        if !LM.Succeeds(s, a, sym.def, create, sym.register) {
          err := true;
        }
        var s' := LM.DoRelocate(s, a, sym.def, create, sym.register);
        nmapReg := nmapReg + s'.nmap - s.nmap;
        s := s';
      }
    }

    /** jbpf_destroy_codelet_maps */
    method DestroyMaps(s0: LM.State, name: LM.Name) returns (s: LM.State)
      requires LM.Reachable(s0)
      modifies this`nmapReg
      ensures LM.Reachable(s) && s.maps == Others(s0.maps, name) && s.leaks == s0.leaks
      ensures s.table.Keys <= s0.table.Keys && (Full(s0) ==> Full(s))
      ensures nmapReg - old(nmapReg) == s.nmap - s0.nmap <= 0
    {
      s := s0;
      var mine := set a | a in s.maps && a.codelet == name;
      while mine != {}
        invariant LM.Reachable(s) && s.leaks == s0.leaks && mine <= s.maps.Keys
        invariant Others(s.maps, name) == Others(s0.maps, name)
                  && forall a :: a in s.maps && a.codelet == name ==> a in mine
        invariant forall a :: a in mine ==> a.codelet == name
        invariant s.table.Keys <= s0.table.Keys && (Full(s0) ==> Full(s))
        invariant nmapReg - old(nmapReg) == s.nmap - s0.nmap <= 0
        decreases |mine|
      {
        var a :| a in mine;
        UnmapFacts(s, a);
        var s' := LM.DoUnmap(s, a);
        nmapReg := nmapReg + s'.nmap - s.nmap;
        s, mine := s', mine - {a};
      }
      assert s.maps == Others(s.maps, name);
    }

    /** jbpf_create_codelet: after a failure the maps are those of the other codelets again */
    method CreateCodelet(s0: LM.State, d: Descriptor, ghost rest: int) returns (s: LM.State, ok: bool)
      requires LM.Reachable(s0) && nmapReg == rest + s0.nmap <= MAX_MAPS && Others(s0.maps, d.name) == s0.maps
      modifies this`nmapReg
      ensures LM.Reachable(s) && nmapReg == rest + s.nmap <= MAX_MAPS
      ensures Others(s.maps, d.name) == s0.maps
      ensures ok <==> CanCreate(s0, d, rest)
      ensures ok ==> s == Relocated(s0, d, |d.symbols|, rest) && s.table == s0.table && s.leaks == s0.leaks
      ensures !ok ==> s.maps == s0.maps && s.leaks == FailedLeaks(s0, d, rest)
    {
      if !d.available {
        return s0, false;
      }
      var err;
      s, err := RelocateAll(s0, d, rest);
      RelocatedLeaks(s0, d, |d.symbols|, rest);
      ok := !err && d.compiles;
      if !ok {
        s := DestroyMaps(s, d.name);
      }
    }

    // The next codelet of a request, when the first k have been created.
    method CreateNext(s: LM.State, ds: seq<Descriptor>, k: nat, ghost s0: LM.State, ghost rest: int)
        returns (s': LM.State, ok: bool)
      requires k < |ds| && UniqueNames(ds) && LM.Reachable(s) && Within(s, First(ds, k).Keys)
               && nmapReg == rest + s.nmap <= MAX_MAPS
      requires Made(s0, ds, k, rest, s)
      modifies this`nmapReg
      ensures LM.Reachable(s') && Within(s', First(ds, if ok then k + 1 else k).Keys)
              && nmapReg == rest + s'.nmap <= MAX_MAPS
      ensures if ok then Made(s0, ds, k + 1, rest, s') && s'.leaks == s.leaks else Stops(s0, ds, k, rest, s'.leaks)
    {
      FirstNames(ds, k);
      NoneYet(s, First(ds, k).Keys, ds[k].name);
      s', ok := CreateCodelet(s, ds[k], rest);
      if ok {
        WithinMore(s, s', First(ds, k).Keys, ds[k].name);
        MadeNext(s0, ds, k, rest, s, s');
      }
    }

    /** The creating loop of jbpf_codeletset_load: it stops at the first codelet that cannot be created */
    method CreateAll(s0: LM.State, ds: seq<Descriptor>, ghost rest: int)
        returns (s: LM.State, created: nat, cs: Codelets)
      requires LM.Reachable(s0) && s0.maps == map[] && UniqueNames(ds) && nmapReg == rest + s0.nmap <= MAX_MAPS
      modifies this`nmapReg, this`total
      ensures created <= |ds| && cs == First(ds, created) && |cs| == created && total == old(total) + created
      ensures LM.Reachable(s) && Within(s, cs.Keys) && nmapReg == rest + s.nmap <= MAX_MAPS
      ensures Stops(s0, ds, created, rest, s.leaks)
              || (created == |ds| && Made(s0, ds, created, rest, s) && s.leaks == s0.leaks)
    {
      s, created, cs := s0, 0, map[];
      MadeNone(s0, ds, rest);
      while created < |ds|
        invariant created <= |ds| && cs == First(ds, created) && total == old(total) + created
        invariant LM.Reachable(s) && Within(s, cs.Keys) && s.leaks == s0.leaks
        invariant Made(s0, ds, created, rest, s)
        invariant nmapReg == rest + s.nmap <= MAX_MAPS
      {
        var s', ok := CreateNext(s, ds, created, s0, rest);
        s := s';
        if !ok {
          FirstNames(ds, created);
          return;
        }
        cs := cs[ds[created].name := ds[created]];
        total := total + 1;
        created := created + 1;
      }
      FirstNames(ds, created);
    }

    /** The check that all linked maps are linked, in the order in which it goes over the table: it stops at the first
        alias whose group is not complete, and faults there when no codelet uses the group */
    method CheckLinked(s: LM.State) returns (res: LM.Check, order: seq<LM.Alias>)
      requires LM.Reachable(s)
      ensures res == LM.Checked(s, order) && SetOf(order) <= s.table.Keys
      ensures res == LM.Passed ==> SetOf(order) == s.table.Keys
      ensures res == LM.Passed <==> Full(s)
    {
      order := [];
      var left := s.table.Keys;
      while left != {}
        invariant Partition(s.table.Keys, order, left) && LM.Checked(s, order) == LM.Passed
        decreases |left|
      {
        var a :| a in left;
        LM.RecordsExist(s, a);
        PartitionMove(s.table.Keys, order, left, a);
        LM.CheckedAppend(s, order, [a]);
        order, left := order + [a], left - {a};
        var g := s.groups[s.table[a]];
        if g.ref != g.total {
          res := if g.made.None? then LM.Fault else LM.Mismatch;
          LM.CheckIsComplete(s);
          return;
        }
      }
      res := LM.Passed;
      LM.CheckPassesIff(s, order);
    }

    // ---------- hooking and unhooking ----------

    // jbpf_load_codelet: hooks one codelet, after some others.
    method PutOn(cs: Codelets, n: LM.Name, ghost base: Hooks, loaded: seq<LM.Name>) returns (ok: bool)
      requires Puts(base, ctrl, cs, loaded) && hooks == PutAll(base, cs, loaded) && n in cs && n !in loaded
      modifies this`hooks
      ensures ok ==> Puts(base, ctrl, cs, loaded + [n]) && hooks == PutAll(base, cs, loaded + [n])
      ensures !ok ==> hooks == old(hooks) && Stuck(hooks, ctrl, cs, loaded)
    {
      var d := cs[n];
      ok := d.hook in hooks && Registers(hooks[d.hook], d.hook in ctrl, EntryOf(d), d.hookMemory);
      if ok {
        PutsNext(base, ctrl, cs, loaded, n);
        hooks := hooks[d.hook := Inserted(hooks[d.hook], EntryOf(d))];
      }
    }

    /** The hooking loop of jbpf_codeletset_load: it stops at the first codelet that cannot be hooked */
    method HookAll(cs: Codelets) returns (loaded: seq<LM.Name>)
      modifies this`hooks
      ensures Puts(old(hooks), ctrl, cs, loaded) && hooks == PutAll(old(hooks), cs, loaded)
      ensures SetOf(loaded) <= cs.Keys && (SetOf(loaded) == cs.Keys || Stuck(hooks, ctrl, cs, loaded))
    {
      loaded := [];
      var left := cs.Keys;
      while left != {}
        invariant Partition(cs.Keys, loaded, left)
        invariant Puts(old(hooks), ctrl, cs, loaded) && hooks == PutAll(old(hooks), cs, loaded)
        decreases |left|
      {
        var n :| n in left;
        var ok := PutOn(cs, n, old(hooks), loaded);
        if !ok {
          return;
        }
        PartitionMove(cs.Keys, loaded, left, n);
        loaded, left := loaded + [n], left - {n};
      }
    }

    // jbpf_unload_codelet: takes one codelet off its hook, after going over some others.
    method TakeOff(cs: Codelets, n: LM.Name, ghost mid: Hooks, ghost order: seq<LM.Name>)
      requires n in cs && hooks == TakenOff(mid, cs, order)
      modifies this`hooks
      ensures hooks == TakenOff(mid, cs, order + [n])
    {
      var d := cs[n];
      TakenOffNext(mid, cs, order, n);
      if d.hook in hooks && Removes(hooks[d.hook], d.fn, d.unhookMemory) {
        hooks := hooks[d.hook := Without(hooks[d.hook], d.fn)];
      }
    }

    // One codelet of a failed load: unhooked if it was hooked, and destroyed.
    method TakeBackOne(s0: LM.State, cs: Codelets, n: LM.Name, loaded: seq<LM.Name>, ghost mid: Hooks,
        order: seq<LM.Name>) returns (s: LM.State, order': seq<LM.Name>)
      requires n in cs && hooks == TakenOff(mid, cs, order) && LM.Reachable(s0)
      modifies this`hooks, this`total, this`nmapReg
      ensures order' == if n in loaded then order + [n] else order
      ensures hooks == TakenOff(mid, cs, order') && total == old(total) + |order| - |order'|
      ensures LM.Reachable(s) && s.maps == Others(s0.maps, n) && s.leaks == s0.leaks
      ensures nmapReg - old(nmapReg) == s.nmap - s0.nmap <= 0
    {
      order' := order;
      if n in loaded {
        TakeOff(cs, n, mid, order);
        total := total - 1;
        order' := order + [n];
      }
      s := DestroyMaps(s0, n);
    }

    /** The loop over the codelets after a failed load: it unhooks those that were hooked and destroys all of them */
    method TakeBack(s0: LM.State, cs: Codelets, loaded: seq<LM.Name>) returns (s: LM.State, order: seq<LM.Name>)
      requires LM.Reachable(s0) && Within(s0, cs.Keys) && SetOf(loaded) <= cs.Keys
      modifies this`hooks, this`total, this`nmapReg
      ensures NoDup(order) && SetOf(order) == SetOf(loaded) && hooks == TakenOff(old(hooks), cs, order)
      ensures total == old(total) - |order|
      ensures LM.Reachable(s) && s.maps == map[] && s.leaks == s0.leaks
      ensures nmapReg - old(nmapReg) == s.nmap - s0.nmap <= 0
    {
      s, order := s0, [];
      var left := cs.Keys;
      TakenOffNone(hooks, cs);
      assert SetOf(order) == {};
      while left != {}
        invariant Over(cs.Keys, SetOf(loaded), left, SetOf(order)) && NoDup(order)
        invariant hooks == TakenOff(old(hooks), cs, order) && total == old(total) - |order|
        invariant LM.Reachable(s) && s.leaks == s0.leaks && Within(s, left)
        invariant nmapReg - old(nmapReg) == s.nmap - s0.nmap <= 0
        decreases |left|
      {
        var n :| n in left;
        ghost var before, done := s, order;
        OverMove(cs.Keys, SetOf(loaded), left, SetOf(order), n);
        SetOfAppend(order, n);
        s, order := TakeBackOne(s, cs, n, loaded, old(hooks), order);
        WithinLess(before, s, left, n);
        left := left - {n};
      }
      WithinNone(s);
    }

    // The loop over the aliases a failed load leaves in its table.
    method DropAliases(s0: LM.State) returns (s: LM.State)
      requires LM.Reachable(s0) && s0.maps == map[]
      ensures LM.Reachable(s) && s.maps == map[] && s.table == map[] && s.leaks == s0.leaks && s.nmap == s0.nmap
    {
      s := s0;
      while s.table != map[]
        invariant LM.Reachable(s) && s.maps == map[] && s.leaks == s0.leaks && s.nmap == s0.nmap
        decreases |s.table|
      {
        var a :| a in s.table;
        DropFacts(s, a);
        s := LM.DoDrop(s, a);
      }
    }

    // ---------- loading and unloading ----------

    // The request is for a new set and there is room for it.
    ghost predicate Admits(r: Request) reads this {
      && WellFormed(r) && HooksExist(r.codelets, hooks) && |registry| < MAX_SETS && r.name !in registry
      && total + |r.codelets| <= MAX_CODELETS && r.memory
    }

    // The checks before anything is done; 1 when they are passed and the set is not there yet.
    method Admit(r: Request) returns (code: int)
      ensures code == PARAM_INVALID <==> !WellFormed(r)
      ensures WellFormed(r) ==> (code == HOOK_NOT_EXIST <==> !HooksExist(r.codelets, hooks))
      ensures code == SUCCESS <==>
                WellFormed(r) && HooksExist(r.codelets, hooks) && |registry| < MAX_SETS && r.name in registry
      ensures code == 1 <==> Admits(r)
      ensures code in {PARAM_INVALID, HOOK_NOT_EXIST, CREATION_FAIL, LOAD_FAIL, SUCCESS, 1}
    {
      var valid := Validate(r);
      if !valid {
        return PARAM_INVALID;
      }
      for i := 0 to |r.codelets|
        invariant forall j :: 0 <= j < i ==> r.codelets[j].hook in hooks
      {
        if r.codelets[i].hook !in hooks {
          return HOOK_NOT_EXIST;
        }
      }
      if |registry| >= MAX_SETS {
        return CREATION_FAIL;
      }
      if r.name in registry {
        return SUCCESS;
      }
      if total + |r.codelets| > MAX_CODELETS || |r.codelets| > MAX_CODELETS_IN_SET {
        return CREATION_FAIL;
      }
      if !r.memory {
        return LOAD_FAIL;
      }
      return 1;
    }

    /** The rollback of jbpf_codeletset_load: no map, alias or data object of the set is left */
    method Undo(s0: LM.State, cs: Codelets, loaded: seq<LM.Name>) returns (order: seq<LM.Name>)
      requires LM.Reachable(s0) && Within(s0, cs.Keys) && SetOf(loaded) <= cs.Keys
      modifies this`hooks, this`total, this`nmapReg
      ensures NoDup(order) && SetOf(order) == SetOf(loaded) && hooks == TakenOff(old(hooks), cs, order)
      ensures total == old(total) - |order|
      ensures nmapReg == old(nmapReg) - s0.nmap + s0.leaks <= old(nmapReg)
    {
      var s;
      s, order := TakeBack(s0, cs, loaded);
      s := DropAliases(s);
      LM.NothingLeft(s);
    }

    // The table of linked maps of an admitted request.
    method StartTable(r: Request) returns (s: LM.State)
      requires WellFormed(r)
      ensures s == LM.Populate(AllLinks(r.codelets, |r.codelets|))
      ensures LM.Reachable(s) && s.maps == map[] && s.nmap == 0 && s.leaks == 0
    {
      s := PopulateTable(r.codelets);
      AllLinksDistinct(r.codelets, |r.codelets|);
      LM.PopulateReachable(AllLinks(r.codelets, |r.codelets|));
      LM.NoMapsNoData(s);
    }

    // Creating, checking and hooking the codelets.
    method Assemble(r: Request) returns (code: int, cs: Codelets, s: LM.State, o: Orders)
      requires WellFormed(r) && nmapReg <= MAX_MAPS
      modifies this`hooks, this`total, this`nmapReg
      ensures code == Outcome(r, old(nmapReg), o) && Tried(r, old(hooks), ctrl, old(nmapReg), o) && o.unhooked == []
      ensures CountOf(r, old(nmapReg)) <= |r.codelets| && cs == First(r.codelets, CountOf(r, old(nmapReg)))
      ensures |cs| == CountOf(r, old(nmapReg)) && total == old(total) + |cs|
      ensures Puts(old(hooks), ctrl, cs, o.hooked) && hooks == PutAll(old(hooks), cs, o.hooked)
              && SetOf(o.hooked) <= cs.Keys
      ensures LM.Reachable(s) && Within(s, cs.Keys) && nmapReg == old(nmapReg) + s.nmap <= MAX_MAPS
      ensures s.leaks == LeaksOf(r, old(nmapReg))
      ensures code == SUCCESS ==> Full(s) && s == MapsOf(r, old(nmapReg)) && s.leaks == 0
      ensures code == SUCCESS <==> |cs| == |r.codelets| && SetOf(o.hooked) == cs.Keys
      ensures code != SUCCESS ==> o.hooked == [] || SetOf(o.hooked) != cs.Keys
    {
      o := Orders([], [], []);
      s := StartTable(r);
      var created;
      s, created, cs := CreateAll(s, r.codelets, nmapReg);
      StopsOrAll(StartOf(r), r.codelets, created, old(nmapReg), s);
      assert SetOf(o.hooked) == {} && |cs.Keys| == created;
      if created < |r.codelets| {
        return CREATION_FAIL, cs, s, o;
      }
      var res, checked := CheckLinked(s);
      o := o.(checked := checked);
      if res == LM.Fault {
        return FAULT, cs, s, o;
      }
      if res == LM.Mismatch {
        return LOAD_FAIL, cs, s, o;
      }
      var loaded := HookAll(cs);
      o := o.(hooked := loaded);
      code := if SetOf(loaded) == cs.Keys then SUCCESS else LOAD_FAIL;
    }

    // Everything a load does once it is admitted, short of registering the set.
    method Build(r: Request) returns (code: int, cs: Codelets, s: LM.State, o: Orders)
      requires WellFormed(r) && nmapReg <= MAX_MAPS
      modifies this`hooks, this`total, this`nmapReg
      ensures code == Outcome(r, old(nmapReg), o) && Tried(r, old(hooks), ctrl, old(nmapReg), o)
      ensures CountOf(r, old(nmapReg)) <= |r.codelets| && cs == First(r.codelets, CountOf(r, old(nmapReg)))
      ensures |cs| == CountOf(r, old(nmapReg))
      ensures Puts(old(hooks), ctrl, cs, o.hooked) && SetOf(o.hooked) <= cs.Keys
      ensures code == SUCCESS <==> |cs| == |r.codelets| && SetOf(o.hooked) == cs.Keys
      ensures code != SUCCESS ==> o.hooked == [] || SetOf(o.hooked) != cs.Keys
      ensures code == SUCCESS ==>
                && hooks == PutAll(old(hooks), cs, o.hooked) && total == old(total) + |cs| && o.unhooked == []
                && LM.Reachable(s) && Full(s) && Within(s, cs.Keys) && nmapReg == old(nmapReg) + s.nmap <= MAX_MAPS
                && s == MapsOf(r, old(nmapReg)) && s.leaks == 0
      ensures code != SUCCESS && code != FAULT ==>
                && NoDup(o.unhooked) && SetOf(o.unhooked) == SetOf(o.hooked)
                && hooks == TakenOff(PutAll(old(hooks), cs, o.hooked), cs, o.unhooked)
                && total == old(total) + |cs| - |o.unhooked|
                && nmapReg == old(nmapReg) + LeaksOf(r, old(nmapReg)) <= MAX_MAPS
    {
      code, cs, s, o := Assemble(r);
      if code != SUCCESS && code != FAULT {
        var unhooked := Undo(s, cs, o.hooked);
        o := o.(unhooked := unhooked);
      }
    }

    // The set goes into the registry.
    method Commit(name: LM.Name, c: CodeletSet, ghost before: int, ghost maps: int)
      requires Sound(registry, hooks.Keys, before, maps, lost, spent) && name !in registry && |registry| < MAX_SETS
      requires SetOk(c, hooks.Keys) && total == before + |c.codelets| <= MAX_CODELETS
               && nmapReg == maps + |c.maps.data| <= MAX_MAPS
      modifies this`registry
      ensures Valid() && registry == old(registry)[name := c]
    {
      ghost var r := registry;
      registry := registry[name := c];
      SoundPut(r, registry, hooks.Keys, before, total, maps, nmapReg, lost, spent, name, c);
    }

    // An admitted load.
    method LoadNew(r: Request) returns (code: int, o: Orders)
      requires Valid() && Admits(r)
      modifies this
      ensures code != FAULT ==> Valid()
      ensures code == Outcome(r, old(nmapReg), o) && Tried(r, old(hooks), ctrl, old(nmapReg), o)
      ensures code == SUCCESS ==> Succeeded(r, ctrl, old(View()), View(), o) && lost == old(lost) && spent == old(spent)
      ensures code != SUCCESS && code != FAULT ==>
                && Failed(r, ctrl, old(View()), View(), o)
                && lost == old(lost) + nmapReg - old(nmapReg) && spent == old(spent) + total - old(total)
    {
      var cs, s;
      ghost var base := hooks;
      code, cs, s, o := Build(r);
      PutAllKeys(base, cs, o.hooked);
      if code == SUCCESS {
        BuiltOk(r.codelets, |cs|, s, base);
        Commit(r.name, CodeletSet(cs, s), old(total), old(nmapReg));
      } else if code != FAULT {
        FewerHooked(cs, o.hooked);
        SetOfSize(o.unhooked);
        lost := lost + LeaksOf(r, old(nmapReg));
        spent := spent + |cs| - |o.unhooked|;
        SoundFail(registry, hooks.Keys, old(total), total, old(nmapReg), nmapReg, old(lost), lost, old(spent), spent);
      }
    }

    /** jbpf_codeletset_load. A refused request, or one for a set that is loaded, changes nothing. For an admitted one
        the outcome is a function of the request, nmap_reg and the orders in which hash tables are gone over. When it
        fails the registry is as it was; the hooks are exactly when each hooked codelet comes off in its turn; nmap_reg
        is exactly when no relocation of the codelet that could not be created leaked a map; total_num_codelets is
        exactly when the first codelet already could not be created. A load that faults promises nothing. */
    method Load(r: Request) returns (code: int, o: Orders)
      requires Valid()
      modifies this
      ensures code != FAULT ==> Valid()
      ensures !old(Admits(r)) ==>
                && code in {PARAM_INVALID, HOOK_NOT_EXIST, CREATION_FAIL, LOAD_FAIL, SUCCESS} && o == Orders([], [], [])
                && View() == old(View()) && lost == old(lost) && spent == old(spent)
      ensures code == PARAM_INVALID <==> !WellFormed(r)
      ensures WellFormed(r) ==> (code == HOOK_NOT_EXIST <==> !HooksExist(r.codelets, old(hooks)))
      ensures !old(Admits(r)) ==> (code == SUCCESS <==>
                WellFormed(r) && HooksExist(r.codelets, old(hooks)) && |old(registry)| < MAX_SETS
                  && r.name in old(registry))
      ensures old(Admits(r)) ==> code == Outcome(r, old(nmapReg), o) && Tried(r, old(hooks), ctrl, old(nmapReg), o)
      ensures old(Admits(r)) ==> (code == SUCCESS <==> Creation.WillLoad(r, old(hooks), ctrl, old(nmapReg)))
      ensures old(Admits(r)) ==>
                (code == CREATION_FAIL <==> !Creation.CanHaveAll(r.codelets, StartOf(r).table, old(nmapReg)))
      ensures old(Admits(r)) && code == SUCCESS ==>
                Succeeded(r, ctrl, old(View()), View(), o) && lost == old(lost) && spent == old(spent)
      ensures old(Admits(r)) && code in {CREATION_FAIL, LOAD_FAIL} ==>
                && Failed(r, ctrl, old(View()), View(), o)
                && (hooks == old(hooks) <==> Freed(r, old(hooks), old(nmapReg), o.unhooked))
                && (nmapReg == old(nmapReg) <==> NoLeak(r, old(nmapReg)))
                && (total == old(total) <==> !CanCreate(StartOf(r), r.codelets[0], old(nmapReg)))
                && lost == old(lost) + nmapReg - old(nmapReg) && spent == old(spent) + total - old(total)
    {
      o := Orders([], [], []);
      code := Admit(r);
      if code == 1 {
        code, o := LoadNew(r);
        Creation.LoadsIff(r, old(hooks), ctrl, old(nmapReg), o);
        if code != SUCCESS && code != FAULT {
          FailureMeans(r, ctrl, old(View()), View(), o);
        }
      }
    }

    // A load as an operation of a run.
    method ServeLoad(r: Request) returns (faulted: bool, ghost change: Change)
      requires Valid()
      modifies this
      ensures !faulted ==> Valid() && LoadServes(r, change, ctrl, old(View()), View())
      ensures faulted ==> Faults(LoadOp(r), ctrl, old(View()))
    {
      var code, o := Load(r);
      faulted := code == FAULT;
      change := if !old(Admits(r)) then Nothing else if code == SUCCESS then Loads(r, o) else Fails(r, o);
    }

    // The first loop of an unload.
    method UnhookAll(cs: Codelets) returns (order: seq<LM.Name>)
      modifies this`hooks, this`total
      ensures NoDup(order) && SetOf(order) == cs.Keys && hooks == TakenOff(old(hooks), cs, order)
              && total == old(total) - |cs|
    {
      order := [];
      var left := cs.Keys;
      TakenOffNone(hooks, cs);
      while left != {}
        invariant Partition(cs.Keys, order, left) && NoDup(order)
        invariant hooks == TakenOff(old(hooks), cs, order) && total == old(total) - |order|
        decreases |left|
      {
        var n :| n in left;
        PartitionMove(cs.Keys, order, left, n);
        SetOfAppend(order, n);
        TakeOff(cs, n, old(hooks), order);
        total := total - 1;
        order, left := order + [n], left - {n};
      }
      SetOfSize(order);
      assert SetOf(order) == cs.Keys;
    }

    // The second loop of an unload.
    method DestroyAll(s0: LM.State, cs: Codelets) returns (s: LM.State)
      requires LM.Reachable(s0) && Within(s0, cs.Keys) && Full(s0)
      modifies this`nmapReg
      ensures LM.Reachable(s) && s.maps == map[] && s.table == map[] && s.leaks == s0.leaks
      ensures nmapReg - old(nmapReg) == s.nmap - s0.nmap
    {
      s := s0;
      var left := cs.Keys;
      while left != {}
        invariant LM.Reachable(s) && s.leaks == s0.leaks && Full(s) && Within(s, left)
        invariant nmapReg - old(nmapReg) == s.nmap - s0.nmap
        decreases |left|
      {
        var n :| n in left;
        ghost var before := s;
        s := DestroyMaps(s, n);
        WithinLess(before, s, left, n);
        left := left - {n};
      }
      WithinNone(s);
      assert s.table.Keys == {};
    }

    // Both loops of an unload.
    method Dismantle(c: CodeletSet) returns (order: seq<LM.Name>)
      requires SetOk(c, hooks.Keys)
      modifies this`hooks, this`total, this`nmapReg
      ensures NoDup(order) && SetOf(order) == c.codelets.Keys && hooks == TakenOff(old(hooks), c.codelets, order)
      ensures total == old(total) - |c.codelets| && nmapReg == old(nmapReg) - |c.maps.data|
    {
      order := UnhookAll(c.codelets);
      var s := DestroyAll(c.maps, c.codelets);
      LM.NothingLeft(s);
      LM.CountData(c.maps);
    }

    /** jbpf_codeletset_unload: the set leaves the registry with its codelets, its maps and all of its data; its
        codelets are gone over in some order and unhooked */
    method Unload(name: LM.Name) returns (code: int, order: seq<LM.Name>)
      requires Valid()
      modifies this
      ensures Valid() && lost == old(lost) && spent == old(spent)
      ensures code == PARAM_INVALID <==> !GoodString(name.text)
      ensures code == SUCCESS <==> GoodString(name.text) && name in old(registry)
      ensures code != SUCCESS ==>
                registry == old(registry) && hooks == old(hooks) && total == old(total) && nmapReg == old(nmapReg)
      ensures code == SUCCESS ==>
                var c := old(registry)[name];
                && registry == old(registry) - {name}
                && NoDup(order) && SetOf(order) == c.codelets.Keys && hooks == TakenOff(old(hooks), c.codelets, order)
                && total == old(total) - |c.codelets| && nmapReg == old(nmapReg) - |c.maps.data|
    {
      order := [];
      var good := CheckString(name.text);
      if !good {
        return PARAM_INVALID, order;
      }
      if name !in registry {
        return UNLOAD_FAIL, order;
      }
      RegisteredOk(registry, hooks.Keys, total, nmapReg, lost, spent, name);
      order := Dismantle(registry[name]);
      registry := registry - {name};
      SoundDrop(old(registry), registry, hooks.Keys, old(total), total, old(nmapReg), nmapReg, lost, spent, name);
      code := SUCCESS;
    }

    // Unloading a set that was loaded last.
    method UnloadLast(name: LM.Name, ghost base: Hooks, ghost loaded: seq<LM.Name>) returns (order: seq<LM.Name>)
      requires Valid() && GoodString(name.text) && name in registry && SetOf(loaded) == registry[name].codelets.Keys
      requires Puts(base, ctrl, registry[name].codelets, loaded)
               && hooks == PutAll(base, registry[name].codelets, loaded)
      modifies this
      ensures Valid() && registry == old(registry) - {name}
      ensures hooks == base <==> AllFree(base, old(registry)[name].codelets, order)
      ensures total == old(total) - |old(registry)[name].codelets|
      ensures nmapReg == old(nmapReg) - |old(registry)[name].maps.data|
    {
      ghost var cs := registry[name].codelets;
      var code;
      code, order := Unload(name);
      RestoredIff(base, ctrl, cs, loaded, order);
    }

    /** Loading a new set and unloading it leaves registry and counters as they were, and the hooks exactly when each
        codelet comes off in its turn. */
    method LoadUnload(r: Request) returns (code: int, order: seq<LM.Name>)
      requires Valid() && r.name !in registry
      modifies this
      ensures code == SUCCESS ==> Valid() && registry == old(registry) && total == old(total) && nmapReg == old(nmapReg)
      ensures code == SUCCESS ==> (hooks == old(hooks) <==> AllFree(old(hooks), First(r.codelets, |r.codelets|), order))
    {
      var o;
      order := [];
      code, o := Load(r);
      if code == SUCCESS {
        FirstNames(r.codelets, |r.codelets|);
        PutDrop(old(registry), r.name, registry[r.name]);
        order := UnloadLast(r.name, old(hooks), o.hooked);
      }
    }
  }

  // ---------- runs ----------

  // One operation.
  method Step(a: Agent, op: Operation) returns (faulted: bool, ghost change: Change)
    requires a.Valid()
    modifies a
    ensures !faulted ==> a.Valid() && Serves(op, change, a.ctrl, old(a.View()), a.View())
    ensures faulted ==> Faults(op, a.ctrl, old(a.View()))
  {
    match op
    case LoadOp(r) =>
      faulted, change := a.ServeLoad(r);
    case UnloadOp(name) =>
      var code, order := a.Unload(name);
      faulted, change := false, if code == SUCCESS then Unloads(name, order) else Nothing;
  }

  /** Whatever loads and unloads an agent serves, the states it goes through are a run: all of it, or up to a load that
      faults. So what is proved of every run holds of the agent. The counters are what is registered and what the failed
      loads of this run left counted, and the hooks have what is registered and what the removals of this run left. */
  method Serve(names: set<LM.Name>, control: set<LM.Name>, ops: seq<Operation>)
      returns (a: Agent, faulted: bool, ghost states: seq<Snapshot>, ghost changes: seq<Change>)
    ensures fresh(a) && a.ctrl == control && IsRun(ops, control, states, changes) && states[0].hooks.Keys == names
    ensures if faulted then |changes| < |ops| && Faults(ops[|changes|], control, states[|changes|])
            else |changes| == |ops| && a.View() == states[|ops|]
    ensures !faulted ==>
              && a.total == |Tagged(CodeletsIn(a.registry))| + Spent(states, changes, |ops|) <= MAX_CODELETS
              && a.nmapReg == |Tagged(DataIn(a.registry))| + Lost(states, changes, |ops|)
              && |a.registry| <= MAX_SETS
              && (a.total == |Tagged(CodeletsIn(a.registry))| <==>
                    forall i :: 0 <= i < |ops| ==> NoneCreated(changes[i], states[i]))
              && (a.nmapReg == |Tagged(DataIn(a.registry))| <==>
                    forall i :: 0 <= i < |ops| ==> NoneLeaked(changes[i], states[i]))
    ensures !faulted ==>
              && Tidy(a.hooks) && (forall h, g: nat :: Owned(a.registry, h, g) ==> OnHook(a.hooks, h, g))
              && ((forall h, g: nat :: OnHook(a.hooks, h, g) ==> Owned(a.registry, h, g)) <==>
                    forall i :: 0 <= i < |ops| ==> Clean(changes[i], states[i]))
  {
    a := new Agent(names, control);
    faulted, states, changes := false, [a.View()], [];
    RunOfOne(ops, control, a.View());
    for k := 0 to |ops|
      invariant fresh(a) && a.ctrl == control && !faulted && a.Valid()
      invariant IsRun(ops, control, states, changes) && |changes| == k && states[k] == a.View()
      invariant states[0].hooks.Keys == names
    {
      ghost var change;
      faulted, change := Step(a, ops[k]);
      if faulted {
        return;
      }
      RunMore(ops, control, states, changes, change, a.View());
      states, changes := states + [a.View()], changes + [change];
    }
    CountersOfRun(ops, control, states, changes);
    HooksOfRun(ops, control, states, changes);
  }

  // ---------- a full registry ----------

  lemma NoneOf<T>(q: seq<T>)
    ensures q != [] ==> SetOf(q) != {}
  {
    if q != [] { assert q[0] in SetOf(q); }
  }

  // A codelet without maps or links, on a hook that takes it, always loads.
  lemma PlainLoads(r: Request, d: Descriptor, hooks: Hooks, ctrl: set<LM.Name>, nmapReg: int, o: Orders)
    requires r.codelets == [d] && d.symbols == [] && d.links == [] && d.available && d.compiles
    requires Hookable(hooks, ctrl, d) && Tried(r, hooks, ctrl, nmapReg, o)
    ensures Outcome(r, nmapReg, o) == SUCCESS
  {
    assert AllLinks(r.codelets, 1) == AllLinks(r.codelets, 0) + LinksOf(d, 0) == [];
    NothingToCreate(StartOf(r), r.codelets, 1, nmapReg);
    assert StartOf(r) == LM.Empty();
    NoneOf(o.checked);
    NoneOf(o.hooked);
    var cs := First(r.codelets, 1);
    assert cs == First(r.codelets, 0)[d.name := d] == map[d.name := d];
    assert PutAll(hooks, cs, []) == hooks && !Stuck(hooks, ctrl, cs, []);
    assert SetOf(o.hooked) == {} || SetOf(o.hooked) == cs.Keys;
  }

  // The k-th of a number of sets of one codelet each.
  function Small(k: nat, h: LM.Name): Request {
    Request(LM.Name(seq(k + 1, _ => 'a')), [Plain(LM.Name("c"), h, k + 1)], true)
  }

  lemma SmallIsValid(k: nat, h: LM.Name)
    requires k < MAX_SETS && GoodString(h.text)
    ensures WellFormed(Small(k, h)) && |Small(k, h).codelets| == 1
  {
    var d := Small(k, h).codelets[0];
    assert |"c"| == 1 && |"p"| == 1 && GoodDescriptor(d);
  }

  // No function above k is on the hook.
  ghost predicate UpTo(hooks: Hooks, h: LM.Name, k: nat) {
    h in hooks && forall g: nat :: OnHook(hooks, h, g) ==> g <= k
  }

  lemma SmallLoads(k: nat, h: LM.Name, hooks: Hooks, ctrl: set<LM.Name>, nmapReg: int, o: Orders)
    requires UpTo(hooks, h, k) && h !in ctrl && Tried(Small(k, h), hooks, ctrl, nmapReg, o)
    ensures Outcome(Small(k, h), nmapReg, o) == SUCCESS
  {
    assert !OnHook(hooks, h, k + 1);
    PlainLoads(Small(k, h), Small(k, h).codelets[0], hooks, ctrl, nmapReg, o);
  }

  lemma SmallAdds(k: nat, h: LM.Name, ctrl: set<LM.Name>, b: Snapshot, a: Snapshot, o: Orders)
    requires UpTo(b.hooks, h, k) && Succeeded(Small(k, h), ctrl, b, a, o)
    ensures UpTo(a.hooks, h, k + 1) && a.total == b.total + 1 && a.registry.Keys == b.registry.Keys + {Small(k, h).name}
  {
    var r, d := Small(k, h), Small(k, h).codelets[0];
    var cs := First(r.codelets, 1);
    assert cs == First(r.codelets, 0)[d.name := d] == map[d.name := d] && d.hook == h && d.fn == k + 1;
    PutAllKeys(b.hooks, cs, o.hooked);
    OnHookPuts(b.hooks, ctrl, cs, o.hooked);
    assert cs.Keys == {d.name} && OnOf(cs, {d.name}) == {(h, k + 1)};
  }

  // One more set of one codelet.
  method LoadSmall(a: Agent, k: nat, h: LM.Name)
    requires a.Valid() && k < MAX_SETS && GoodString(h.text) && UpTo(a.hooks, h, k) && h !in a.ctrl
    requires |a.registry| == a.total == k && Small(k, h).name !in a.registry
    modifies a
    ensures a.Valid() && a.total == k + 1 && UpTo(a.hooks, h, k + 1)
    ensures a.registry.Keys == old(a.registry).Keys + {Small(k, h).name}
  {
    SmallIsValid(k, h);
    assert a.Admits(Small(k, h));
    var code, o := a.Load(Small(k, h));
    SmallLoads(k, h, old(a.hooks), a.ctrl, old(a.nmapReg), o);
    SmallAdds(k, h, a.ctrl, old(a.View()), a.View(), o);
  }

  // All sets of the agent have been loaded by LoadSmall, k of them.
  ghost predicate Loaded(registry: Registry, h: LM.Name, k: nat) {
    |registry| == k && (k > 0 ==> Small(0, h).name in registry) && forall n :: n in registry ==> |n.text| <= k
  }

  lemma LoadedNext(r: Registry, r': Registry, h: LM.Name, k: nat)
    requires Loaded(r, h, k) && r'.Keys == r.Keys + {Small(k, h).name}
    ensures Loaded(r', h, k + 1)
  {
    assert |Small(k, h).name.text| == k + 1;
    assert |r'| == |r'.Keys| && |r.Keys + {Small(k, h).name}| == k + 1;
  }

  /** An agent with 64 sets answers the load of a set it has with an error, not with success. */
  method ReloadWhenFull(h: LM.Name) returns (a: Agent, code: int)
    requires GoodString(h.text)
    ensures |a.registry| == MAX_SETS && WellFormed(Small(0, h)) && Small(0, h).name in a.registry && h in a.hooks
    ensures code in {CREATION_FAIL, LOAD_FAIL}
  {
    a := new Agent({h}, {});
    for k := 0 to MAX_SETS
      invariant fresh(a) && a.Valid() && a.total == k && h !in a.ctrl && UpTo(a.hooks, h, k) && Loaded(a.registry, h, k)
    {
      ghost var before := a.registry;
      assert |Small(k, h).name.text| == k + 1;
      LoadSmall(a, k, h);
      LoadedNext(before, a.registry, h, k);
    }
    SmallIsValid(0, h);
    assert !a.Admits(Small(0, h));
    var o;
    code, o := a.Load(Small(0, h));
  }
}
