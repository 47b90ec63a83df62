/**
 What is on the hooks, over whole runs of an agent.

 A codelet that is unloaded, or taken back after a failed load, is destroyed even when it could not be removed from
 its hook. Its function then stays there with no codelet behind it.
 */
module Removals {
  import opened Requests
  import opened HookList
  import opened HookTable
  import opened Collections
  import opened Codeletsets
  import LM = LinkedMaps

  predicate OnHook(hooks: Hooks, h: LM.Name, g: nat) {
    h in hooks && Present(hooks[h], g)
  }

  // Codelet n of set s is for function g on hook h.
  predicate Has(r: Registry, s: LM.Name, n: LM.Name, h: LM.Name, g: nat) {
    s in r && n in r[s].codelets && r[s].codelets[n].hook == h && r[s].codelets[n].fn == g
  }

  // The function belongs to a registered codelet of that hook.
  ghost predicate Owned(r: Registry, h: LM.Name, g: nat) {
    exists s, n :: Has(r, s, n, h, g)
  }

  // Every list of codelets is in order of priority and has no function twice.
  ghost predicate Tidy(hooks: Hooks) {
    forall h :: h in hooks ==> Descending(hooks[h]) && Distinct(hooks[h])
  }

  // What is on the hooks is what the registered codelets put there, each once, and what is stale.
  ghost predicate Kept(r: Registry, hooks: Hooks, stale: On) {
    && (forall h, g: nat :: OnHook(hooks, h, g) <==> Owned(r, h, g) || (h, g) in stale)
    && (forall h, g: nat :: Owned(r, h, g) ==> (h, g) !in stale)
    && (forall s, n, s2, n2, h, g: nat :: Has(r, s, n, h, g) && Has(r, s2, n2, h, g) ==> s == s2 && n == n2)
  }

  // ---------- the lists ----------

  lemma TidyPut(hooks: Hooks, ctrl: set<LM.Name>, d: Descriptor)
    requires Tidy(hooks) && Hookable(hooks, ctrl, d)
    ensures Tidy(Put(hooks, d))
  {
    InsertedSorted(hooks[d.hook], EntryOf(d));
    InsertedDistinct(hooks[d.hook], EntryOf(d));
  }

  lemma {:induction false} TidyPutAll(base: Hooks, ctrl: set<LM.Name>, cs: Codelets, names: seq<LM.Name>)
    requires Tidy(base) && Puts(base, ctrl, cs, names)
    ensures Tidy(PutAll(base, cs, names))
  {
    if names != [] {
      PutsLast(base, ctrl, cs, names);
      TidyPutAll(base, ctrl, cs, names[..|names| - 1]);
      TidyPut(PutAll(base, cs, names[..|names| - 1]), ctrl, cs[names[|names| - 1]]);
    }
  }

  lemma {:induction false} StrippedTidy(list: seq<Entry>, fns: set<nat>)
    requires Descending(list) && Distinct(list)
    ensures Descending(Stripped(list, fns)) && Distinct(Stripped(list, fns))
  {
    if list != [] {
      var rest := Stripped(list[1..], fns);
      StrippedTidy(list[1..], fns);
      forall i | 0 <= i < |rest| ensures rest[i].prio <= list[0].prio && rest[i].fn != list[0].fn {
        StrippedMember(list[1..], fns, rest[i]);
        var j :| 0 <= j < |list[1..]| && list[1..][j] == rest[i];
        assert list[j + 1] == rest[i];
      }
      ConsOrder(list[0], rest);
    }
  }

  lemma TidyUnhooked(hooks: Hooks, on: On)
    requires Tidy(hooks)
    ensures Tidy(Unhooked(hooks, on))
  {
    forall h | h in hooks ensures Descending(Unhooked(hooks, on)[h]) && Distinct(Unhooked(hooks, on)[h]) {
      StrippedTidy(hooks[h], At(on, h));
    }
  }

  // ---------- removals ----------

  // What the codelets of the order leave on the hooks although they are gone over.
  function LeftOn(mid: Hooks, cs: Codelets, order: seq<LM.Name>): On {
    OnOf(cs, SetOf(order) - OffOf(mid, cs, order))
  }

  // The i-th of the order is removed if those before it were: memory for the shorter list is found, or none is needed
  // because whatever else was on its hook was removed before it.
  predicate Clears(mid: Hooks, cs: Codelets, order: seq<LM.Name>, i: nat)
    requires i < |order|
  {
    && order[i] in cs
    && (cs[order[i]].unhookMemory || LastOf(mid, cs, order, i))
  }

  predicate LastOf(mid: Hooks, cs: Codelets, order: seq<LM.Name>, i: nat)
    requires i < |order| && order[i] in cs
  {
    cs[order[i]].hook in mid &&
    forall k :: 0 <= k < |mid[cs[order[i]].hook]| ==>
      (cs[order[i]].hook, mid[cs[order[i]].hook][k].fn) in OnOf(cs, SetOf(order[..i]))
        + {(cs[order[i]].hook, cs[order[i]].fn)}
  }

  ghost predicate AllClear(mid: Hooks, cs: Codelets, order: seq<LM.Name>) {
    forall i :: 0 <= i < |order| ==> Clears(mid, cs, order, i)
  }

  // The codelets of the order are on their hooks, each with a function of its own.
  ghost predicate Attached(mid: Hooks, cs: Codelets, names: set<LM.Name>) {
    && names <= cs.Keys
    && (forall n :: n in names ==> OnHook(mid, cs[n].hook, cs[n].fn))
    && (forall m, n :: m in names && n in names && m != n ==> (cs[m].hook, cs[m].fn) != (cs[n].hook, cs[n].fn))
  }

  lemma ClearsIff(mid: Hooks, cs: Codelets, order: seq<LM.Name>, i: nat)
    requires NoDup(order) && Attached(mid, cs, SetOf(order)) && i < |order|
    ensures Clears(mid, cs, order, i) <==> ComesOff(mid, cs, order, i)
  {
    var n, off := order[i], SetOf(order[..i]);
    assert n in SetOf(order) && n !in off && off <= SetOf(order);
    var h, now := cs[n].hook, Unhooked(mid, OnOf(cs, off));
    assert (h, cs[n].fn) !in OnOf(cs, off);
    UnhookedPresent(mid, OnOf(cs, off), h, cs[n].fn);
    NoneLeft(Without(now[h], cs[n].fn));
    forall g: nat
      ensures Present(Without(now[h], cs[n].fn), g) <==> Present(mid[h], g) && (h, g) !in OnOf(cs, off) && g != cs[n].fn
    {
      WithoutPresent(now[h], cs[n].fn, g);
      UnhookedPresent(mid, OnOf(cs, off), h, g);
    }
    EmptiesIff(mid, cs, order, i);
  }

  lemma EmptiesIff(mid: Hooks, cs: Codelets, order: seq<LM.Name>, i: nat)
    requires i < |order| && order[i] in cs && cs[order[i]].hook in mid
    ensures var d := cs[order[i]];
            LastOf(mid, cs, order, i) <==>
              forall g: nat :: Present(mid[d.hook], g) ==> (d.hook, g) in OnOf(cs, SetOf(order[..i])) || g == d.fn
  {
    var d := cs[order[i]];
    forall k | 0 <= k < |mid[d.hook]| ensures Present(mid[d.hook], mid[d.hook][k].fn) {}
  }

  lemma {:induction false} OffAllIff(mid: Hooks, cs: Codelets, order: seq<LM.Name>, k: nat)
    requires NoDup(order) && SetOf(order) <= cs.Keys && k <= |order|
    ensures OffOf(mid, cs, order[..k]) == SetOf(order[..k]) <==> forall i :: 0 <= i < k ==> ComesOff(mid, cs, order, i)
  {
    if k == 0 {
      assert SetOf(order[..0]) == {};
    } else {
      assert order[..k] == order[..k - 1] + [order[k - 1]] && order[k - 1] !in order[..k - 1];
      assert order[k - 1] in SetOf(order);
      OffAllIff(mid, cs, order, k - 1);
      assert ComesOff(mid, cs, order, k - 1) <==>
             Unhookable(Unhooked(mid, OnOf(cs, SetOf(order[..k - 1]))), cs[order[k - 1]]);
      OffStep(mid, cs, order[..k - 1], order[k - 1]);
    }
  }

  /** Nothing is left on the hooks exactly when each removal found memory or emptied its hook. */
  lemma NoneLeftIff(mid: Hooks, cs: Codelets, order: seq<LM.Name>)
    requires NoDup(order) && Attached(mid, cs, SetOf(order))
    ensures LeftOn(mid, cs, order) == {} <==> AllClear(mid, cs, order)
  {
    forall i | 0 <= i < |order| ensures Clears(mid, cs, order, i) <==> ComesOff(mid, cs, order, i) {
      ClearsIff(mid, cs, order, i);
    }
    OffAllIff(mid, cs, order, |order|);
    assert order[..|order|] == order;
    OffWithin(mid, cs, order);
    if n :| n in SetOf(order) - OffOf(mid, cs, order) {
      assert (cs[n].hook, cs[n].fn) in LeftOn(mid, cs, order);
    } else {
      assert SetOf(order) - OffOf(mid, cs, order) == {};
    }
  }

  // ---------- what every operation keeps ----------

  lemma OnHookUnhooked(mid: Hooks, on: On, h: LM.Name, g: nat)
    ensures OnHook(Unhooked(mid, on), h, g) <==> OnHook(mid, h, g) && (h, g) !in on
  {
    if h in mid { UnhookedPresent(mid, on, h, g); }
  }

  // Those put on are attached, and nothing else has changed.
  lemma OnHookPuts(base: Hooks, ctrl: set<LM.Name>, cs: Codelets, names: seq<LM.Name>)
    requires Puts(base, ctrl, cs, names)
    ensures Attached(PutAll(base, cs, names), cs, SetOf(names))
    ensures forall h, g: nat :: OnHook(PutAll(base, cs, names), h, g) <==>
              OnHook(base, h, g) || (h, g) in OnOf(cs, SetOf(names))
    ensures forall h, g: nat :: (h, g) in OnOf(cs, SetOf(names)) ==> !OnHook(base, h, g)
  {
    var mid := PutAll(base, cs, names);
    PutsHooked(base, ctrl, cs, names);
    forall h, g: nat
      ensures OnHook(mid, h, g) <==> OnHook(base, h, g) || (h, g) in OnOf(cs, SetOf(names))
      ensures (h, g) in OnOf(cs, SetOf(names)) ==> !OnHook(base, h, g)
    {
      if h in mid { PresentAfterPuts(base, mid, cs, SetOf(names), h, g); }
    }
  }

  lemma OwnedPut(r: Registry, name: LM.Name, c: CodeletSet, h: LM.Name, g: nat)
    requires name !in r
    ensures Owned(r[name := c], h, g) <==> Owned(r, h, g) || (h, g) in OnOf(c.codelets, c.codelets.Keys)
  {
    var r' := r[name := c];
    if s, n :| Has(r, s, n, h, g) { assert Has(r', s, n, h, g); }
    if (h, g) in OnOf(c.codelets, c.codelets.Keys) {
      var n :| n in c.codelets && (c.codelets[n].hook, c.codelets[n].fn) == (h, g);
      assert Has(r', name, n, h, g);
    }
    if s, n :| Has(r', s, n, h, g) {
      if s != name { assert Has(r, s, n, h, g); }
    }
  }

  /** Registering a set whose codelets have been put on their hooks. */
  lemma KeptLoad(r: Registry, hooks: Hooks, stale: On, ctrl: set<LM.Name>, name: LM.Name, c: CodeletSet,
      names: seq<LM.Name>)
    requires Kept(r, hooks, stale) && name !in r && Puts(hooks, ctrl, c.codelets, names)
             && SetOf(names) == c.codelets.Keys
    ensures Kept(r[name := c], PutAll(hooks, c.codelets, names), stale)
  {
    var r', on := r[name := c], OnOf(c.codelets, c.codelets.Keys);
    OnHookPuts(hooks, ctrl, c.codelets, names);
    forall h, g: nat ensures Owned(r', h, g) <==> Owned(r, h, g) || (h, g) in on { OwnedPut(r, name, c, h, g); }
    forall s, n, s2, n2, h, g: nat | Has(r', s, n, h, g) && Has(r', s2, n2, h, g) ensures s == s2 && n == n2 {
      SameCodelet(r, hooks, stale, name, c, s, n, s2, n2, h, g);
    }
  }

  lemma SameCodelet(r: Registry, hooks: Hooks, stale: On, name: LM.Name, c: CodeletSet,
      s: LM.Name, n: LM.Name, s2: LM.Name, n2: LM.Name, h: LM.Name, g: nat)
    requires Kept(r, hooks, stale) && name !in r && Has(r[name := c], s, n, h, g) && Has(r[name := c], s2, n2, h, g)
    requires forall h, g: nat :: (h, g) in OnOf(c.codelets, c.codelets.Keys) ==> !OnHook(hooks, h, g)
    requires forall m, n :: m in c.codelets && n in c.codelets && m != n ==>
               (c.codelets[m].hook, c.codelets[m].fn) != (c.codelets[n].hook, c.codelets[n].fn)
    ensures s == s2 && n == n2
  {
    if s != name { assert Has(r, s, n, h, g); }
    if s2 != name { assert Has(r, s2, n2, h, g); }
    if s == name { assert (h, g) in OnOf(c.codelets, c.codelets.Keys); }
    if s2 == name { assert (h, g) in OnOf(c.codelets, c.codelets.Keys); }
  }

  lemma OnSplitOff(cs: Codelets, mid: Hooks, names: set<LM.Name>, off: set<LM.Name>, h: LM.Name, g: nat)
    requires Attached(mid, cs, names) && off <= names
    ensures (h, g) in OnOf(cs, names) <==> (h, g) in OnOf(cs, off) || (h, g) in OnOf(cs, names - off)
    ensures !((h, g) in OnOf(cs, off) && (h, g) in OnOf(cs, names - off))
  {
    if (h, g) in OnOf(cs, names) {
      var n :| n in names && n in cs && (cs[n].hook, cs[n].fn) == (h, g);
      assert n in off || n in names - off;
    }
  }

  /** A failed load: what its removals leave is stale. */
  lemma KeptFail(r: Registry, hooks: Hooks, stale: On, ctrl: set<LM.Name>, cs: Codelets, names: seq<LM.Name>,
      order: seq<LM.Name>)
    requires Kept(r, hooks, stale) && Puts(hooks, ctrl, cs, names) && NoDup(order) && SetOf(order) == SetOf(names)
    ensures var mid := PutAll(hooks, cs, names);
            && Attached(mid, cs, SetOf(order))
            && Kept(r, TakenOff(mid, cs, order), stale + LeftOn(mid, cs, order))
  {
    var mid, off := PutAll(hooks, cs, names), OffOf(PutAll(hooks, cs, names), cs, order);
    OnHookPuts(hooks, ctrl, cs, names);
    OffWithin(mid, cs, order);
    forall h, g: nat
      ensures OnHook(TakenOff(mid, cs, order), h, g) <==> OnHook(hooks, h, g) || (h, g) in LeftOn(mid, cs, order)
      ensures (h, g) in LeftOn(mid, cs, order) ==> !OnHook(hooks, h, g)
    {
      OnHookUnhooked(mid, OnOf(cs, off), h, g);
      OnSplitOff(cs, mid, SetOf(order), off, h, g);
    }
  }

  lemma OwnedDrop(r: Registry, name: LM.Name, h: LM.Name, g: nat)
    requires name in r
    ensures Owned(r, h, g) <==> Owned(r - {name}, h, g) || (h, g) in OnOf(r[name].codelets, r[name].codelets.Keys)
  {
    assert (r - {name})[name := r[name]] == r;
    OwnedPut(r - {name}, name, r[name], h, g);
  }

  lemma OwnApart(r: Registry, hooks: Hooks, stale: On, name: LM.Name, h: LM.Name, g: nat)
    requires Kept(r, hooks, stale) && name in r && (h, g) in OnOf(r[name].codelets, r[name].codelets.Keys)
    ensures !Owned(r - {name}, h, g) && (h, g) !in stale && OnHook(hooks, h, g)
  {
    var cs := r[name].codelets;
    var n :| n in cs && (cs[n].hook, cs[n].fn) == (h, g);
    assert Has(r, name, n, h, g);
    if s, m :| Has(r - {name}, s, m, h, g) { assert Has(r, s, m, h, g); }
  }

  lemma RegisteredAttached(r: Registry, hooks: Hooks, stale: On, name: LM.Name)
    requires Kept(r, hooks, stale) && name in r
    ensures Attached(hooks, r[name].codelets, r[name].codelets.Keys)
  {
    var cs := r[name].codelets;
    forall n | n in cs ensures OnHook(hooks, cs[n].hook, cs[n].fn) {
      assert Has(r, name, n, cs[n].hook, cs[n].fn);
    }
    forall m, n | m in cs && n in cs && m != n ensures (cs[m].hook, cs[m].fn) != (cs[n].hook, cs[n].fn) {
      assert Has(r, name, m, cs[m].hook, cs[m].fn) && Has(r, name, n, cs[n].hook, cs[n].fn);
    }
  }

  /** Unloading a set: what its removals leave is stale. */
  lemma KeptUnload(r: Registry, hooks: Hooks, stale: On, name: LM.Name, order: seq<LM.Name>)
    requires Kept(r, hooks, stale) && name in r && NoDup(order) && SetOf(order) == r[name].codelets.Keys
    ensures var cs := r[name].codelets;
            && Attached(hooks, cs, SetOf(order))
            && Kept(r - {name}, TakenOff(hooks, cs, order), stale + LeftOn(hooks, cs, order))
  {
    var cs, off := r[name].codelets, OffOf(hooks, r[name].codelets, order);
    RegisteredAttached(r, hooks, stale, name);
    OffWithin(hooks, cs, order);
    forall h, g: nat
      ensures OnHook(TakenOff(hooks, cs, order), h, g) <==>
              Owned(r - {name}, h, g) || (h, g) in stale + LeftOn(hooks, cs, order)
      ensures Owned(r - {name}, h, g) ==> (h, g) !in stale + LeftOn(hooks, cs, order)
    {
      OnHookUnhooked(hooks, OnOf(cs, off), h, g);
      OnSplitOff(cs, hooks, SetOf(order), off, h, g);
      OwnedDrop(r, name, h, g);
      if (h, g) in OnOf(cs, cs.Keys) { OwnApart(r, hooks, stale, name, h, g); }
    }
    forall s, n, s2, n2, h, g: nat | Has(r - {name}, s, n, h, g) && Has(r - {name}, s2, n2, h, g)
      ensures s == s2 && n == n2
    {
      assert Has(r, s, n, h, g) && Has(r, s2, n2, h, g);
    }
  }

  // ---------- the removals of a run ----------

  // The codelets of a set that were gone over in that order, with the hooks as they were before.
  datatype Removal = Removal(name: LM.Name, hooks: Hooks, codelets: Codelets, order: seq<LM.Name>)

  ghost predicate Clear(m: Removal) {
    AllClear(m.hooks, m.codelets, m.order)
  }

  function Leaves(m: Removal): On {
    LeftOn(m.hooks, m.codelets, m.order)
  }

  function StaleOf(ms: seq<Removal>): On {
    if ms == [] then {} else StaleOf(ms[..|ms| - 1]) + Leaves(ms[|ms| - 1])
  }

  ghost predicate Judged(ms: seq<Removal>) {
    forall i :: 0 <= i < |ms| ==> (Leaves(ms[i]) == {} <==> Clear(ms[i]))
  }

  lemma JudgedNext(ms: seq<Removal>, m: Removal)
    requires Judged(ms) && Real(m)
    ensures Judged(ms + [m]) && StaleOf(ms + [m]) == StaleOf(ms) + Leaves(m)
  {
    NoneLeftIff(m.hooks, m.codelets, m.order);
    assert (ms + [m])[..|ms|] == ms;
  }

  lemma {:induction false} StaleNoneIff(ms: seq<Removal>)
    requires Judged(ms)
    ensures StaleOf(ms) == {} <==> forall i :: 0 <= i < |ms| ==> Clear(ms[i])
  {
    if ms != [] {
      var before := ms[..|ms| - 1];
      assert forall i :: 0 <= i < |before| ==> before[i] == ms[i];
      StaleNoneIff(before);
      assert StaleOf(ms) == {} <==> StaleOf(before) == {} && Leaves(ms[|ms| - 1]) == {};
    }
  }

  // What holds of registry and hooks between operations.
  ghost predicate HooksOk(r: Registry, hooks: Hooks, stale: On) {
    Tidy(hooks) && Kept(r, hooks, stale)
  }

  // The codelets were on their hooks when they were gone over, each with a function of its own.
  ghost predicate Real(m: Removal) {
    NoDup(m.order) && Attached(m.hooks, m.codelets, SetOf(m.order))
  }

  lemma JudgedOne(m: Removal)
    requires Real(m)
    ensures Judged([m]) && StaleOf([m]) == Leaves(m)
  {
    JudgedNext([], m);
    assert [] + [m] == [m];
  }

  // The removal with which a failed load ends.
  function TakenBack(r: Request, b: Snapshot, o: Orders): Removal
    requires CountOf(r, b.nmapReg) <= |r.codelets|
  {
    var cs := First(r.codelets, CountOf(r, b.nmapReg));
    Removal(r.name, PutAll(b.hooks, cs, o.hooked), cs, o.unhooked)
  }

  function UnloadOf(registry: Registry, hooks: Hooks, name: LM.Name, order: seq<LM.Name>): Removal
    requires name in registry
  {
    Removal(name, hooks, registry[name].codelets, order)
  }

  lemma LoadKeeps(r: Request, ctrl: set<LM.Name>, b: Snapshot, a: Snapshot, o: Orders, stale: On)
    requires HooksOk(b.registry, b.hooks, stale) && r.name !in b.registry && Succeeded(r, ctrl, b, a, o)
    ensures HooksOk(a.registry, a.hooks, stale)
  {
    var c := CodeletSet(First(r.codelets, |r.codelets|), MapsOf(r, b.nmapReg));
    TidyPutAll(b.hooks, ctrl, c.codelets, o.hooked);
    KeptLoad(b.registry, b.hooks, stale, ctrl, r.name, c, o.hooked);
  }

  lemma FailKeeps(r: Request, ctrl: set<LM.Name>, b: Snapshot, a: Snapshot, o: Orders, taken: seq<Removal>, stale: On,
      stale': On)
    requires HooksOk(b.registry, b.hooks, stale) && Failed(r, ctrl, b, a, o)
    requires taken == [TakenBack(r, b, o)] && stale' == stale + StaleOf(taken)
    ensures Judged(taken) && HooksOk(a.registry, a.hooks, stale')
  {
    var cs := First(r.codelets, CountOf(r, b.nmapReg));
    var mid := PutAll(b.hooks, cs, o.hooked);
    TidyPutAll(b.hooks, ctrl, cs, o.hooked);
    TidyUnhooked(mid, OnOf(cs, OffOf(mid, cs, o.unhooked)));
    KeptFail(b.registry, b.hooks, stale, ctrl, cs, o.hooked, o.unhooked);
    JudgedOne(TakenBack(r, b, o));
  }

  lemma UnloadKeeps(r: Registry, r': Registry, hooks: Hooks, hooks': Hooks, name: LM.Name, order: seq<LM.Name>,
      taken: seq<Removal>, stale: On, stale': On)
    requires HooksOk(r, hooks, stale) && name in r && NoDup(order) && SetOf(order) == r[name].codelets.Keys
    requires r' == r - {name} && hooks' == TakenOff(hooks, r[name].codelets, order)
    requires taken == [UnloadOf(r, hooks, name, order)] && stale' == stale + StaleOf(taken)
    ensures Judged(taken) && HooksOk(r', hooks', stale')
  {
    var cs := r[name].codelets;
    TidyUnhooked(hooks, OnOf(cs, OffOf(hooks, cs, order)));
    KeptUnload(r, hooks, stale, name, order);
    JudgedOne(UnloadOf(r, hooks, name, order));
  }

  // What one operation does to registry and hooks: nothing, or it loads a set, fails to, or unloads one.
  datatype Change =
    | Nothing
    | Loads(r: Request, o: Orders)
    | Fails(r: Request, o: Orders)
    | Unloads(name: LM.Name, order: seq<LM.Name>)

  ghost predicate Changes(c: Change, ctrl: set<LM.Name>, b: Snapshot, a: Snapshot) {
    match c
    case Nothing => a.registry == b.registry && a.hooks == b.hooks
    case Loads(r, o) => r.name !in b.registry && Succeeded(r, ctrl, b, a, o)
    case Fails(r, o) => Failed(r, ctrl, b, a, o)
    case Unloads(name, order) =>
      && name in b.registry && NoDup(order) && SetOf(order) == b.registry[name].codelets.Keys
      && a.registry == b.registry - {name} && a.hooks == TakenOff(b.hooks, b.registry[name].codelets, order)
  }

  // The removals of the operation.
  ghost function RemovalsOf(c: Change, ctrl: set<LM.Name>, b: Snapshot, a: Snapshot): seq<Removal>
    requires Changes(c, ctrl, b, a)
  {
    match c
    case Nothing => []
    case Loads(_, _) => []
    case Fails(r, o) => [TakenBack(r, b, o)]
    case Unloads(name, order) => [UnloadOf(b.registry, b.hooks, name, order)]
  }

  // The run so far: what is on the hooks, and the removals behind what is stale.
  ghost predicate Booked(s: Snapshot, taken: seq<Removal>) {
    HooksOk(s.registry, s.hooks, StaleOf(taken)) && Judged(taken)
  }

  lemma StaleMore(taken: seq<Removal>, m: Removal)
    requires Judged(taken) && Judged([m])
    ensures StaleOf(taken + [m]) == StaleOf(taken) + StaleOf([m]) && Judged(taken + [m])
  {
    assert [m][..0] == [] && [m][0] == m;
    assert (taken + [m])[..|taken|] == taken;
  }

  /** Every operation keeps the books. */
  lemma ChangeKeeps(c: Change, ctrl: set<LM.Name>, b: Snapshot, a: Snapshot, taken: seq<Removal>)
    requires Booked(b, taken) && Changes(c, ctrl, b, a)
    ensures Booked(a, taken + RemovalsOf(c, ctrl, b, a))
  {
    var more := RemovalsOf(c, ctrl, b, a);
    match c
    case Nothing => assert taken + more == taken;
    case Loads(r, o) =>
      LoadKeeps(r, ctrl, b, a, o, StaleOf(taken));
      assert taken + more == taken;
    case Fails(r, o) =>
      FailKeeps(r, ctrl, b, a, o, more, StaleOf(taken), StaleOf(taken) + StaleOf(more));
      StaleMore(taken, more[0]);
    case Unloads(name, order) =>
      UnloadKeeps(b.registry, a.registry, b.hooks, a.hooks, name, order, more, StaleOf(taken),
        StaleOf(taken) + StaleOf(more));
      StaleMore(taken, more[0]);
  }

  lemma NothingBooked(s: Snapshot)
    requires s.registry == map[] && forall h :: h in s.hooks ==> s.hooks[h] == []
    ensures Booked(s, [])
  {
    forall h, g: nat ensures !OnHook(s.hooks, h, g) && !Owned(s.registry, h, g) {}
  }

  /** Every function on a hook belongs to a registered codelet exactly when each removal so far found memory or emptied
      its hook. */
  lemma NoStrayIff(s: Snapshot, taken: seq<Removal>)
    requires Booked(s, taken)
    ensures (forall h, g: nat :: OnHook(s.hooks, h, g) ==> Owned(s.registry, h, g)) <==>
              forall i :: 0 <= i < |taken| ==> Clear(taken[i])
    ensures Tidy(s.hooks) && forall h, g: nat :: Owned(s.registry, h, g) ==> OnHook(s.hooks, h, g)
  {
    StaleNoneIff(taken);
    if p :| p in StaleOf(taken) {
      assert OnHook(s.hooks, p.0, p.1) && !Owned(s.registry, p.0, p.1);
    }
  }

  /** A codelet that shares its hook and is unloaded when no memory is found leaves its function on the hook. */
  lemma StrayAfterUnload(mid: Hooks, cs: Codelets, n: LM.Name, other: Entry)
    requires n in cs && !cs[n].unhookMemory && cs[n].hook in mid && other.fn != cs[n].fn
    requires mid[cs[n].hook] == [EntryOf(cs[n]), other]
    ensures Real(Removal(n, mid, cs, [n])) && LeftOn(mid, cs, [n]) == {(cs[n].hook, cs[n].fn)}
  {
    var h, fn := cs[n].hook, cs[n].fn;
    assert Present(mid[h], fn) && SetOf([n]) == {n} && [n][..0] == [];
    WithoutMember(mid[h], fn, other);
    UnhookedNone(mid);
    assert OnOf(cs, {}) == {} && OffOf(mid, cs, []) == {};
    assert OffOf(mid, cs, [n]) == {};
    assert SetOf([n]) - {} == {n};
    assert OnOf(cs, {n}) == {(h, fn)};
  }
}
