/**
 Loading and unloading codeletsets.

 A load creates the codelets one after another, checks that all linked maps were linked, hooks the
 codelets and registers the set; after a failure it takes back what it did. Hash tables are iterated in
 an order of their own, so those loops take their elements in any order. All of it runs under one lock.
 */
module Codeletsets {
  import opened Requests
  import opened HookList
  import opened HookTable
  import opened Collections
  import LM = LinkedMaps

  const MAX_SETS: nat := 64
  const MAX_CODELETS: nat := 64
  const MAX_MAPS: nat := 65535

  const SUCCESS := 0
  const HOOK_NOT_EXIST := -1
  const CREATION_FAIL := -2
  const LOAD_FAIL := -3
  const PARAM_INVALID := -4
  const UNLOAD_FAIL := -1
  const FAULT := 2          // the process has faulted and there is no return code

  type Codelets = map<LM.Name, Descriptor>

  datatype CodeletSet = CodeletSet(codelets: Codelets, maps: LM.State)

  // ---------- maps ----------

  // The maps of the other codelets.
  function Others(maps: map<LM.Alias, LM.Inst>, name: LM.Name): map<LM.Alias, LM.Inst> {
    map a | a in maps && a.codelet != name :: maps[a]
  }

  ghost predicate Full(s: LM.State) {
    s.table.Keys <= s.maps.Keys
  }

  // Every map belongs to one of the codelets.
  ghost predicate Within(s: LM.State, names: set<LM.Name>) {
    forall a :: a in s.maps ==> a.codelet in names
  }

  lemma WithinMore(s: LM.State, s': LM.State, names: set<LM.Name>, n: LM.Name)
    requires Within(s, names) && Others(s'.maps, n) == s.maps
    ensures Within(s', names + {n})
  {
    forall a | a in s'.maps && a.codelet != n ensures a.codelet in names {
      assert a in Others(s'.maps, n);
    }
  }

  lemma WithinLess(s: LM.State, s': LM.State, names: set<LM.Name>, n: LM.Name)
    requires Within(s, names) && s'.maps == Others(s.maps, n)
    ensures Within(s', names - {n})
  {}

  lemma WithinNone(s: LM.State)
    requires Within(s, {})
    ensures s.maps == map[]
  {}

  lemma NoneYet(s: LM.State, names: set<LM.Name>, n: LM.Name)
    requires Within(s, names) && n !in names
    ensures Others(s.maps, n) == s.maps
  {}

  // The relocation creates an unlinked map that cannot be registered.
  predicate Leaks(s: LM.State, a: LM.Alias, create: bool, register: bool) {
    a !in s.maps && a !in s.table && create && !register
  }

  lemma RelocateFacts(s: LM.State, a: LM.Alias, def: LM.Def, create: bool, register: bool)
    ensures var s' := LM.DoRelocate(s, a, def, create, register);
            && s'.table == s.table
            && Others(s'.maps, a.codelet) == Others(s.maps, a.codelet)
            && s.nmap <= s'.nmap <= s.nmap + 1
            && (!create ==> s'.nmap == s.nmap)
            && s'.leaks == s.leaks + (if Leaks(s, a, create, register) then 1 else 0)
            && (LM.Succeeds(s, a, def, create, register) ==> !Leaks(s, a, create, register))
  {}

  lemma UnmapChanges(s: LM.State, a: LM.Alias)
    requires a in s.maps && (a in s.table ==> s.table[a] in s.groups)
    ensures var s' := LM.DoUnmap(s, a);
            && s'.maps == s.maps - {a} && s'.leaks == s.leaks
            && s'.table == s.table - {a} && s'.nmap <= s.nmap
  {}

  lemma UnmapFacts(s: LM.State, a: LM.Alias)
    requires LM.Reachable(s) && a in s.maps
    ensures var s' := LM.DoUnmap(s, a);
            && LM.Reachable(s') && s'.maps == s.maps - {a} && s'.leaks == s.leaks
            && s'.table == s.table - {a} && s'.nmap <= s.nmap
  {
    LM.ReachableStep(s, LM.Unmap(a));
    if a in s.table { LM.RecordsExist(s, a); }
    UnmapChanges(s, a);
  }

  lemma DropFacts(s: LM.State, a: LM.Alias)
    requires LM.Reachable(s) && s.maps == map[] && a in s.table
    ensures var s' := LM.DoDrop(s, a);
            && LM.Reachable(s') && s'.maps == map[] && s'.leaks == s.leaks
            && s'.table == s.table - {a} && s'.nmap == s.nmap
  {
    LM.ReachableStep(s, LM.DropAlias(a));
    LM.RecordsExist(s, a);
  }

  // ---------- hooks ----------

  // What the named codelets put on the hooks.
  function OnOf(cs: Codelets, names: set<LM.Name>): On {
    set n | n in names && n in cs :: (cs[n].hook, cs[n].fn)
  }

  function EntryOf(d: Descriptor): Entry {
    Entry(d.fn, d.prio, d.thresh)
  }

  predicate Hookable(hooks: Hooks, ctrl: set<LM.Name>, d: Descriptor) {
    d.hook in hooks && Registers(hooks[d.hook], d.hook in ctrl, EntryOf(d), d.hookMemory)
  }

  // Some codelet not among those hooked cannot be.
  ghost predicate Stuck(hooks: Hooks, ctrl: set<LM.Name>, cs: Codelets, names: seq<LM.Name>) {
    exists n :: n in cs && n !in names && !Hookable(hooks, ctrl, cs[n])
  }

  function Put(hooks: Hooks, d: Descriptor): Hooks {
    if d.hook in hooks then hooks[d.hook := Inserted(hooks[d.hook], EntryOf(d))] else hooks
  }

  // The hooks after hooking the named codelets in that order.
  function PutAll(base: Hooks, cs: Codelets, names: seq<LM.Name>): Hooks {
    if names == [] then base
    else
      var before, n := PutAll(base, cs, names[..|names| - 1]), names[|names| - 1];
      if n in cs then Put(before, cs[n]) else before
  }

  // They can be hooked in that order.
  predicate Puts(base: Hooks, ctrl: set<LM.Name>, cs: Codelets, names: seq<LM.Name>) {
    names == [] ||
    var before, n := names[..|names| - 1], names[|names| - 1];
    && Puts(base, ctrl, cs, before)
    && n in cs && n !in before && Hookable(PutAll(base, cs, before), ctrl, cs[n])
  }

  // The hooks now are those of before with the named codelets put on, each once.
  ghost predicate Hooked(base: Hooks, now: Hooks, cs: Codelets, names: set<LM.Name>) {
    && names <= cs.Keys && now.Keys == base.Keys
    && Unhooked(now, OnOf(cs, names)) == base
    && (forall n :: n in names ==> cs[n].hook in now && Present(now[cs[n].hook], cs[n].fn))
    && (forall m, n :: m in names && n in names && m != n ==> (cs[m].hook, cs[m].fn) != (cs[n].hook, cs[n].fn))
  }

  lemma HookOne(base: Hooks, now: Hooks, cs: Codelets, names: set<LM.Name>, n: LM.Name, e: Entry)
    requires Hooked(base, now, cs, names) && n in cs && n !in names && cs[n].hook in now
    requires e.fn == cs[n].fn && !Present(now[cs[n].hook], e.fn)
    ensures Hooked(base, now[cs[n].hook := Inserted(now[cs[n].hook], e)], cs, names + {n})
  {
    var h := cs[n].hook;
    var now' := now[h := Inserted(now[h], e)];
    HookUnhook(now, OnOf(cs, names), h, e);
    assert OnOf(cs, names + {n}) == OnOf(cs, names) + {(h, e.fn)};
    forall m | m in names + {n} ensures cs[m].hook in now' && Present(now'[cs[m].hook], cs[m].fn) {
      InsertedPresent(now[h], e, cs[m].fn);
    }
  }

  lemma PutsLast(base: Hooks, ctrl: set<LM.Name>, cs: Codelets, names: seq<LM.Name>)
    requires names != [] && Puts(base, ctrl, cs, names)
    ensures var before, n := names[..|names| - 1], names[|names| - 1];
            && Puts(base, ctrl, cs, before) && n in cs && n !in SetOf(before)
            && Hookable(PutAll(base, cs, before), ctrl, cs[n])
            && PutAll(base, cs, names) == Put(PutAll(base, cs, before), cs[n])
            && SetOf(names) == SetOf(before) + {n}
  {
    var before, n := names[..|names| - 1], names[|names| - 1];
    assert names == before + [n];
    SetOfAppend(before, n);
  }

  /** Codelets hooked one after another are all there, and taking them all off gives the hooks back. */
  lemma {:induction false} PutsHooked(base: Hooks, ctrl: set<LM.Name>, cs: Codelets, names: seq<LM.Name>)
    requires Puts(base, ctrl, cs, names)
    ensures Hooked(base, PutAll(base, cs, names), cs, SetOf(names))
  {
    if names == [] {
      assert SetOf(names) == {};
      HookedNone(base, cs);
    } else {
      var before, n := names[..|names| - 1], names[|names| - 1];
      PutsLast(base, ctrl, cs, names);
      PutsHooked(base, ctrl, cs, before);
      HookOne(base, PutAll(base, cs, before), cs, SetOf(before), n, EntryOf(cs[n]));
    }
  }

  lemma PutsNext(base: Hooks, ctrl: set<LM.Name>, cs: Codelets, names: seq<LM.Name>, n: LM.Name)
    requires Puts(base, ctrl, cs, names) && n in cs && n !in names && Hookable(PutAll(base, cs, names), ctrl, cs[n])
    ensures Puts(base, ctrl, cs, names + [n])
    ensures PutAll(base, cs, names + [n]) == Put(PutAll(base, cs, names), cs[n])
    ensures SetOf(names + [n]) == SetOf(names) + {n}
  {
    assert (names + [n])[..|names|] == names;
  }

  lemma {:induction false} PutAllKeys(base: Hooks, cs: Codelets, names: seq<LM.Name>)
    ensures PutAll(base, cs, names).Keys == base.Keys
  {
    if names != [] { PutAllKeys(base, cs, names[..|names| - 1]); }
  }

  lemma HookedNone(base: Hooks, cs: Codelets)
    ensures Hooked(base, base, cs, {})
  {
    assert OnOf(cs, {}) == {};
    UnhookedNone(base);
  }

  lemma UnhookOne(mid: Hooks, now: Hooks, cs: Codelets, names: set<LM.Name>, n: LM.Name)
    requires now == Unhooked(mid, OnOf(cs, names)) && n in cs && cs[n].hook in mid
    ensures now[cs[n].hook := Without(now[cs[n].hook], cs[n].fn)] == Unhooked(mid, OnOf(cs, names + {n}))
  {
    UnhookMore(mid, OnOf(cs, names), cs[n].hook, cs[n].fn);
    assert OnOf(cs, names + {n}) == OnOf(cs, names) + {(cs[n].hook, cs[n].fn)};
  }

  predicate Unhookable(hooks: Hooks, d: Descriptor) {
    d.hook in hooks && Removes(hooks[d.hook], d.fn, d.unhookMemory)
  }

  function Take(hooks: Hooks, d: Descriptor): Hooks {
    if d.hook in hooks then hooks[d.hook := Without(hooks[d.hook], d.fn)] else hooks
  }

  // Which of the named codelets come off when they are gone over in that order.
  function OffOf(mid: Hooks, cs: Codelets, order: seq<LM.Name>): set<LM.Name> {
    if order == [] then {}
    else
      var off, n := OffOf(mid, cs, order[..|order| - 1]), order[|order| - 1];
      if n in cs && Unhookable(Unhooked(mid, OnOf(cs, off)), cs[n]) then off + {n} else off
  }

  // The hooks after going over them.
  function TakenOff(mid: Hooks, cs: Codelets, order: seq<LM.Name>): Hooks {
    Unhooked(mid, OnOf(cs, OffOf(mid, cs, order)))
  }

  lemma TakenOffNone(mid: Hooks, cs: Codelets)
    ensures TakenOff(mid, cs, []) == mid
  {
    assert OnOf(cs, {}) == {};
    UnhookedNone(mid);
  }

  lemma TakenOffNext(mid: Hooks, cs: Codelets, order: seq<LM.Name>, n: LM.Name)
    requires n in cs
    ensures TakenOff(mid, cs, order + [n]) ==
      var now := TakenOff(mid, cs, order); if Unhookable(now, cs[n]) then Take(now, cs[n]) else now
  {
    assert (order + [n])[..|order|] == order;
    var off := OffOf(mid, cs, order);
    if cs[n].hook in mid { UnhookOne(mid, Unhooked(mid, OnOf(cs, off)), cs, off, n); }
  }

  lemma {:induction false} OffWithin(mid: Hooks, cs: Codelets, order: seq<LM.Name>)
    ensures OffOf(mid, cs, order) <= SetOf(order)
  {
    if order != [] { OffWithin(mid, cs, order[..|order| - 1]); }
  }

  /** The hooks are as they were exactly when every codelet that was put on has been taken off. */
  lemma HooksRestored(base: Hooks, ctrl: set<LM.Name>, cs: Codelets, names: seq<LM.Name>, off: set<LM.Name>)
    requires Puts(base, ctrl, cs, names) && off <= SetOf(names)
    ensures Unhooked(PutAll(base, cs, names), OnOf(cs, off)) == base <==> off == SetOf(names)
  {
    PutsHooked(base, ctrl, cs, names);
    SomeLeft(base, PutAll(base, cs, names), cs, SetOf(names), off);
  }

  lemma SomeLeft(base: Hooks, mid: Hooks, cs: Codelets, names: set<LM.Name>, off: set<LM.Name>)
    requires Hooked(base, mid, cs, names) && off <= names
    ensures Unhooked(mid, OnOf(cs, off)) == base <==> off == names
  {
    RestoredIffAllOff(base, mid, OnOf(cs, names), OnOf(cs, off));
    if off != names {
      var n :| n in names && n !in off;
      assert (cs[n].hook, cs[n].fn) in OnOf(cs, names) && (cs[n].hook, cs[n].fn) !in OnOf(cs, off);
    }
  }

  // The i-th of the order comes off if those before it did: memory for the shorter list is found, or none is
  // needed because nothing else was on its hook and those of the order that were are off.
  predicate Frees(base: Hooks, cs: Codelets, order: seq<LM.Name>, i: nat)
    requires i < |order|
  {
    && order[i] in cs
    && (cs[order[i]].unhookMemory
       || (LastOnHook(cs, order, i) && cs[order[i]].hook in base && base[cs[order[i]].hook] == []))
  }

  predicate LastOnHook(cs: Codelets, order: seq<LM.Name>, i: nat)
    requires i < |order| && order[i] in cs
  {
    forall j :: i < j < |order| && order[j] in cs ==> cs[order[j]].hook != cs[order[i]].hook
  }

  lemma PresentAfterPuts(base: Hooks, mid: Hooks, cs: Codelets, names: set<LM.Name>, h: LM.Name, g: nat)
    requires Hooked(base, mid, cs, names) && h in mid
    ensures Present(mid[h], g) <==> Present(base[h], g) || (h, g) in OnOf(cs, names)
    ensures (h, g) in OnOf(cs, names) ==> !Present(base[h], g)
  {
    UnhookedPresent(mid, OnOf(cs, names), h, g);
  }

  // What is left on the hook of n once off and n are gone.
  lemma LeftOnHook(base: Hooks, mid: Hooks, cs: Codelets, names: set<LM.Name>, off: set<LM.Name>, n: LM.Name, g: nat)
    requires Hooked(base, mid, cs, names) && off <= names && n in names && n !in off
    ensures cs[n].hook in mid
    ensures Present(Without(Unhooked(mid, OnOf(cs, off))[cs[n].hook], cs[n].fn), g) <==>
      Present(base[cs[n].hook], g) || (cs[n].hook, g) in OnOf(cs, names - off - {n})
  {
    var h := cs[n].hook;
    WithoutPresent(Unhooked(mid, OnOf(cs, off))[h], cs[n].fn, g);
    UnhookedPresent(mid, OnOf(cs, off), h, g);
    PresentAfterPuts(base, mid, cs, names, h, g);
    PresentAfterPuts(base, mid, cs, names, h, cs[n].fn);
    OnSplit(base, mid, cs, names, off, n, h, g);
  }

  lemma OnSplit(base: Hooks, mid: Hooks, cs: Codelets, names: set<LM.Name>, off: set<LM.Name>, n: LM.Name, h: LM.Name,
      g: nat)
    requires Hooked(base, mid, cs, names) && off <= names && n in names && n !in off && h == cs[n].hook
    ensures (h, g) in OnOf(cs, names - off - {n}) <==>
              (h, g) in OnOf(cs, names) && (h, g) !in OnOf(cs, off) && g != cs[n].fn
    ensures (h, cs[n].fn) in OnOf(cs, names)
    ensures (h, g) in OnOf(cs, off) ==> (h, g) in OnOf(cs, names)
  {
    if (h, g) in OnOf(cs, names) {
      var m :| m in names && m in cs && (cs[m].hook, cs[m].fn) == (h, g);
      assert m in off || m == n || m in names - off - {n};
    }
  }

  lemma NoneLeft(list: seq<Entry>)
    ensures list == [] <==> forall g :: !Present(list, g)
  {
    if list != [] { assert Present(list, list[0].fn); }
  }

  // Nothing is left on the hook of n exactly when nothing was there and no other codelet put there remains.
  lemma AloneIff(base: Hooks, mid: Hooks, cs: Codelets, names: set<LM.Name>, off: set<LM.Name>, n: LM.Name)
    requires Hooked(base, mid, cs, names) && off <= names && n in names && n !in off
    ensures cs[n].hook in mid
    ensures Without(Unhooked(mid, OnOf(cs, off))[cs[n].hook], cs[n].fn) == [] <==>
      base[cs[n].hook] == [] && forall m :: m in names - off - {n} ==> cs[m].hook != cs[n].hook
  {
    var h := cs[n].hook;
    var rest := Without(Unhooked(mid, OnOf(cs, off))[h], cs[n].fn);
    NoneLeft(rest);
    NoneLeft(base[h]);
    forall g: nat ensures Present(rest, g) <==> Present(base[h], g) || (h, g) in OnOf(cs, names - off - {n}) {
      LeftOnHook(base, mid, cs, names, off, n, g);
    }
    forall m | m in names - off - {n} && cs[m].hook == h ensures (h, cs[m].fn) in OnOf(cs, names - off - {n}) {}
  }

  // Whether the k-th of the order comes off once those before it have.
  lemma FreesIff(base: Hooks, mid: Hooks, cs: Codelets, order: seq<LM.Name>, k: nat)
    requires Hooked(base, mid, cs, SetOf(order)) && NoDup(order) && k < |order|
    ensures order[k] in cs
    ensures Unhookable(Unhooked(mid, OnOf(cs, SetOf(order[..k]))), cs[order[k]]) <==> Frees(base, cs, order, k)
  {
    var n, off := order[k], SetOf(order[..k]);
    assert n in SetOf(order) && n !in off && off <= SetOf(order);
    AloneIff(base, mid, cs, SetOf(order), off, n);
    OnSplit(base, mid, cs, SetOf(order), off, n, cs[n].hook, cs[n].fn);
    UnhookedPresent(mid, OnOf(cs, off), cs[n].hook, cs[n].fn);
    Later(order, k);
    assert (forall m :: m in SetOf(order) - off - {n} ==> cs[m].hook != cs[n].hook) <==> LastOnHook(cs, order, k);
  }

  lemma Later(order: seq<LM.Name>, k: nat)
    requires NoDup(order) && k < |order|
    ensures forall m :: m in SetOf(order) - SetOf(order[..k]) - {order[k]} <==>
              exists j :: k < j < |order| && order[j] == m
  {
    assert forall i :: 0 <= i < k ==> order[..k][i] == order[i] && order[i] in order[..k];
    forall j | k < j < |order| ensures order[j] in SetOf(order) - SetOf(order[..k]) - {order[k]} {}
    forall m | m in SetOf(order) - SetOf(order[..k]) - {order[k]} ensures exists j :: k < j < |order| && order[j] == m {
      var j :| 0 <= j < |order| && order[j] == m;
    }
  }

  predicate FirstFree(base: Hooks, cs: Codelets, order: seq<LM.Name>, k: nat)
    requires k <= |order|
  {
    k == 0 || (FirstFree(base, cs, order, k - 1) && Frees(base, cs, order, k - 1))
  }

  lemma {:induction false} FirstFreeIff(base: Hooks, cs: Codelets, order: seq<LM.Name>, k: nat)
    requires k <= |order|
    ensures FirstFree(base, cs, order, k) <==> forall i :: 0 <= i < k ==> Frees(base, cs, order, i)
  {
    if k > 0 { FirstFreeIff(base, cs, order, k - 1); }
  }

  lemma OffStep(mid: Hooks, cs: Codelets, order: seq<LM.Name>, n: LM.Name)
    requires n !in SetOf(order) && n in cs
    ensures OffOf(mid, cs, order + [n]) == SetOf(order + [n]) <==>
      OffOf(mid, cs, order) == SetOf(order) && Unhookable(Unhooked(mid, OnOf(cs, SetOf(order))), cs[n])
  {
    var off := OffOf(mid, cs, order);
    assert (order + [n])[..|order|] == order;
    SetOfAppend(order, n);
    OffWithin(mid, cs, order);
    if off != SetOf(order) {
      var m :| m in SetOf(order) && m !in off;
      assert m != n && m in SetOf(order + [n]) && m !in OffOf(mid, cs, order + [n]);
    }
  }

  // The i-th of the order can be taken off when those before it have been.
  predicate ComesOff(mid: Hooks, cs: Codelets, order: seq<LM.Name>, i: nat)
    requires i < |order|
  {
    order[i] in cs && Unhookable(Unhooked(mid, OnOf(cs, SetOf(order[..i]))), cs[order[i]])
  }

  lemma {:induction false} OffPrefix(base: Hooks, mid: Hooks, cs: Codelets, order: seq<LM.Name>, k: nat)
    requires NoDup(order) && k <= |order|
    requires forall i :: 0 <= i < |order| ==>
               order[i] in cs && (ComesOff(mid, cs, order, i) <==> Frees(base, cs, order, i))
    ensures OffOf(mid, cs, order[..k]) == SetOf(order[..k]) <==> FirstFree(base, cs, order, k)
  {
    if k == 0 {
      assert SetOf(order[..0]) == {};
    } else {
      assert order[..k] == order[..k - 1] + [order[k - 1]] && order[k - 1] !in order[..k - 1];
      OffPrefix(base, mid, cs, order, k - 1);
      assert ComesOff(mid, cs, order, k - 1) <==> Frees(base, cs, order, k - 1);
      OffStep(mid, cs, order[..k - 1], order[k - 1]);
    }
  }

  /** Codelets put on hooks and then gone over in some order leave the hooks as they were exactly when, for each of
      them, memory is found to unhook it, or its hook had no codelets before and it is the last of them there. */
  lemma RestoredIff(base: Hooks, ctrl: set<LM.Name>, cs: Codelets, names: seq<LM.Name>, order: seq<LM.Name>)
    requires Puts(base, ctrl, cs, names) && NoDup(order) && SetOf(order) == SetOf(names)
    ensures TakenOff(PutAll(base, cs, names), cs, order) == base <==> AllFree(base, cs, order)
  {
    var mid := PutAll(base, cs, names);
    PutsHooked(base, ctrl, cs, names);
    forall i | 0 <= i < |order| ensures order[i] in cs && (ComesOff(mid, cs, order, i) <==> Frees(base, cs, order, i)) {
      FreesIff(base, mid, cs, order, i);
    }
    OffPrefix(base, mid, cs, order, |order|);
    FirstFreeIff(base, cs, order, |order|);
    assert order[..|order|] == order;
    OffWithin(mid, cs, order);
    HooksRestored(base, ctrl, cs, names, OffOf(mid, cs, order));
  }

  // The codelet can be unhooked whatever the order.
  ghost predicate AlwaysFrees(base: Hooks, cs: Codelets, names: set<LM.Name>, n: LM.Name)
    requires n in cs && names <= cs.Keys
  {
    cs[n].unhookMemory ||
    (cs[n].hook in base && base[cs[n].hook] == [] && forall m :: m in names && m != n ==> cs[m].hook != cs[n].hook)
  }

  // An order in which a codelet that is not always freed is gone over first.
  lemma SticksFirst(base: Hooks, ctrl: set<LM.Name>, cs: Codelets, names: seq<LM.Name>, n: LM.Name)
      returns (order: seq<LM.Name>)
    requires Puts(base, ctrl, cs, names) && SetOf(names) <= cs.Keys && n in names
             && !AlwaysFrees(base, cs, SetOf(names), n)
    ensures NoDup(order) && SetOf(order) == SetOf(names) && TakenOff(PutAll(base, cs, names), cs, order) != base
  {
    PutsNoDup(base, ctrl, cs, names);
    order := [n] + Dropped(names, n);
    DroppedSpec(names, n);
    ConsNoDup(n, Dropped(names, n));
    assert SetOf(order) == SetOf(names);
    RestoredIff(base, ctrl, cs, names, order);
    assert !Frees(base, cs, order, 0) by {
      if LastOnHook(cs, order, 0) {
        forall m | m in SetOf(names) && m != n ensures cs[m].hook != cs[n].hook {
          var j :| 0 <= j < |order| && order[j] == m;
        }
      }
    }
  }

  lemma FreesAlways(base: Hooks, ctrl: set<LM.Name>, cs: Codelets, names: seq<LM.Name>, order: seq<LM.Name>)
    requires Puts(base, ctrl, cs, names) && SetOf(names) <= cs.Keys && NoDup(order) && SetOf(order) == SetOf(names)
    requires forall n :: n in SetOf(names) ==> AlwaysFrees(base, cs, SetOf(names), n)
    ensures TakenOff(PutAll(base, cs, names), cs, order) == base
  {
    forall i | 0 <= i < |order| ensures Frees(base, cs, order, i) {
      assert order[i] in SetOf(order);
      forall j | i < j < |order| && order[j] in cs && !cs[order[i]].unhookMemory
        ensures cs[order[j]].hook != cs[order[i]].hook
      {
        assert order[j] in SetOf(order);
      }
    }
    RestoredIff(base, ctrl, cs, names, order);
  }

  ghost predicate RestoredInEveryOrder(base: Hooks, cs: Codelets, names: seq<LM.Name>) {
    forall order :: NoDup(order) && SetOf(order) == SetOf(names) ==>
      TakenOff(PutAll(base, cs, names), cs, order) == base
  }

  /** They are restored in whatever order they are gone over, exactly when each has memory to be unhooked or is alone
      on its hook. */
  lemma RestoredInEveryOrderIff(base: Hooks, ctrl: set<LM.Name>, cs: Codelets, names: seq<LM.Name>)
    requires Puts(base, ctrl, cs, names) && SetOf(names) <= cs.Keys
    ensures RestoredInEveryOrder(base, cs, names) <==>
              forall n :: n in SetOf(names) ==> AlwaysFrees(base, cs, SetOf(names), n)
  {
    if n :| n in SetOf(names) && !AlwaysFrees(base, cs, SetOf(names), n) {
      var order := SticksFirst(base, ctrl, cs, names, n);
    } else {
      forall order | NoDup(order) && SetOf(order) == SetOf(names)
        ensures TakenOff(PutAll(base, cs, names), cs, order) == base
      {
        FreesAlways(base, ctrl, cs, names, order);
      }
    }
  }

  // Hooking the codelets in that order ends before all are hooked.
  ghost predicate EndsEarly(base: Hooks, ctrl: set<LM.Name>, cs: Codelets, names: seq<LM.Name>) {
    Puts(base, ctrl, cs, names) && SetOf(names) < cs.Keys && Stuck(PutAll(base, cs, names), ctrl, cs, names)
  }

  /** A load that cannot hook all its codelets always leaves the hooks as they were, in whatever orders it goes
      over its codelets, exactly when each codelet it may have hooked by then has memory to be unhooked or is
      alone on its hook. */
  lemma AlwaysRestoredIff(base: Hooks, ctrl: set<LM.Name>, cs: Codelets)
    ensures (forall names :: EndsEarly(base, ctrl, cs, names) ==> RestoredInEveryOrder(base, cs, names))
            <==> forall names, n :: EndsEarly(base, ctrl, cs, names) && n in SetOf(names) ==>
                   AlwaysFrees(base, cs, SetOf(names), n)
  {
    forall names | EndsEarly(base, ctrl, cs, names)
      ensures RestoredInEveryOrder(base, cs, names) <==>
                forall n :: n in SetOf(names) ==> AlwaysFrees(base, cs, SetOf(names), n)
    {
      RestoredInEveryOrderIff(base, ctrl, cs, names);
    }
  }

  function Dropped(q: seq<LM.Name>, n: LM.Name): seq<LM.Name> {
    if q == [] then [] else if q[0] == n then q[1..] else [q[0]] + Dropped(q[1..], n)
  }

  lemma {:induction false} DroppedSpec(q: seq<LM.Name>, n: LM.Name)
    requires NoDup(q)
    ensures NoDup(Dropped(q, n)) && SetOf(Dropped(q, n)) == SetOf(q) - {n}
  {
    if q != [] {
      SetOfTail(q);
      DroppedSpec(q[1..], n);
      if q[0] != n {
        assert q[0] !in SetOf(q[1..]);
        ConsNoDup(q[0], Dropped(q[1..], n));
      }
    }
  }

  lemma ConsNoDup(x: LM.Name, q: seq<LM.Name>)
    requires NoDup(q) && x !in SetOf(q)
    ensures NoDup([x] + q) && SetOf([x] + q) == {x} + SetOf(q)
  {
    assert forall i :: 0 <= i < |q| ==> q[i] in SetOf(q);
  }

  lemma {:induction false} PutsNoDup(base: Hooks, ctrl: set<LM.Name>, cs: Codelets, names: seq<LM.Name>)
    requires Puts(base, ctrl, cs, names)
    ensures NoDup(names)
  {
    if names != [] {
      var before, n := names[..|names| - 1], names[|names| - 1];
      PutsNoDup(base, ctrl, cs, before);
      assert names == before + [n];
      SetOfAppend(before, n);
    }
  }

  /** Hooking a codelet puts it last among its priority, keeps the order of the rest and touches no other hook. */
  lemma PutMeaning(hooks: Hooks, ctrl: set<LM.Name>, d: Descriptor)
    requires Hookable(hooks, ctrl, d) && Descending(hooks[d.hook])
    ensures var now := Put(hooks, d);
            && now.Keys == hooks.Keys && Unhooked(now, {(d.hook, d.fn)}) == hooks
            && Descending(now[d.hook])
            && (forall p: int :: OfPrio(now[d.hook], p)
                 == OfPrio(hooks[d.hook], p) + (if p == d.prio then [EntryOf(d)] else []))
            && (forall h :: h in hooks && h != d.hook ==> now[h] == hooks[h])
  {
    var e := EntryOf(d);
    HookUnhook(hooks, {}, d.hook, e);
    UnhookedNone(hooks);
    assert {} + {(d.hook, e.fn)} == {(d.hook, d.fn)};
    InsertedSorted(hooks[d.hook], e);
    forall p: int
      ensures OfPrio(Inserted(hooks[d.hook], e), p) == OfPrio(hooks[d.hook], p) + (if p == e.prio then [e] else [])
    {
      InsertedOfPrio(hooks[d.hook], e, p);
    }
  }

  /** Unhooking a codelet takes its entry off its hook, keeps the order of the rest and touches no other hook. */
  lemma TakeMeaning(hooks: Hooks, d: Descriptor)
    requires Unhookable(hooks, d) && Descending(hooks[d.hook]) && Distinct(hooks[d.hook])
    ensures var now := Take(hooks, d);
            && now.Keys == hooks.Keys && now == Unhooked(hooks, {(d.hook, d.fn)})
            && Descending(now[d.hook]) && Distinct(now[d.hook])
            && (forall g :: Present(now[d.hook], g) <==> Present(hooks[d.hook], g) && g != d.fn)
            && (forall p: int :: OfPrio(now[d.hook], p) == Without(OfPrio(hooks[d.hook], p), d.fn))
  {
    UnhookedNone(hooks);
    UnhookMore(hooks, {}, d.hook, d.fn);
    assert {} + {(d.hook, d.fn)} == {(d.hook, d.fn)};
    WithoutSub(hooks[d.hook], d.fn);
    forall g ensures Present(Without(hooks[d.hook], d.fn), g) <==> Present(hooks[d.hook], g) && g != d.fn {
      WithoutPresent(hooks[d.hook], d.fn, g);
    }
    forall p: int ensures OfPrio(Without(hooks[d.hook], d.fn), p) == Without(OfPrio(hooks[d.hook], p), d.fn) {
      OfPrioWithout(hooks[d.hook], d.fn, p);
    }
  }

  // ---------- counting over the registry ----------

  function Tagged<T>(m: map<LM.Name, set<T>>): set<(LM.Name, T)> {
    set n, x | n in m && x in m[n] :: (n, x)
  }

  function Tag<T>(n: LM.Name, xs: set<T>): set<(LM.Name, T)> {
    set x | x in xs :: (n, x)
  }

  lemma {:induction false} TagSize<T>(n: LM.Name, xs: set<T>)
    ensures |Tag(n, xs)| == |xs|
  {
    if xs != {} {
      var x :| x in xs;
      TagSize(n, xs - {x});
      assert Tag(n, xs) == Tag(n, xs - {x}) + {(n, x)};
    }
  }

  lemma TaggedPut<T>(m: map<LM.Name, set<T>>, n: LM.Name, xs: set<T>)
    requires n !in m
    ensures |Tagged(m[n := xs])| == |Tagged(m)| + |xs|
  {
    assert Tagged(m[n := xs]) == Tagged(m) + Tag(n, xs);
    assert Tagged(m) !! Tag(n, xs);
    TagSize(n, xs);
  }

  type Registry = map<LM.Name, CodeletSet>

  function CodeletsIn(r: Registry): map<LM.Name, set<LM.Name>> {
    map n | n in r :: r[n].codelets.Keys
  }

  function DataIn(r: Registry): map<LM.Name, set<nat>> {
    map n | n in r :: r[n].maps.data
  }

  // A registered set: every alias has its map, all maps belong to its codelets, and its hooks exist.
  ghost predicate SetOk(c: CodeletSet, hookNames: set<LM.Name>) {
    && LM.Reachable(c.maps) && Full(c.maps) && Within(c.maps, c.codelets.Keys) && c.maps.leaks == 0
    && (forall n :: n in c.codelets ==> c.codelets[n].hook in hookNames)
  }

  // The registry with its two counters: total_num_codelets is the number of codelets registered and of
  // those spent on failed loads, nmap_reg the number of data objects and of the maps lost.
  ghost predicate Sound(r: Registry, hookNames: set<LM.Name>, total: int, nmapReg: int, lost: nat, spent: nat) {
    && |r| <= MAX_SETS
    && |Tagged(CodeletsIn(r))| + spent == total <= MAX_CODELETS
    && |Tagged(DataIn(r))| + lost == nmapReg <= MAX_MAPS
    && AllOk(r, hookNames)
  }

  ghost predicate AllOk(r: Registry, hookNames: set<LM.Name>) {
    forall n :: n in r ==> SetOk(r[n], hookNames)
  }

  lemma RegisteredOk(r: Registry, hookNames: set<LM.Name>, total: int, nmapReg: int, lost: nat, spent: nat,
      name: LM.Name)
    requires Sound(r, hookNames, total, nmapReg, lost, spent) && name in r
    ensures SetOk(r[name], hookNames)
  {}

  lemma AllOkPut(r: Registry, hookNames: set<LM.Name>, name: LM.Name, c: CodeletSet)
    requires AllOk(r, hookNames) && SetOk(c, hookNames)
    ensures AllOk(r[name := c], hookNames) && AllOk(r - {name}, hookNames)
  {}

  lemma CodeletsPut(r: Registry, name: LM.Name, c: CodeletSet)
    ensures CodeletsIn(r[name := c]) == CodeletsIn(r)[name := c.codelets.Keys]
  {}

  lemma DataPut(r: Registry, name: LM.Name, c: CodeletSet)
    ensures DataIn(r[name := c]) == DataIn(r)[name := c.maps.data]
  {}

  lemma CountsPut(r: Registry, name: LM.Name, c: CodeletSet)
    requires name !in r
    ensures |Tagged(CodeletsIn(r[name := c]))| == |Tagged(CodeletsIn(r))| + |c.codelets|
    ensures |Tagged(DataIn(r[name := c]))| == |Tagged(DataIn(r))| + |c.maps.data|
  {
    CodeletsPut(r, name, c);
    DataPut(r, name, c);
    TaggedPut(CodeletsIn(r), name, c.codelets.Keys);
    TaggedPut(DataIn(r), name, c.maps.data);
  }

  lemma CountsDrop(r: Registry, name: LM.Name)
    requires name in r
    ensures |Tagged(CodeletsIn(r - {name}))| == |Tagged(CodeletsIn(r))| - |r[name].codelets|
    ensures |Tagged(DataIn(r - {name}))| == |Tagged(DataIn(r))| - |r[name].maps.data|
    ensures |r - {name}| == |r| - 1
  {
    CountsPut(r - {name}, name, r[name]);
    assert (r - {name})[name := r[name]] == r;
  }

  lemma SoundPut(r: Registry, r': Registry, hookNames: set<LM.Name>, total: int, total': int, nmapReg: int,
      nmapReg': int, lost: nat, spent: nat, name: LM.Name, c: CodeletSet)
    requires Sound(r, hookNames, total, nmapReg, lost, spent) && name !in r && |r| < MAX_SETS && SetOk(c, hookNames)
    requires total' == total + |c.codelets| <= MAX_CODELETS && nmapReg' == nmapReg + |c.maps.data| <= MAX_MAPS
    requires r' == r[name := c]
    ensures Sound(r', hookNames, total', nmapReg', lost, spent)
  {
    CountsPut(r, name, c);
    AllOkPut(r, hookNames, name, c);
  }

  lemma SoundDrop(r: Registry, r': Registry, hookNames: set<LM.Name>, total: int, total': int, nmapReg: int,
      nmapReg': int, lost: nat, spent: nat, name: LM.Name)
    requires Sound(r, hookNames, total, nmapReg, lost, spent) && name in r && r' == r - {name}
    requires total' == total - |r[name].codelets| && nmapReg' == nmapReg - |r[name].maps.data|
    ensures Sound(r', hookNames, total', nmapReg', lost, spent)
  {
    CountsDrop(r, name);
    AllOkPut(r, hookNames, name, r[name]);
  }

  // ---------- the codelets of a request ----------

  // The first n codelets, by name.
  function First(ds: seq<Descriptor>, n: nat): Codelets
    requires n <= |ds|
  {
    if n == 0 then map[] else First(ds, n - 1)[ds[n - 1].name := ds[n - 1]]
  }

  lemma {:induction false} FirstNames(ds: seq<Descriptor>, n: nat)
    requires n <= |ds| && UniqueNames(ds)
    ensures |First(ds, n)| == n && forall i :: n <= i < |ds| ==> ds[i].name !in First(ds, n)
  {
    if n > 0 { FirstNames(ds, n - 1); }
  }

  ghost predicate HooksExist(ds: seq<Descriptor>, hooks: Hooks) {
    forall i :: 0 <= i < |ds| ==> ds[i].hook in hooks
  }

  lemma {:induction false} FirstHooks(ds: seq<Descriptor>, n: nat, hooks: Hooks)
    requires n <= |ds| && HooksExist(ds, hooks)
    ensures forall c :: c in First(ds, n) ==> First(ds, n)[c].hook in hooks
  {
    if n > 0 { FirstHooks(ds, n - 1, hooks); }
  }

  lemma FewerHooked(cs: Codelets, loaded: seq<LM.Name>)
    requires SetOf(loaded) <= cs.Keys && (loaded == [] || SetOf(loaded) != cs.Keys)
    ensures |SetOf(loaded)| <= |cs| && (|SetOf(loaded)| == |cs| <==> |cs| == 0)
  {
    SubsetSize(SetOf(loaded), cs.Keys);
    if loaded == [] {
      assert SetOf(loaded) == {};
    } else if |SetOf(loaded)| == |cs| {
      LM.SameSize(SetOf(loaded), cs.Keys);
    }
  }

  // What a failed load does to the counters.
  lemma SoundFail(r: Registry, hookNames: set<LM.Name>, total: int, total': int, nmapReg: int, nmapReg': int,
                  lost: nat, lost': nat, spent: nat, spent': nat)
    requires Sound(r, hookNames, total, nmapReg, lost, spent) && total' == total + spent' - spent <= MAX_CODELETS
    requires nmapReg' == nmapReg + lost' - lost <= MAX_MAPS
    ensures Sound(r, hookNames, total', nmapReg', lost', spent')
  {}

  lemma BuiltOk(ds: seq<Descriptor>, n: nat, s: LM.State, hooks: Hooks)
    requires n <= |ds| && HooksExist(ds, hooks)
    requires LM.Reachable(s) && Full(s) && Within(s, First(ds, n).Keys) && s.leaks == 0
    ensures SetOk(CodeletSet(First(ds, n), s), hooks.Keys) && s.nmap == |s.data|
  {
    FirstHooks(ds, n, hooks);
    LM.CountData(s);
  }

  lemma PutDrop(r: Registry, name: LM.Name, c: CodeletSet)
    requires name !in r
    ensures r[name := c] - {name} == r
  {}

  // ---------- what a load can create ----------

  // A map can be created while fewer than MAX_MAPS are; base is nmap_reg without this set.
  predicate Creatable(t: LM.State, sym: Symbol, base: int) {
    sym.create && base + t.nmap != MAX_MAPS
  }

  function Relocated(s: LM.State, d: Descriptor, k: nat, base: int): LM.State
    requires k <= |d.symbols|
  {
    if k == 0 then s
    else
      var t, sym := Relocated(s, d, k - 1, base), d.symbols[k - 1];
      LM.DoRelocate(t, LM.Alias(d.name, sym.name), sym.def, Creatable(t, sym, base), sym.register)
  }

  predicate Relocates(s: LM.State, d: Descriptor, k: nat, base: int)
    requires k <= |d.symbols|
  {
    k == 0 ||
    var t, sym := Relocated(s, d, k - 1, base), d.symbols[k - 1];
    && Relocates(s, d, k - 1, base)
    && LM.Succeeds(t, LM.Alias(d.name, sym.name), sym.def, Creatable(t, sym, base), sym.register)
  }

  // The k-th relocation of the codelet leaks a map.
  predicate LeaksAt(s: LM.State, d: Descriptor, k: nat, base: int)
    requires k < |d.symbols|
  {
    var t, sym := Relocated(s, d, k, base), d.symbols[k];
    Leaks(t, LM.Alias(d.name, sym.name), Creatable(t, sym, base), sym.register)
  }

  lemma {:induction false} RelocatedLeaks(s: LM.State, d: Descriptor, k: nat, base: int)
    requires k <= |d.symbols|
    ensures s.leaks <= Relocated(s, d, k, base).leaks
    ensures Relocated(s, d, k, base).leaks == s.leaks <==> forall j :: 0 <= j < k ==> !LeaksAt(s, d, j, base)
    ensures Relocates(s, d, k, base) ==> Relocated(s, d, k, base).leaks == s.leaks
  {
    if k > 0 {
      var t, sym := Relocated(s, d, k - 1, base), d.symbols[k - 1];
      RelocatedLeaks(s, d, k - 1, base);
      RelocateFacts(t, LM.Alias(d.name, sym.name), sym.def, Creatable(t, sym, base), sym.register);
      assert LeaksAt(s, d, k - 1, base) <==>
               Leaks(t, LM.Alias(d.name, sym.name), Creatable(t, sym, base), sym.register);
    }
  }

  // The leaks once a codelet that cannot be created has been given up.
  function FailedLeaks(s: LM.State, d: Descriptor, base: int): nat {
    if d.available then Relocated(s, d, |d.symbols|, base).leaks else s.leaks
  }

  predicate CanCreate(s: LM.State, d: Descriptor, base: int) {
    d.available && d.compiles && Relocates(s, d, |d.symbols|, base)
  }

  // The maps once the first k codelets are created.
  function CreatedAll(s: LM.State, ds: seq<Descriptor>, k: nat, base: int): LM.State
    requires k <= |ds|
  {
    if k == 0 then s else Relocated(CreatedAll(s, ds, k - 1, base), ds[k - 1], |ds[k - 1].symbols|, base)
  }

  predicate Creates(s: LM.State, ds: seq<Descriptor>, k: nat, base: int)
    requires k <= |ds|
  {
    k == 0 || (Creates(s, ds, k - 1, base) && CanCreate(CreatedAll(s, ds, k - 1, base), ds[k - 1], base))
  }

  lemma {:induction false} CreatesFewer(s: LM.State, ds: seq<Descriptor>, j: nat, k: nat, base: int)
    requires j < k <= |ds| && Creates(s, ds, k, base)
    ensures Creates(s, ds, j, base) && CanCreate(CreatedAll(s, ds, j, base), ds[j], base)
  {
    if j + 1 < k { CreatesFewer(s, ds, j, k - 1, base); }
  }

  // The loop stopped after k codelets.
  lemma StoppedAt(s: LM.State, ds: seq<Descriptor>, k: nat, base: int)
    requires k <= |ds| && Creates(s, ds, k, base)
    requires k < |ds| ==> !CanCreate(CreatedAll(s, ds, k, base), ds[k], base)
    ensures Creates(s, ds, |ds|, base) <==> k == |ds|
    ensures |ds| > 0 ==> (k == 0 <==> !CanCreate(s, ds[0], base))
  {
    if k < |ds| && Creates(s, ds, |ds|, base) {
      CreatesFewer(s, ds, k, |ds|, base);
    }
    if k > 0 {
      CreatesFewer(s, ds, 0, k, base);
    }
  }

  // Creating codelet d takes the maps from t to s.
  ghost predicate Makes(t: LM.State, d: Descriptor, base: int, s: LM.State) {
    CanCreate(t, d, base) && s == Relocated(t, d, |d.symbols|, base)
  }

  ghost predicate MakesAt(hist: seq<LM.State>, ds: seq<Descriptor>, base: int, i: nat) {
    i < |ds| && i + 1 < |hist| && Makes(hist[i], ds[i], base, hist[i + 1])
  }

  // The maps before and after each codelet.
  ghost predicate Trail(hist: seq<LM.State>, ds: seq<Descriptor>, base: int) {
    |hist| <= |ds| + 1 && forall i: nat :: i < |hist| - 1 ==> MakesAt(hist, ds, base, i)
  }

  // Creating the first k codelets has taken the maps from s0 to s.
  ghost predicate Made(s0: LM.State, ds: seq<Descriptor>, k: nat, base: int, s: LM.State) {
    exists hist :: Trail(hist, ds, base) && |hist| == k + 1 && hist[0] == s0 && hist[k] == s
  }

  // The codelet after them cannot be created.
  ghost predicate Stops(s0: LM.State, ds: seq<Descriptor>, k: nat, base: int, leaks: nat) {
    k < |ds| &&
    exists s :: Made(s0, ds, k, base, s) && !CanCreate(s, ds[k], base) && leaks == FailedLeaks(s, ds[k], base)
  }

  lemma MadeNone(s0: LM.State, ds: seq<Descriptor>, base: int)
    ensures Made(s0, ds, 0, base, s0)
  {
    assert Trail([s0], ds, base) && [s0][0] == s0;
  }

  lemma MadeNext(s0: LM.State, ds: seq<Descriptor>, k: nat, base: int, s: LM.State, s': LM.State)
    requires Made(s0, ds, k, base, s) && k < |ds| && Makes(s, ds[k], base, s')
    ensures Made(s0, ds, k + 1, base, s')
  {
    var hist :| Trail(hist, ds, base) && |hist| == k + 1 && hist[0] == s0 && hist[k] == s;
    var hist' := hist + [s'];
    forall i: nat | i < |hist'| - 1 ensures MakesAt(hist', ds, base, i) {
      if i < k { assert MakesAt(hist, ds, base, i); }
    }
    assert Trail(hist', ds, base);
  }

  lemma {:induction false} TrailCreates(hist: seq<LM.State>, ds: seq<Descriptor>, base: int, k: nat)
    requires Trail(hist, ds, base) && k < |hist|
    ensures Creates(hist[0], ds, k, base) && CreatedAll(hist[0], ds, k, base) == hist[k]
  {
    if k > 0 {
      TrailCreates(hist, ds, base, k - 1);
      assert MakesAt(hist, ds, base, k - 1);
    }
  }

  lemma MadeCreates(s0: LM.State, ds: seq<Descriptor>, k: nat, base: int, s: LM.State)
    requires Made(s0, ds, k, base, s)
    ensures k <= |ds| && Creates(s0, ds, k, base) && CreatedAll(s0, ds, k, base) == s
  {
    var hist :| Trail(hist, ds, base) && |hist| == k + 1 && hist[0] == s0 && hist[k] == s;
    TrailCreates(hist, ds, base, k);
  }

  // How many codelets are created, when k have been.
  function CountFrom(s0: LM.State, ds: seq<Descriptor>, k: nat, base: int): nat
    requires k <= |ds|
    decreases |ds| - k
  {
    if k == |ds| || !CanCreate(CreatedAll(s0, ds, k, base), ds[k], base) then k else CountFrom(s0, ds, k + 1, base)
  }

  lemma {:induction false} CountIs(s0: LM.State, ds: seq<Descriptor>, j: nat, k: nat, base: int)
    requires j <= k <= |ds| && Creates(s0, ds, k, base)
    requires k < |ds| ==> !CanCreate(CreatedAll(s0, ds, k, base), ds[k], base)
    ensures CountFrom(s0, ds, j, base) == k
    decreases k - j
  {
    if j < k {
      CreatesFewer(s0, ds, j, k, base);
      CountIs(s0, ds, j + 1, k, base);
    }
  }

  /** Where the creating loop stops settles what can be created. */
  lemma StopsOrAll(s0: LM.State, ds: seq<Descriptor>, k: nat, base: int, s: LM.State)
    requires Stops(s0, ds, k, base, s.leaks) || (k == |ds| && Made(s0, ds, k, base, s))
    ensures k <= |ds| && (Creates(s0, ds, |ds|, base) <==> k == |ds|) && k == CountFrom(s0, ds, 0, base)
    ensures ds != [] ==> (k == 0 <==> !CanCreate(s0, ds[0], base))
    ensures k == |ds| ==> s == CreatedAll(s0, ds, k, base)
    ensures k < |ds| ==> s.leaks == FailedLeaks(CreatedAll(s0, ds, k, base), ds[k], base)
  {
    if Stops(s0, ds, k, base, s.leaks) {
      var t :| Made(s0, ds, k, base, t) && !CanCreate(t, ds[k], base) && s.leaks == FailedLeaks(t, ds[k], base);
      MadeCreates(s0, ds, k, base, t);
    } else {
      MadeCreates(s0, ds, k, base, s);
    }
    StoppedAt(s0, ds, k, base);
    CountIs(s0, ds, 0, k, base);
  }

  // The table of linked maps a request starts with.
  function StartOf(r: Request): LM.State {
    LM.Populate(AllLinks(r.codelets, |r.codelets|))
  }

  // The maps of a set that loads, and whether it gets that far.
  function MapsOf(r: Request, nmapReg: int): LM.State {
    CreatedAll(StartOf(r), r.codelets, |r.codelets|, nmapReg)
  }

  predicate AllCreate(r: Request, nmapReg: int) {
    Creates(StartOf(r), r.codelets, |r.codelets|, nmapReg)
  }

  // How many of its codelets a request creates.
  function CountOf(r: Request, nmapReg: int): (k: nat) {
    CountFrom(StartOf(r), r.codelets, 0, nmapReg)
  }

  lemma {:induction false} CountBound(s0: LM.State, ds: seq<Descriptor>, k: nat, base: int)
    requires k <= |ds|
    ensures k <= CountFrom(s0, ds, k, base) <= |ds|
    decreases |ds| - k
  {
    if k < |ds| { CountBound(s0, ds, k + 1, base); }
  }

  // The maps it leaves counted in nmap_reg when it fails.
  function LeaksOf(r: Request, nmapReg: int): nat {
    var k := CountOf(r, nmapReg);
    if k < |r.codelets| then FailedLeaks(CreatedAll(StartOf(r), r.codelets, k, nmapReg), r.codelets[k], nmapReg) else 0
  }

  lemma {:induction false} CreatedLeaks(s: LM.State, ds: seq<Descriptor>, k: nat, base: int)
    requires k <= |ds| && Creates(s, ds, k, base)
    ensures CreatedAll(s, ds, k, base).leaks == s.leaks
  {
    if k > 0 {
      CreatedLeaks(s, ds, k - 1, base);
      RelocatedLeaks(CreatedAll(s, ds, k - 1, base), ds[k - 1], |ds[k - 1].symbols|, base);
    }
  }

  lemma {:induction false} CountCreates(s0: LM.State, ds: seq<Descriptor>, k: nat, base: int)
    requires k <= |ds| && Creates(s0, ds, k, base)
    ensures var n := CountFrom(s0, ds, k, base);
            n <= |ds| && Creates(s0, ds, n, base) && (n < |ds| ==> !CanCreate(CreatedAll(s0, ds, n, base), ds[n], base))
    decreases |ds| - k
  {
    if k < |ds| && CanCreate(CreatedAll(s0, ds, k, base), ds[k], base) { CountCreates(s0, ds, k + 1, base); }
  }

  /** A request leaks no map exactly when it creates all its codelets, or the first it cannot create is not
      available, or no relocation of that codelet creates an unlinked map that is not yet there and cannot be
      registered. */
  lemma NoLeakIff(r: Request, nmapReg: int)
    ensures CountOf(r, nmapReg) <= |r.codelets| && (LeaksOf(r, nmapReg) == 0 <==> NoLeak(r, nmapReg))
  {
    var k, ds := CountOf(r, nmapReg), r.codelets;
    CountCreates(StartOf(r), ds, 0, nmapReg);
    LM.PopulateLeaks(AllLinks(ds, |ds|));
    CreatedLeaks(StartOf(r), ds, k, nmapReg);
    if k < |ds| {
      RelocatedLeaks(CreatedAll(StartOf(r), ds, k, nmapReg), ds[k], |ds[k].symbols|, nmapReg);
    }
  }

  // The orders in which a load goes over its hash tables.
  datatype Orders = Orders(checked: seq<LM.Alias>, hooked: seq<LM.Name>, unhooked: seq<LM.Name>)

  // How an admitted load ends, in those orders.
  function Outcome(r: Request, nmapReg: int, o: Orders): int {
    if !AllCreate(r, nmapReg) then CREATION_FAIL
    else
      match LM.Checked(MapsOf(r, nmapReg), o.checked)
      case Fault => FAULT
      case Mismatch => LOAD_FAIL
      case Passed => if SetOf(o.hooked) == First(r.codelets, |r.codelets|).Keys then SUCCESS else LOAD_FAIL
  }

  // The orders are those of some load: the check goes over the whole table unless it stops, and then codelets are
  // hooked until one cannot be.
  ghost predicate Tried(r: Request, hooks: Hooks, ctrl: set<LM.Name>, nmapReg: int, o: Orders) {
    var s, cs := MapsOf(r, nmapReg), First(r.codelets, |r.codelets|);
    if !AllCreate(r, nmapReg) then o.checked == [] && o.hooked == []
    else
      && SetOf(o.checked) <= s.table.Keys
      && if LM.Checked(s, o.checked) != LM.Passed then o.hooked == []
         else
           && SetOf(o.checked) == s.table.Keys
           && Puts(hooks, ctrl, cs, o.hooked) && SetOf(o.hooked) <= cs.Keys
           && (SetOf(o.hooked) == cs.Keys || Stuck(PutAll(hooks, cs, o.hooked), ctrl, cs, o.hooked))
  }

  // Each codelet of the order comes off in its turn.
  ghost predicate AllFree(base: Hooks, cs: Codelets, order: seq<LM.Name>) {
    forall i :: 0 <= i < |order| ==> Frees(base, cs, order, i)
  }

  // Each codelet a failed load has hooked comes off in its turn.
  ghost predicate Freed(r: Request, hooks: Hooks, nmapReg: int, unhooked: seq<LM.Name>)
    requires CountOf(r, nmapReg) <= |r.codelets|
  {
    AllFree(hooks, First(r.codelets, CountOf(r, nmapReg)), unhooked)
  }

  lemma NoneCreatedIff(r: Request, nmapReg: int)
    requires r.codelets != []
    ensures CountOf(r, nmapReg) == 0 <==> !CanCreate(StartOf(r), r.codelets[0], nmapReg)
  {
    CountBound(StartOf(r), r.codelets, 0, nmapReg);
    if CanCreate(StartOf(r), r.codelets[0], nmapReg) { CountBound(StartOf(r), r.codelets, 1, nmapReg); }
  }

  // A load that failed has left no leak.
  ghost predicate NoLeak(r: Request, nmapReg: int) {
    var k, ds := CountOf(r, nmapReg), r.codelets;
    k >= |ds| || !ds[k].available ||
    forall j :: 0 <= j < |ds[k].symbols| ==> !LeaksAt(CreatedAll(StartOf(r), ds, k, nmapReg), ds[k], j, nmapReg)
  }

  lemma {:induction false} RelocatedTable(s: LM.State, d: Descriptor, k: nat, base: int)
    requires k <= |d.symbols| && LM.Reachable(s)
    ensures LM.Reachable(Relocated(s, d, k, base)) && Relocated(s, d, k, base).table == s.table
  {
    if k > 0 {
      var t, sym := Relocated(s, d, k - 1, base), d.symbols[k - 1];
      var a, create := LM.Alias(d.name, sym.name), Creatable(t, sym, base);
      RelocatedTable(s, d, k - 1, base);
      RelocateFacts(t, a, sym.def, create, sym.register);
      LM.ReachableStep(t, LM.Relocate(a, sym.def, create, sym.register));
    }
  }

  lemma {:induction false} CreatedTable(s: LM.State, ds: seq<Descriptor>, k: nat, base: int)
    requires k <= |ds| && LM.Reachable(s)
    ensures LM.Reachable(CreatedAll(s, ds, k, base)) && CreatedAll(s, ds, k, base).table == s.table
  {
    if k > 0 {
      CreatedTable(s, ds, k - 1, base);
      RelocatedTable(CreatedAll(s, ds, k - 1, base), ds[k - 1], |ds[k - 1].symbols|, base);
    }
  }

  // The k-th of all links.
  lemma LoadedLinkShares(r: Request, nmapReg: int, k: nat)
    requires WellFormed(r) && Full(MapsOf(r, nmapReg)) && k < |AllLinks(r.codelets, |r.codelets|)|
    ensures var links, s := AllLinks(r.codelets, |r.codelets|), MapsOf(r, nmapReg);
            var a, b := links[k].0, links[k].1;
            && a in s.maps && b in s.maps
            && (s.maps[a] == s.maps[b] <==> !LM.Apart(LM.Populate(links[..k]), links[k]))
            && (s.maps[a].data == s.maps[b].data <==> !LM.Apart(LM.Populate(links[..k]), links[k]))
  {
    var links := AllLinks(r.codelets, |r.codelets|);
    AllLinksDistinct(r.codelets, |r.codelets|);
    LM.PopulateReachable(links);
    CreatedTable(StartOf(r), r.codelets, |r.codelets|, nmapReg);
    LM.LinksJoinUnlessApart(links, k);
    LM.SharingIsLinking(MapsOf(r, nmapReg), links[k].0, links[k].1);
  }

  /** In a set that has loaded, the map of every link of every codelet and the map it is linked with are there, and have
      one data object of one definition exactly when no earlier links had put them in different groups. */
  lemma LoadedLinksShare(r: Request, nmapReg: int, i: nat, j: nat)
    requires WellFormed(r) && Full(MapsOf(r, nmapReg)) && i < |r.codelets| && j < |r.codelets[i].links|
    ensures var links, s, d := AllLinks(r.codelets, |r.codelets|), MapsOf(r, nmapReg), r.codelets[i];
            var a, k := LM.Alias(d.name, d.links[j].map_), LinksBefore(r.codelets, i) + j;
            var b := LM.Alias(d.links[j].linkedCodelet, d.links[j].linkedMap);
            && k < |links| && a in s.maps && b in s.maps
            && (s.maps[a] == s.maps[b] <==> !LM.Apart(LM.Populate(links[..k]), (a, b)))
            && (s.maps[a].data == s.maps[b].data <==> !LM.Apart(LM.Populate(links[..k]), (a, b)))
  {
    LinkPosition(r.codelets, |r.codelets|, i, j);
    LoadedLinkShares(r, nmapReg, LinksBefore(r.codelets, i) + j);
  }

  // ---------- which linked maps are used ----------

  // The codelet has a relocation under that alias.
  predicate UsesIn(d: Descriptor, n: nat, a: LM.Alias)
    requires n <= |d.symbols|
  {
    a.codelet == d.name && exists j :: 0 <= j < n && d.symbols[j].name == a.map_
  }

  predicate Uses(ds: seq<Descriptor>, a: LM.Alias) {
    exists i :: 0 <= i < |ds| && UsesIn(ds[i], |ds[i].symbols|, a)
  }

  lemma RelocateMaps(s: LM.State, a: LM.Alias, def: LM.Def, create: bool, register: bool)
    requires LM.Succeeds(s, a, def, create, register)
    ensures LM.DoRelocate(s, a, def, create, register).maps.Keys == s.maps.Keys + {a}
  {}

  lemma UsesNext(d: Descriptor, k: nat, a: LM.Alias)
    requires 0 < k <= |d.symbols|
    ensures UsesIn(d, k, a) <==> UsesIn(d, k - 1, a) || a == LM.Alias(d.name, d.symbols[k - 1].name)
  {}

  lemma {:induction false} RelocatedMaps(s: LM.State, d: Descriptor, k: nat, base: int, a: LM.Alias)
    requires k <= |d.symbols| && Relocates(s, d, k, base)
    ensures a in Relocated(s, d, k, base).maps <==> a in s.maps || UsesIn(d, k, a)
  {
    if k > 0 {
      var t, sym := Relocated(s, d, k - 1, base), d.symbols[k - 1];
      RelocatedMaps(s, d, k - 1, base, a);
      RelocateMaps(t, LM.Alias(d.name, sym.name), sym.def, Creatable(t, sym, base), sym.register);
      UsesNext(d, k, a);
    }
  }

  lemma {:induction false} CreatedMaps(s: LM.State, ds: seq<Descriptor>, k: nat, base: int, a: LM.Alias)
    requires k <= |ds| && Creates(s, ds, k, base)
    ensures a in CreatedAll(s, ds, k, base).maps <==> a in s.maps || Uses(ds[..k], a)
  {
    if k > 0 {
      var d := ds[k - 1];
      CreatedMaps(s, ds, k - 1, base, a);
      RelocatedMaps(CreatedAll(s, ds, k - 1, base), d, |d.symbols|, base, a);
      UsesMore(ds, k, a);
    }
  }

  lemma UsesMore(ds: seq<Descriptor>, k: nat, a: LM.Alias)
    requires 0 < k <= |ds|
    ensures Uses(ds[..k], a) <==> Uses(ds[..k - 1], a) || UsesIn(ds[k - 1], |ds[k - 1].symbols|, a)
  {
    assert ds[..k][k - 1] == ds[k - 1];
    assert forall i :: 0 <= i < k - 1 ==> ds[..k][i] == ds[..k - 1][i];
  }

  lemma {:induction false} RelocatedSettled(s: LM.State, d: Descriptor, k: nat, base: int)
    requires k <= |d.symbols| && Relocates(s, d, k, base) && LM.Reachable(s) && LM.Settled(s)
    ensures LM.Settled(Relocated(s, d, k, base))
  {
    if k > 0 {
      var t, sym := Relocated(s, d, k - 1, base), d.symbols[k - 1];
      var a := LM.Alias(d.name, sym.name);
      RelocatedSettled(s, d, k - 1, base);
      RelocatedTable(s, d, k - 1, base);
      if a in t.table && t.table[a] in t.groups { LM.CountsAreExact(t, t.table[a]); }
      LM.RelocateSettled(t, a, sym.def, Creatable(t, sym, base), sym.register);
    }
  }

  lemma {:induction false} CreatedSettled(s: LM.State, ds: seq<Descriptor>, k: nat, base: int)
    requires k <= |ds| && Creates(s, ds, k, base) && LM.Reachable(s) && LM.Settled(s)
    ensures LM.Settled(CreatedAll(s, ds, k, base))
  {
    if k > 0 {
      CreatedSettled(s, ds, k - 1, base);
      CreatedTable(s, ds, k - 1, base);
      RelocatedSettled(CreatedAll(s, ds, k - 1, base), ds[k - 1], |ds[k - 1].symbols|, base);
    }
  }

  // What is known of the maps once all codelets are created.
  lemma MapsFacts(r: Request, nmapReg: int)
    requires WellFormed(r) && AllCreate(r, nmapReg)
    ensures LM.Reachable(MapsOf(r, nmapReg)) && LM.Settled(MapsOf(r, nmapReg))
            && MapsOf(r, nmapReg).table == StartOf(r).table
    ensures forall a :: a in MapsOf(r, nmapReg).maps <==> Uses(r.codelets, a)
  {
    var ds, s0 := r.codelets, StartOf(r);
    AllLinksDistinct(ds, |ds|);
    LM.PopulateReachable(AllLinks(ds, |ds|));
    LM.PopulateSettled(AllLinks(ds, |ds|));
    CreatedTable(s0, ds, |ds|, nmapReg);
    CreatedSettled(s0, ds, |ds|, nmapReg);
    assert ds[..|ds|] == ds;
    forall a ensures a in MapsOf(r, nmapReg).maps <==> Uses(ds, a) {
      CreatedMaps(s0, ds, |ds|, nmapReg, a);
    }
  }

  /** The check of the linked maps passes exactly when both ends of every link of every codelet are relocations of
      codelets of the request. */
  lemma FullIff(r: Request, nmapReg: int)
    requires WellFormed(r) && AllCreate(r, nmapReg)
    ensures Full(MapsOf(r, nmapReg)) <==> forall a :: Linked(r.codelets, a) ==> Uses(r.codelets, a)
  {
    MapsFacts(r, nmapReg);
    forall a ensures a in StartOf(r).table <==> Linked(r.codelets, a) { LinkedIff(r.codelets, a); }
  }

  // Every group of linked maps has an alias that is a relocation of its codelet.
  ghost predicate GroupsUsed(r: Request) {
    var t := StartOf(r).table;
    forall a :: a in t ==> exists b :: b in t && t[b] == t[a] && Uses(r.codelets, b)
  }

  // The same of the maps a load has made.
  ghost predicate AllUsed(s: LM.State) {
    forall a :: a in s.table ==> exists b :: b in s.table && s.table[b] == s.table[a] && b in s.maps
  }

  lemma AllUsedIff(r: Request, s: LM.State)
    requires s.table == StartOf(r).table && forall a :: a in s.maps <==> Uses(r.codelets, a)
    ensures AllUsed(s) <==> GroupsUsed(r)
  {}

  lemma UsedGroups(s: LM.State)
    requires LM.Reachable(s)
    ensures LM.InUse(s) <==> AllUsed(s)
  {
    forall a | a in s.table ensures s.table[a] in s.groups { LM.RecordsExist(s, a); }
    forall g | g in s.groups
      ensures s.groups[g].ref > 0 <==> exists b :: b in s.table && s.table[b] == g && b in s.maps
      ensures exists a :: a in s.table && s.table[a] == g
    {
      LM.UsedIff(s, g);
      var a := LM.AliasOf(s, g);
    }
  }

  /** The check never faults, in whatever order it goes over the table, exactly when every group of linked maps has an
      alias that its codelet uses. */
  lemma LoadNeverFaultsIff(r: Request, nmapReg: int)
    requires WellFormed(r) && AllCreate(r, nmapReg)
    ensures LM.NeverFaults(MapsOf(r, nmapReg)) <==> GroupsUsed(r)
  {
    MapsFacts(r, nmapReg);
    SettledFaults(r, MapsOf(r, nmapReg));
  }

  lemma SettledFaults(r: Request, s: LM.State)
    requires LM.Reachable(s) && LM.Settled(s) && s.table == StartOf(r).table
             && forall a :: a in s.maps <==> Uses(r.codelets, a)
    ensures LM.NeverFaults(s) <==> GroupsUsed(r)
  {
    LM.NeverFaultsIff(s);
    UsedGroups(s);
    AllUsedIff(r, s);
  }

  lemma {:induction false} NothingToCreate(s: LM.State, ds: seq<Descriptor>, k: nat, base: int)
    requires k <= |ds| && forall i :: 0 <= i < |ds| ==> ds[i].symbols == [] && ds[i].available && ds[i].compiles
    ensures Creates(s, ds, k, base) && CreatedAll(s, ds, k, base) == s
  {
    if k > 0 { NothingToCreate(s, ds, k - 1, base); }
  }

  lemma OneLink(a: Descriptor, b: Descriptor, l: Link)
    requires a.links == [l] && b.links == []
    ensures AllLinks([a, b], 2) == [LinkPair(a, l)]
  {
    assert LinksOf(a, 1) == LinksOf(a, 0) + [LinkPair(a, l)];
    assert AllLinks([a, b], 1) == AllLinks([a, b], 0) + LinksOf(a, 1);
    assert AllLinks([a, b], 2) == AllLinks([a, b], 1) + LinksOf(b, 0);
  }

  /** Two codelets that link maps neither of them uses: the request is valid, both codelets are created, and the
      check faults. */
  lemma UnusedLinkFaults(a: Descriptor, b: Descriptor, l: Link, name: Name, nmapReg: int)
    requires GoodDescriptor(a) && GoodDescriptor(b) && a.name != b.name && GoodString(name.text)
    requires a.links == [l] && l.linkedCodelet == b.name && b.links == [] && a.symbols == [] && b.symbols == []
    requires a.available && a.compiles && b.available && b.compiles
    ensures var r := Request(name, [a, b], true);
            && WellFormed(r) && AllCreate(r, nmapReg)
            && LM.Checked(MapsOf(r, nmapReg), [LM.Alias(a.name, l.map_)]) == LM.Fault
  {
    var x, y := LinkPair(a, l).0, LinkPair(a, l).1;
    OneLink(a, b, l);
    LM.FreshLinkFaults(x, y);
    NothingToCreate(LM.Populate([(x, y)]), [a, b], 2, nmapReg);
  }

  // The registry, the hooks and the two counters.
  datatype Snapshot = Snapshot(registry: Registry, hooks: Hooks, total: int, nmapReg: int)

  // A load has registered the set, hooked its codelets and counted its codelets and maps.
  ghost predicate Succeeded(r: Request, ctrl: set<LM.Name>, b: Snapshot, a: Snapshot, o: Orders) {
    var cs, s := First(r.codelets, |r.codelets|), MapsOf(r, b.nmapReg);
    && a.registry == b.registry[r.name := CodeletSet(cs, s)]
    && SetOf(o.hooked) == cs.Keys && Puts(b.hooks, ctrl, cs, o.hooked) && a.hooks == PutAll(b.hooks, cs, o.hooked)
    && a.total == b.total + |r.codelets| && a.nmapReg == b.nmapReg + |s.data|
  }

  // A load has failed: the registry is as it was, the codelets that were hooked have been gone over again, and what
  // was not counted out stays counted.
  ghost predicate Failed(r: Request, ctrl: set<LM.Name>, b: Snapshot, a: Snapshot, o: Orders) {
    && CountOf(r, b.nmapReg) <= |r.codelets|
    && var cs := First(r.codelets, CountOf(r, b.nmapReg));
    && a.registry == b.registry
    && Puts(b.hooks, ctrl, cs, o.hooked) && NoDup(o.unhooked) && SetOf(o.unhooked) == SetOf(o.hooked)
    && a.hooks == TakenOff(PutAll(b.hooks, cs, o.hooked), cs, o.unhooked)
    && a.nmapReg == b.nmapReg + LeaksOf(r, b.nmapReg)
    && a.total == b.total + CountOf(r, b.nmapReg) - |o.unhooked|
    && |o.unhooked| <= CountOf(r, b.nmapReg) && (|o.unhooked| == CountOf(r, b.nmapReg) <==> CountOf(r, b.nmapReg) == 0)
  }

  /** What a failed load leaves as it was: the hooks exactly when each hooked codelet comes off in its turn, nmap_reg
      exactly when the codelet that could not be created leaked no map, and total_num_codelets exactly when the first
      codelet already could not be created. */
  lemma FailureMeans(r: Request, ctrl: set<LM.Name>, b: Snapshot, a: Snapshot, o: Orders)
    requires r.codelets != [] && Failed(r, ctrl, b, a, o)
    ensures CountOf(r, b.nmapReg) <= |r.codelets| && (a.hooks == b.hooks <==> Freed(r, b.hooks, b.nmapReg, o.unhooked))
    ensures a.nmapReg == b.nmapReg <==> NoLeak(r, b.nmapReg)
    ensures a.total == b.total <==> !CanCreate(StartOf(r), r.codelets[0], b.nmapReg)
  {
    RestoredIff(b.hooks, ctrl, First(r.codelets, CountOf(r, b.nmapReg)), o.hooked, o.unhooked);
    NoLeakIff(r, b.nmapReg);
    NoneCreatedIff(r, b.nmapReg);
  }
}
