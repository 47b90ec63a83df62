/**
 Which requests can be created, and which load.

 The maps a codelet asks for are taken codelet by codelet, in the order of the request. Whether each can be had is said
 here over the request alone: which map is asked for first in its group, and how many have been made before.
 */
module Creation {
  import opened Codeletsets
  import opened Collections
  import opened HookList
  import opened HookTable
  import opened Linking
  import opened Requests
  import LM = LinkedMaps

  type Table = map<LM.Alias, nat>

  // Symbol j of codelet i, or the end of the symbols of the codelets before i.
  predicate IsSymbol(ds: seq<Descriptor>, i: nat, j: nat) {
    i < |ds| && j < |ds[i].symbols|
  }

  predicate Upto(ds: seq<Descriptor>, i: nat, j: nat) {
    if i < |ds| then j <= |ds[i].symbols| else i == |ds| && j == 0
  }

  predicate Before(x: nat, y: nat, i: nat, j: nat) {
    x < i || (x == i && y < j)
  }

  function AliasAt(ds: seq<Descriptor>, i: nat, j: nat): LM.Alias
    requires IsSymbol(ds, i, j)
  {
    LM.Alias(ds[i].name, ds[i].symbols[j].name)
  }

  predicate SameGroup(table: Table, a: LM.Alias, b: LM.Alias) {
    a in table && b in table && table[a] == table[b]
  }

  // The codelet has asked for that map before.
  predicate Repeats(ds: seq<Descriptor>, i: nat, j: nat)
    requires IsSymbol(ds, i, j)
  {
    exists y :: 0 <= y < j && ds[i].symbols[y].name == ds[i].symbols[j].name
  }

  // Symbol x, y comes before i, j and is linked with it.
  predicate EarlierUse(ds: seq<Descriptor>, table: Table, x: nat, y: nat, i: nat, j: nat)
    requires IsSymbol(ds, i, j)
  {
    IsSymbol(ds, x, y) && Before(x, y, i, j) && SameGroup(table, AliasAt(ds, x, y), AliasAt(ds, i, j))
  }

  // No map linked with it was asked for before.
  ghost predicate FirstUse(ds: seq<Descriptor>, table: Table, i: nat, j: nat)
    requires IsSymbol(ds, i, j)
  {
    forall x: nat, y: nat :: !EarlierUse(ds, table, x, y, i, j)
  }

  // A map has to be made for it.
  ghost predicate NeedsNew(ds: seq<Descriptor>, table: Table, i: nat, j: nat)
    requires IsSymbol(ds, i, j)
  {
    !Repeats(ds, i, j) && FirstUse(ds, table, i, j)
  }

  // How many maps have to be made before it.
  ghost function NewBefore(ds: seq<Descriptor>, table: Table, i: nat, j: nat): nat
    requires Upto(ds, i, j)
    decreases i, j
  {
    if j > 0 then NewBefore(ds, table, i, j - 1) + (if NeedsNew(ds, table, i, j - 1) then 1 else 0)
    else if i > 0 then NewBefore(ds, table, i - 1, |ds[i - 1].symbols|)
    else 0
  }

  // The first use of its group gave the same definition.
  ghost predicate AgreesWithFirst(ds: seq<Descriptor>, table: Table, i: nat, j: nat)
    requires IsSymbol(ds, i, j)
  {
    exists x: nat, y: nat :: EarlierUse(ds, table, x, y, i, j) && FirstUse(ds, table, x, y)
                   && ds[x].symbols[y].def == ds[i].symbols[j].def
  }

  /** The symbol can be had: its codelet has it already; or it can be registered, is no IO map if it is linked, and
      can be created when it is the first of its group or unlinked, or has the definition of the first otherwise. */
  ghost predicate CanHave(ds: seq<Descriptor>, table: Table, base: int, i: nat, j: nat)
    requires IsSymbol(ds, i, j)
  {
    var sym := ds[i].symbols[j];
    || Repeats(ds, i, j)
    || (&& sym.register && (AliasAt(ds, i, j) in table ==> !sym.def.io)
        && if FirstUse(ds, table, i, j) then sym.create && base + NewBefore(ds, table, i, j) < MAX_MAPS
           else AgreesWithFirst(ds, table, i, j))
  }

  ghost predicate CanHaveFirst(ds: seq<Descriptor>, table: Table, base: int, i: nat, k: nat)
    requires i < |ds| && k <= |ds[i].symbols|
  {
    forall j :: 0 <= j < k ==> CanHave(ds, table, base, i, j)
  }

  ghost predicate CodeletOk(ds: seq<Descriptor>, table: Table, base: int, i: nat)
    requires i < |ds|
  {
    ds[i].available && ds[i].compiles && CanHaveFirst(ds, table, base, i, |ds[i].symbols|)
  }

  ghost predicate CanHaveAll(ds: seq<Descriptor>, table: Table, base: int) {
    forall i :: 0 <= i < |ds| ==> CodeletOk(ds, table, base, i)
  }

  // ---------- the maps part of the way through ----------

  // An alias has its map when a symbol before asked for it.
  ghost predicate Asked(ds: seq<Descriptor>, i: nat, j: nat, a: LM.Alias) {
    exists x: nat, y: nat :: IsSymbol(ds, x, y) && Before(x, y, i, j) && AliasAt(ds, x, y) == a
  }

  // The maps of a group have the definition its first use gave.
  ghost predicate Defined(ds: seq<Descriptor>, s: LM.State, i: nat, j: nat) {
    forall x: nat, y: nat, b :: IsSymbol(ds, x, y) && Before(x, y, i, j) && FirstUse(ds, s.table, x, y)
                                && SameGroup(s.table, b, AliasAt(ds, x, y)) && b in s.maps ==>
      s.maps[b].def == ds[x].symbols[y].def
  }

  ghost predicate Midway(ds: seq<Descriptor>, table: Table, s: LM.State, i: nat, j: nat, base: int) {
    && Upto(ds, i, j) && LM.Reachable(s) && s.table == table
    && (forall a :: a in s.maps <==> Asked(ds, i, j, a))
    && Defined(ds, s, i, j)
    && s.nmap == NewBefore(ds, table, i, j) && base + s.nmap <= MAX_MAPS
  }

  // The first use of a group that has been used.
  lemma {:induction false} SomeFirst(ds: seq<Descriptor>, table: Table, x: nat, y: nat, i: nat, j: nat)
      returns (u: nat, v: nat)
    requires IsSymbol(ds, i, j) && EarlierUse(ds, table, x, y, i, j)
    ensures EarlierUse(ds, table, u, v, i, j) && FirstUse(ds, table, u, v)
    decreases x, y
  {
    if FirstUse(ds, table, x, y) {
      u, v := x, y;
    } else {
      var p: nat, q: nat :| EarlierUse(ds, table, p, q, x, y);
      u, v := SomeFirst(ds, table, p, q, i, j);
    }
  }

  lemma RepeatsIff(ds: seq<Descriptor>, i: nat, j: nat)
    requires IsSymbol(ds, i, j) && UniqueNames(ds)
    ensures Repeats(ds, i, j) <==> Asked(ds, i, j, AliasAt(ds, i, j))
  {
    if Repeats(ds, i, j) {
      var y :| 0 <= y < j && ds[i].symbols[y].name == ds[i].symbols[j].name;
      assert IsSymbol(ds, i, y) && Before(i, y, i, j) && AliasAt(ds, i, y) == AliasAt(ds, i, j);
    }
    if Asked(ds, i, j, AliasAt(ds, i, j)) {
      var x: nat, y: nat :| IsSymbol(ds, x, y) && Before(x, y, i, j) && AliasAt(ds, x, y) == AliasAt(ds, i, j);
      assert x == i;
    }
  }

  lemma InUseIff(ds: seq<Descriptor>, table: Table, s: LM.State, i: nat, j: nat, base: int)
    requires Midway(ds, table, s, i, j, base) && IsSymbol(ds, i, j)
    ensures LM.GroupHasMap(s, AliasAt(ds, i, j)) <==> !FirstUse(ds, table, i, j)
  {
    var a := AliasAt(ds, i, j);
    if LM.GroupHasMap(s, a) {
      var b :| LM.HasForGroup(s, a, b);
      assert Asked(ds, i, j, b);
      var x: nat, y: nat :| IsSymbol(ds, x, y) && Before(x, y, i, j) && AliasAt(ds, x, y) == b;
      assert EarlierUse(ds, table, x, y, i, j);
    }
    if !FirstUse(ds, table, i, j) {
      var x: nat, y: nat :| EarlierUse(ds, table, x, y, i, j);
      assert Asked(ds, i, j, AliasAt(ds, x, y));
      assert LM.HasForGroup(s, a, AliasAt(ds, x, y));
    }
  }

  // Those who have the map of the group gave that definition exactly when its first use did.
  lemma AgreesIff(ds: seq<Descriptor>, table: Table, s: LM.State, i: nat, j: nat, base: int)
    requires Midway(ds, table, s, i, j, base) && IsSymbol(ds, i, j)
    ensures AgreesWithFirst(ds, table, i, j) <==>
            exists b :: LM.HasForGroup(s, AliasAt(ds, i, j), b) && s.maps[b].def == ds[i].symbols[j].def
  {
    var a, def := AliasAt(ds, i, j), ds[i].symbols[j].def;
    if AgreesWithFirst(ds, table, i, j) {
      var x: nat, y: nat :| EarlierUse(ds, table, x, y, i, j) && FirstUse(ds, table, x, y)
                            && ds[x].symbols[y].def == def;
      assert Asked(ds, i, j, AliasAt(ds, x, y));
      assert LM.HasForGroup(s, a, AliasAt(ds, x, y)) && s.maps[AliasAt(ds, x, y)].def == def;
    }
    if b :| LM.HasForGroup(s, a, b) && s.maps[b].def == def {
      assert Asked(ds, i, j, b);
      var x: nat, y: nat :| IsSymbol(ds, x, y) && Before(x, y, i, j) && AliasAt(ds, x, y) == b;
      var u, v := SomeFirst(ds, table, x, y, i, j);
      assert SameGroup(table, b, AliasAt(ds, u, v));
    }
  }

  // The next relocation succeeds exactly when the symbol can be had.
  lemma NextSucceedsIff(ds: seq<Descriptor>, table: Table, s: LM.State, i: nat, j: nat, base: int)
    requires Midway(ds, table, s, i, j, base) && IsSymbol(ds, i, j) && UniqueNames(ds)
    ensures var sym := ds[i].symbols[j];
            LM.Succeeds(s, AliasAt(ds, i, j), sym.def, Creatable(s, sym, base), sym.register) <==>
              CanHave(ds, table, base, i, j)
  {
    var a, sym := AliasAt(ds, i, j), ds[i].symbols[j];
    LM.RelocationSucceedsIff(s, a, sym.def, Creatable(s, sym, base), sym.register);
    RepeatsIff(ds, i, j);
    InUseIff(ds, table, s, i, j, base);
    AgreesIff(ds, table, s, i, j, base);
  }

  // The maps after the next symbol, if it can be had.
  function Next(s: LM.State, ds: seq<Descriptor>, i: nat, j: nat, base: int): LM.State
    requires IsSymbol(ds, i, j)
  {
    var sym := ds[i].symbols[j];
    LM.DoRelocate(s, AliasAt(ds, i, j), sym.def, Creatable(s, sym, base), sym.register)
  }

  lemma AskedNext(ds: seq<Descriptor>, i: nat, j: nat, a: LM.Alias)
    requires IsSymbol(ds, i, j)
    ensures Asked(ds, i, j + 1, a) <==> Asked(ds, i, j, a) || a == AliasAt(ds, i, j)
  {
    if Asked(ds, i, j, a) {
      var x: nat, y: nat :| IsSymbol(ds, x, y) && Before(x, y, i, j) && AliasAt(ds, x, y) == a;
      assert Before(x, y, i, j + 1);
    }
    assert Before(i, j, i, j + 1);
  }

  // The maps after the next symbol.
  lemma NextMap(ds: seq<Descriptor>, table: Table, s: LM.State, i: nat, j: nat, base: int, b: LM.Alias)
    requires Midway(ds, table, s, i, j, base) && IsSymbol(ds, i, j) && UniqueNames(ds) && CanHave(ds, table, base, i, j)
    requires b in Next(s, ds, i, j, base).maps
    ensures b in s.maps ==> Next(s, ds, i, j, base).maps[b] == s.maps[b]
    ensures b !in s.maps ==> b == AliasAt(ds, i, j) && !Repeats(ds, i, j)
                             && Next(s, ds, i, j, base).maps[b].def == ds[i].symbols[j].def
  {
    var a, sym := AliasAt(ds, i, j), ds[i].symbols[j];
    NextSucceedsIff(ds, table, s, i, j, base);
    LM.RelocationLeaves(s, a, sym.def, Creatable(s, sym, base), sym.register);
    RepeatsIff(ds, i, j);
  }

  // No map of the group of a first use is there yet.
  lemma FirstHasNone(ds: seq<Descriptor>, table: Table, s: LM.State, i: nat, j: nat, base: int, b: LM.Alias)
    requires Midway(ds, table, s, i, j, base) && IsSymbol(ds, i, j) && FirstUse(ds, table, i, j)
    requires SameGroup(table, b, AliasAt(ds, i, j))
    ensures b !in s.maps
  {
    if b in s.maps {
      assert Asked(ds, i, j, b);
      var p: nat, q: nat :| IsSymbol(ds, p, q) && Before(p, q, i, j) && AliasAt(ds, p, q) == b;
      assert EarlierUse(ds, table, p, q, i, j);
    }
  }

  // The definition of a map of the group of symbol x, y after symbol i, j.
  lemma DefinedNext(ds: seq<Descriptor>, table: Table, s: LM.State, i: nat, j: nat, base: int,
      x: nat, y: nat, b: LM.Alias, m: LM.Inst)
    requires Midway(ds, table, s, i, j, base) && IsSymbol(ds, i, j) && CanHave(ds, table, base, i, j)
    requires if b in s.maps then m == s.maps[b]
             else b == AliasAt(ds, i, j) && !Repeats(ds, i, j) && m.def == ds[i].symbols[j].def
    requires IsSymbol(ds, x, y) && Before(x, y, i, j + 1) && FirstUse(ds, table, x, y)
             && SameGroup(table, b, AliasAt(ds, x, y))
    ensures m.def == ds[x].symbols[y].def
  {
    if Before(x, y, i, j) {
      if b !in s.maps {
        assert EarlierUse(ds, table, x, y, i, j);
        SameFirst(ds, table, s, i, j, base, x, y);
      }
    } else {
      FirstHasNone(ds, table, s, i, j, base, b);
    }
  }

  // A symbol that agrees with the first of its group agrees with any first of its group.
  lemma SameFirst(ds: seq<Descriptor>, table: Table, s: LM.State, i: nat, j: nat, base: int, x: nat, y: nat)
    requires Midway(ds, table, s, i, j, base) && IsSymbol(ds, i, j) && CanHave(ds, table, base, i, j)
             && !Repeats(ds, i, j)
    requires EarlierUse(ds, table, x, y, i, j) && FirstUse(ds, table, x, y)
    ensures ds[x].symbols[y].def == ds[i].symbols[j].def
  {
    assert AgreesWithFirst(ds, table, i, j);
    var u: nat, v: nat :| EarlierUse(ds, table, u, v, i, j) && FirstUse(ds, table, u, v)
                          && ds[u].symbols[v].def == ds[i].symbols[j].def;
    if Before(u, v, x, y) { assert EarlierUse(ds, table, u, v, x, y); }
    if Before(x, y, u, v) { assert EarlierUse(ds, table, x, y, u, v); }
  }

  lemma DefinedAfter(ds: seq<Descriptor>, table: Table, s: LM.State, i: nat, j: nat, base: int)
    requires Midway(ds, table, s, i, j, base) && IsSymbol(ds, i, j) && UniqueNames(ds)
    requires CanHave(ds, table, base, i, j) && Next(s, ds, i, j, base).table == table
    ensures Defined(ds, Next(s, ds, i, j, base), i, j + 1)
  {
    var s' := Next(s, ds, i, j, base);
    forall x: nat, y: nat, b | IsSymbol(ds, x, y) && Before(x, y, i, j + 1) && FirstUse(ds, table, x, y)
                               && SameGroup(table, b, AliasAt(ds, x, y)) && b in s'.maps
      ensures s'.maps[b].def == ds[x].symbols[y].def
    {
      NextMap(ds, table, s, i, j, base, b);
      DefinedNext(ds, table, s, i, j, base, x, y, b, s'.maps[b]);
    }
  }

  // What the next symbol adds to the maps and to nmap_reg.
  lemma NextLeaves(ds: seq<Descriptor>, table: Table, s: LM.State, i: nat, j: nat, base: int)
    requires Midway(ds, table, s, i, j, base) && IsSymbol(ds, i, j) && UniqueNames(ds) && CanHave(ds, table, base, i, j)
    ensures var s' := Next(s, ds, i, j, base);
            && LM.Reachable(s') && s'.table == table && s'.maps.Keys == s.maps.Keys + {AliasAt(ds, i, j)}
            && s'.nmap == s.nmap + (if NeedsNew(ds, table, i, j) then 1 else 0) && base + s'.nmap <= MAX_MAPS
  {
    var a, sym := AliasAt(ds, i, j), ds[i].symbols[j];
    NextSucceedsIff(ds, table, s, i, j, base);
    LM.RelocationLeaves(s, a, sym.def, Creatable(s, sym, base), sym.register);
    LM.ReachableStep(s, LM.Relocate(a, sym.def, Creatable(s, sym, base), sym.register));
    RepeatsIff(ds, i, j);
    InUseIff(ds, table, s, i, j, base);
  }

  lemma AskedAfter(ds: seq<Descriptor>, s: LM.State, s': LM.State, i: nat, j: nat)
    requires IsSymbol(ds, i, j) && s'.maps.Keys == s.maps.Keys + {AliasAt(ds, i, j)}
    requires forall a :: a in s.maps <==> Asked(ds, i, j, a)
    ensures forall a :: a in s'.maps <==> Asked(ds, i, j + 1, a)
  {
    forall b ensures b in s'.maps <==> Asked(ds, i, j + 1, b) { AskedNext(ds, i, j, b); }
  }

  lemma MidwayNext(ds: seq<Descriptor>, table: Table, s: LM.State, i: nat, j: nat, base: int)
    requires Midway(ds, table, s, i, j, base) && IsSymbol(ds, i, j) && UniqueNames(ds) && CanHave(ds, table, base, i, j)
    ensures Midway(ds, table, Next(s, ds, i, j, base), i, j + 1, base)
  {
    NextLeaves(ds, table, s, i, j, base);
    DefinedAfter(ds, table, s, i, j, base);
    AskedAfter(ds, s, Next(s, ds, i, j, base), i, j);
  }

  lemma RelocatesNext(s: LM.State, ds: seq<Descriptor>, i: nat, j: nat, base: int)
    requires IsSymbol(ds, i, j)
    ensures var t, sym := Relocated(s, ds[i], j, base), ds[i].symbols[j];
            && Relocated(s, ds[i], j + 1, base) == Next(t, ds, i, j, base)
            && (Relocates(s, ds[i], j + 1, base) <==>
                && Relocates(s, ds[i], j, base)
                && LM.Succeeds(t, AliasAt(ds, i, j), sym.def, Creatable(t, sym, base), sym.register))
  {}

  lemma CanHaveNext(ds: seq<Descriptor>, table: Table, base: int, i: nat, j: nat)
    requires IsSymbol(ds, i, j)
    ensures CanHaveFirst(ds, table, base, i, j + 1) <==>
              CanHaveFirst(ds, table, base, i, j) && CanHave(ds, table, base, i, j)
  {}

  // The first k symbols of a codelet.
  lemma {:induction false} CodeletIff(ds: seq<Descriptor>, table: Table, s: LM.State, i: nat, k: nat, base: int)
    requires i < |ds| && k <= |ds[i].symbols| && UniqueNames(ds) && Midway(ds, table, s, i, 0, base)
    ensures Relocates(s, ds[i], k, base) <==> CanHaveFirst(ds, table, base, i, k)
    ensures Relocates(s, ds[i], k, base) ==> Midway(ds, table, Relocated(s, ds[i], k, base), i, k, base)
  {
    if k > 0 {
      CodeletIff(ds, table, s, i, k - 1, base);
      RelocatesNext(s, ds, i, k - 1, base);
      CanHaveNext(ds, table, base, i, k - 1);
      if Relocates(s, ds[i], k - 1, base) { RelocateIff(ds, table, Relocated(s, ds[i], k - 1, base), i, k - 1, base); }
    }
  }

  lemma RelocateIff(ds: seq<Descriptor>, table: Table, s: LM.State, i: nat, j: nat, base: int)
    requires Midway(ds, table, s, i, j, base) && IsSymbol(ds, i, j) && UniqueNames(ds)
    ensures var sym := ds[i].symbols[j];
            LM.Succeeds(s, AliasAt(ds, i, j), sym.def, Creatable(s, sym, base), sym.register) <==>
              CanHave(ds, table, base, i, j)
    ensures CanHave(ds, table, base, i, j) ==> Midway(ds, table, Next(s, ds, i, j, base), i, j + 1, base)
  {
    NextSucceedsIff(ds, table, s, i, j, base);
    if CanHave(ds, table, base, i, j) { MidwayNext(ds, table, s, i, j, base); }
  }

  lemma MidwayCodelet(ds: seq<Descriptor>, table: Table, s: LM.State, i: nat, base: int)
    requires i < |ds| && Midway(ds, table, s, i, |ds[i].symbols|, base)
    ensures Midway(ds, table, s, i + 1, 0, base)
  {
    var n := |ds[i].symbols|;
    forall x: nat, y: nat | IsSymbol(ds, x, y) ensures Before(x, y, i + 1, 0) <==> Before(x, y, i, n) {}
    forall a ensures Asked(ds, i + 1, 0, a) <==> Asked(ds, i, n, a) {
      if Asked(ds, i, n, a) {
        var x: nat, y: nat :| IsSymbol(ds, x, y) && Before(x, y, i, n) && AliasAt(ds, x, y) == a;
        assert Before(x, y, i + 1, 0);
      }
      if Asked(ds, i + 1, 0, a) {
        var x: nat, y: nat :| IsSymbol(ds, x, y) && Before(x, y, i + 1, 0) && AliasAt(ds, x, y) == a;
        assert Before(x, y, i, n);
      }
    }
  }

  lemma {:induction false} CreatesUpto(s0: LM.State, ds: seq<Descriptor>, k: nat, base: int)
    requires k <= |ds| && UniqueNames(ds) && Midway(ds, s0.table, s0, 0, 0, base)
    ensures Creates(s0, ds, k, base) <==> forall i :: 0 <= i < k ==> CodeletOk(ds, s0.table, base, i)
    ensures Creates(s0, ds, k, base) ==> Midway(ds, s0.table, CreatedAll(s0, ds, k, base), k, 0, base)
  {
    if k > 0 {
      CreatesUpto(s0, ds, k - 1, base);
      if Creates(s0, ds, k - 1, base) {
        var s, n := CreatedAll(s0, ds, k - 1, base), |ds[k - 1].symbols|;
        CodeletIff(ds, s0.table, s, k - 1, n, base);
        assert CodeletOk(ds, s0.table, base, k - 1) <==> CanCreate(s, ds[k - 1], base);
        if Relocates(s, ds[k - 1], n, base) {
          MidwayCodelet(ds, s0.table, Relocated(s, ds[k - 1], n, base), k - 1, base);
        }
      }
    }
  }

  lemma StartMidway(r: Request, nmapReg: int)
    requires WellFormed(r) && nmapReg <= MAX_MAPS
    ensures Midway(r.codelets, StartOf(r).table, StartOf(r), 0, 0, nmapReg)
  {
    var links := AllLinks(r.codelets, |r.codelets|);
    AllLinksDistinct(r.codelets, |r.codelets|);
    LM.PopulateReachable(links);
    LM.PopulateLeaks(links);
  }

  /** All codelets of a request can be created exactly when each is available and compiles and each map it asks for can
      be had; and then nmap_reg has grown by the maps that had to be made. */
  lemma AllCreateIff(r: Request, nmapReg: int)
    requires WellFormed(r) && nmapReg <= MAX_MAPS
    ensures AllCreate(r, nmapReg) <==> CanHaveAll(r.codelets, StartOf(r).table, nmapReg)
    ensures AllCreate(r, nmapReg) ==>
              MapsOf(r, nmapReg).nmap == NewBefore(r.codelets, StartOf(r).table, |r.codelets|, 0)
  {
    StartMidway(r, nmapReg);
    CreatesUpto(StartOf(r), r.codelets, |r.codelets|, nmapReg);
  }

  // ---------- which requests load ----------

  // The codelet can be put on its hook as it is before the load.
  predicate Fits(hooks: Hooks, ctrl: set<LM.Name>, d: Descriptor) {
    && d.hook in hooks && d.fn != 0 && d.hookMemory
    && (forall e :: e in hooks[d.hook] ==> e.fn != d.fn)
    && (d.hook in ctrl ==> hooks[d.hook] == [])
  }

  // Two codelets can be on their hooks together.
  predicate FitTogether(ctrl: set<LM.Name>, c: Descriptor, d: Descriptor) {
    c.hook == d.hook ==> c.fn != d.fn && d.hook !in ctrl
  }

  ghost predicate AllFit(hooks: Hooks, ctrl: set<LM.Name>, ds: seq<Descriptor>) {
    && (forall i :: 0 <= i < |ds| ==> Fits(hooks, ctrl, ds[i]))
    && (forall i, j :: 0 <= i < j < |ds| ==> FitTogether(ctrl, ds[i], ds[j]))
  }

  ghost predicate NamedFit(hooks: Hooks, ctrl: set<LM.Name>, cs: Codelets, names: set<LM.Name>) {
    && (forall n :: n in names && n in cs ==> Fits(hooks, ctrl, cs[n]))
    && (forall m, n :: m in names && n in names && m in cs && n in cs && m != n ==> FitTogether(ctrl, cs[m], cs[n]))
  }

  lemma PresentIff(list: seq<Entry>, fn: nat)
    ensures Present(list, fn) <==> exists e :: e in list && e.fn == fn
  {
    if e :| e in list && e.fn == fn {
      var i :| 0 <= i < |list| && list[i] == e;
    }
  }

  // Whether a codelet can be hooked after others.
  lemma HookableAfter(base: Hooks, ctrl: set<LM.Name>, cs: Codelets, names: seq<LM.Name>, n: LM.Name)
    requires Puts(base, ctrl, cs, names) && n in cs && n !in names
    ensures Hookable(PutAll(base, cs, names), ctrl, cs[n]) <==>
            && Fits(base, ctrl, cs[n])
            && (forall m :: m in SetOf(names) && m in cs ==> FitTogether(ctrl, cs[m], cs[n]))
  {
    var now, d := PutAll(base, cs, names), cs[n];
    PutsHooked(base, ctrl, cs, names);
    if d.hook in base {
      PresentIff(base[d.hook], d.fn);
      PresentAfterPuts(base, now, cs, SetOf(names), d.hook, d.fn);
      NoneLeft(base[d.hook]);
      NoneLeft(now[d.hook]);
      forall g: nat
        ensures Present(now[d.hook], g) <==> Present(base[d.hook], g) || (d.hook, g) in OnOf(cs, SetOf(names))
      {
        PresentAfterPuts(base, now, cs, SetOf(names), d.hook, g);
      }
      forall m | m in SetOf(names) && m in cs ensures (cs[m].hook, cs[m].fn) in OnOf(cs, SetOf(names)) {}
    }
  }

  lemma {:induction false} PutsFit(base: Hooks, ctrl: set<LM.Name>, cs: Codelets, names: seq<LM.Name>)
    requires Puts(base, ctrl, cs, names)
    ensures NamedFit(base, ctrl, cs, SetOf(names))
  {
    if names != [] {
      var before, n := names[..|names| - 1], names[|names| - 1];
      PutsLast(base, ctrl, cs, names);
      PutsFit(base, ctrl, cs, before);
      HookableAfter(base, ctrl, cs, before, n);
    }
  }

  lemma {:induction false} FirstAt(ds: seq<Descriptor>, n: nat, i: nat)
    requires i < n <= |ds| && UniqueNames(ds)
    ensures ds[i].name in First(ds, n) && First(ds, n)[ds[i].name] == ds[i]
  {
    if i + 1 < n { FirstAt(ds, n - 1, i); }
  }

  lemma {:induction false} FirstFrom(ds: seq<Descriptor>, n: nat, c: LM.Name) returns (i: nat)
    requires n <= |ds| && c in First(ds, n)
    ensures i < n && ds[i].name == c && First(ds, n)[c] == ds[i]
  {
    if ds[n - 1].name == c { i := n - 1; } else { i := FirstFrom(ds, n - 1, c); }
  }

  lemma AllFitIff(hooks: Hooks, ctrl: set<LM.Name>, ds: seq<Descriptor>)
    requires UniqueNames(ds)
    ensures var cs := First(ds, |ds|); AllFit(hooks, ctrl, ds) <==> NamedFit(hooks, ctrl, cs, cs.Keys)
  {
    var cs := First(ds, |ds|);
    if AllFit(hooks, ctrl, ds) {
      forall n | n in cs ensures Fits(hooks, ctrl, cs[n]) { var i := FirstFrom(ds, |ds|, n); }
      forall m, n | m in cs && n in cs && m != n ensures FitTogether(ctrl, cs[m], cs[n]) {
        var i := FirstFrom(ds, |ds|, m);
        var j := FirstFrom(ds, |ds|, n);
        assert i < j || j < i;
      }
    }
    if NamedFit(hooks, ctrl, cs, cs.Keys) {
      forall i | 0 <= i < |ds| ensures Fits(hooks, ctrl, ds[i]) { FirstAt(ds, |ds|, i); }
      forall i, j | 0 <= i < j < |ds| ensures FitTogether(ctrl, ds[i], ds[j]) {
        FirstAt(ds, |ds|, i);
        FirstAt(ds, |ds|, j);
      }
    }
  }

  /** Going over the codelets in any order, all of them are hooked exactly when they all fit. */
  lemma AllHookedIff(hooks: Hooks, ctrl: set<LM.Name>, ds: seq<Descriptor>, names: seq<LM.Name>)
    requires UniqueNames(ds)
    requires var cs := First(ds, |ds|);
             && Puts(hooks, ctrl, cs, names) && SetOf(names) <= cs.Keys
             && (SetOf(names) == cs.Keys || Stuck(PutAll(hooks, cs, names), ctrl, cs, names))
    ensures SetOf(names) == First(ds, |ds|).Keys <==> AllFit(hooks, ctrl, ds)
  {
    var cs := First(ds, |ds|);
    AllFitIff(hooks, ctrl, ds);
    if SetOf(names) == cs.Keys {
      PutsFit(hooks, ctrl, cs, names);
    } else {
      var n :| n in cs && n !in names && !Hookable(PutAll(hooks, cs, names), ctrl, cs[n]);
      HookableAfter(hooks, ctrl, cs, names, n);
    }
  }

  // Every codelet can be created, both ends of every link are maps that codelets of the request ask for, and all
  // codelets fit on their hooks.
  ghost predicate WillLoad(r: Request, hooks: Hooks, ctrl: set<LM.Name>, nmapReg: int) {
    && CanHaveAll(r.codelets, StartOf(r).table, nmapReg)
    && (forall a :: Linked(r.codelets, a) ==> Uses(r.codelets, a))
    && AllFit(hooks, ctrl, r.codelets)
  }

  /** How an admitted load ends, in whatever orders it goes over its hash tables: it succeeds exactly when every codelet
      can be created, every linked map is asked for and all codelets fit, and creation fails exactly when some codelet
      cannot be created. */
  lemma LoadsIff(r: Request, hooks: Hooks, ctrl: set<LM.Name>, nmapReg: int, o: Orders)
    requires WellFormed(r) && nmapReg <= MAX_MAPS && Tried(r, hooks, ctrl, nmapReg, o)
    ensures Outcome(r, nmapReg, o) == SUCCESS <==> WillLoad(r, hooks, ctrl, nmapReg)
    ensures Outcome(r, nmapReg, o) == CREATION_FAIL <==> !CanHaveAll(r.codelets, StartOf(r).table, nmapReg)
  {
    var ds, s := r.codelets, MapsOf(r, nmapReg);
    AllCreateIff(r, nmapReg);
    if AllCreate(r, nmapReg) {
      FullIff(r, nmapReg);
      MapsFacts(r, nmapReg);
      if LM.Checked(s, o.checked) == LM.Passed {
        LM.CheckPassesIff(s, o.checked);
        AllHookedIff(hooks, ctrl, ds, o.hooked);
      } else {
        LM.CheckIsComplete(s);
        if Full(s) { LM.LinkedPasses(s, o.checked); }
      }
    }
  }

  // ---------- codelets that share one map ----------

  // Each codelet asks for one map, of one name and definition, and all but the first link it with the first's.
  ghost predicate Sharers(ds: seq<Descriptor>, m: Name, def: LM.Def) {
    forall i :: 0 <= i < |ds| ==> Sharer(ds, m, def, i)
  }

  predicate Sharer(ds: seq<Descriptor>, m: Name, def: LM.Def, i: nat)
    requires i < |ds|
  {
    && ds[i].available && ds[i].compiles && ds[i].symbols == [Symbol(m, def, true, true)]
    && ds[i].links == if i == 0 then [] else [Link(m, ds[0].name, m)]
  }

  lemma {:induction false} SharersLinks(ds: seq<Descriptor>, m: Name, def: LM.Def, i: nat)
    requires Sharers(ds, m, def) && 0 < i <= |ds|
    ensures LinksBefore(ds, i) == i - 1
  {
    assert Sharer(ds, m, def, i - 1);
    if i > 1 { SharersLinks(ds, m, def, i - 1); }
  }

  lemma SharersLink(ds: seq<Descriptor>, m: Name, def: LM.Def, k: nat)
    requires Sharers(ds, m, def) && ds != [] && k < |ds| - 1
    ensures |AllLinks(ds, |ds|)| == |ds| - 1
    ensures AllLinks(ds, |ds|)[k] == (LM.Alias(ds[k + 1].name, m), LM.Alias(ds[0].name, m))
  {
    assert Sharer(ds, m, def, k + 1);
    SharersLinks(ds, m, def, k + 1);
    SharersLinks(ds, m, def, |ds|);
    LinkPosition(ds, |ds|, k + 1, 0);
  }

  lemma SharersTogether(r: Request, m: Name, def: LM.Def, i: nat)
    requires WellFormed(r) && Sharers(r.codelets, m, def) && 0 < i < |r.codelets|
    ensures SameGroup(StartOf(r).table, LM.Alias(r.codelets[0].name, m), LM.Alias(r.codelets[i].name, m))
  {
    var ds, links := r.codelets, AllLinks(r.codelets, |r.codelets|);
    AllLinksDistinct(ds, |ds|);
    forall k | 0 <= k < |links| ensures InTime(links, k) {
      SharersCount(ds, m, def);
      SharersLink(ds, m, def, k);
      if LM.Used(links[..k], links[k].0) {
        var x :| 0 <= x < k && (links[..k][x].0 == links[k].0 || links[..k][x].1 == links[k].0);
        SharersLink(ds, m, def, x);
      }
    }
    AllTogether(links);
    SharersLink(ds, m, def, i - 1);
    assert LM.Together(LM.Populate(links), links[i - 1]);
  }

  lemma SharersCount(ds: seq<Descriptor>, m: Name, def: LM.Def)
    requires Sharers(ds, m, def) && ds != []
    ensures |AllLinks(ds, |ds|)| == |ds| - 1
  {
    SharersLinks(ds, m, def, |ds|);
    LinkCount(ds, |ds|);
  }

  lemma SharersFirst(r: Request, m: Name, def: LM.Def, i: nat)
    requires WellFormed(r) && Sharers(r.codelets, m, def) && i < |r.codelets|
    ensures IsSymbol(r.codelets, i, 0) && !Repeats(r.codelets, i, 0)
    ensures FirstUse(r.codelets, StartOf(r).table, i, 0) <==> i == 0
    ensures i > 0 ==> AgreesWithFirst(r.codelets, StartOf(r).table, i, 0)
  {
    var ds, table := r.codelets, StartOf(r).table;
    assert Sharer(ds, m, def, 0) && Sharer(ds, m, def, i);
    assert FirstUse(ds, table, 0, 0);
    if i > 0 {
      SharersTogether(r, m, def, i);
      assert EarlierUse(ds, table, 0, 0, i, 0);
    }
  }

  lemma {:induction false} SharersMake(r: Request, m: Name, def: LM.Def, i: nat)
    requires WellFormed(r) && Sharers(r.codelets, m, def) && i <= |r.codelets|
    ensures NewBefore(r.codelets, StartOf(r).table, i, 0) == if i == 0 then 0 else 1
  {
    if i > 0 {
      var ds, table := r.codelets, StartOf(r).table;
      SharersMake(r, m, def, i - 1);
      SharersFirst(r, m, def, i - 1);
      assert Sharer(ds, m, def, i - 1);
      assert NewBefore(ds, table, i - 1, 1) ==
               NewBefore(ds, table, i - 1, 0) + (if NeedsNew(ds, table, i - 1, 0) then 1 else 0);
    }
  }

  /** Any number of codelets that link one map of one definition, which can be created and registered, load if they
      fit on their hooks and there is room for one map; and one map is made. */
  lemma SharersLoad(r: Request, m: Name, def: LM.Def, hooks: Hooks, ctrl: set<LM.Name>, nmapReg: int, o: Orders)
    requires WellFormed(r) && Sharers(r.codelets, m, def) && !def.io && AllFit(hooks, ctrl, r.codelets)
    requires nmapReg < MAX_MAPS && Tried(r, hooks, ctrl, nmapReg, o)
    ensures Outcome(r, nmapReg, o) == SUCCESS && MapsOf(r, nmapReg).nmap == 1
  {
    var ds, table := r.codelets, StartOf(r).table;
    forall i | 0 <= i < |ds| ensures CodeletOk(ds, table, nmapReg, i) {
      assert Sharer(ds, m, def, i);
      SharersFirst(r, m, def, i);
      SharersMake(r, m, def, i);
      assert CanHave(ds, table, nmapReg, i, 0);
    }
    forall a | Linked(ds, a) ensures Uses(ds, a) { SharersUse(ds, m, def, a); }
    LoadsIff(r, hooks, ctrl, nmapReg, o);
    AllCreateIff(r, nmapReg);
    SharersMake(r, m, def, |ds|);
  }

  lemma SharersUse(ds: seq<Descriptor>, m: Name, def: LM.Def, a: LM.Alias)
    requires Sharers(ds, m, def) && Linked(ds, a)
    ensures Uses(ds, a)
  {
    var i: nat, j: nat :| EndOf(ds, i, j, a);
    assert Sharer(ds, m, def, i) && Sharer(ds, m, def, 0);
    var x := if a.codelet == ds[i].name then i else 0;
    assert ds[x].symbols[0].name == a.map_;
    assert UsesIn(ds[x], |ds[x].symbols|, a);
  }

  // ---------- which maps a loaded set shares ----------

  ghost predicate LinkShares(r: Request, nmapReg: int, i: nat, j: nat)
    requires i < |r.codelets| && j < |r.codelets[i].links|
  {
    var s, d := MapsOf(r, nmapReg), r.codelets[i];
    var a, b := LM.Alias(d.name, d.links[j].map_), LM.Alias(d.links[j].linkedCodelet, d.links[j].linkedMap);
    a in s.maps && b in s.maps && s.maps[a] == s.maps[b]
  }

  lemma LinkSharesIff(r: Request, nmapReg: int, i: nat, j: nat)
    requires WellFormed(r) && Full(MapsOf(r, nmapReg)) && i < |r.codelets| && j < |r.codelets[i].links|
    ensures var links, k := AllLinks(r.codelets, |r.codelets|), LinksBefore(r.codelets, i) + j;
            k < |links| && (LinkShares(r, nmapReg, i, j) <==> LM.Together(LM.Populate(links), links[k]))
  {
    var ds, links := r.codelets, AllLinks(r.codelets, |r.codelets|);
    AllLinksDistinct(ds, |ds|);
    LinkPosition(ds, |ds|, i, j);
    LoadedLinksShare(r, nmapReg, i, j);
    LM.LinksJoinUnlessApart(links, LinksBefore(ds, i) + j);
  }

  /** In a loaded set the two maps of every link share their data exactly when no link comes too late. */
  lemma AllLinksShareIff(r: Request, nmapReg: int)
    requires WellFormed(r) && Full(MapsOf(r, nmapReg))
    ensures AllInTime(AllLinks(r.codelets, |r.codelets|)) <==>
            forall i, j :: 0 <= i < |r.codelets| && 0 <= j < |r.codelets[i].links| ==> LinkShares(r, nmapReg, i, j)
  {
    var ds, links := r.codelets, AllLinks(r.codelets, |r.codelets|);
    AllLinksDistinct(ds, |ds|);
    AllJoinIff(links);
    if AllInTime(links) {
      forall i, j | 0 <= i < |ds| && 0 <= j < |ds[i].links| ensures LinkShares(r, nmapReg, i, j) {
        LinkSharesIff(r, nmapReg, i, j);
      }
    } else {
      var k :| 0 <= k < |links| && !LM.Together(LM.Populate(links), links[k]);
      var i, j := LinkHasPosition(ds, |ds|, k);
      LinkSharesIff(r, nmapReg, i, j);
    }
  }

  /** And then any two maps of the set share their data exactly when a chain of links connects them. */
  lemma SharingIsConnection(r: Request, nmapReg: int, a: LM.Alias, b: LM.Alias)
    requires WellFormed(r) && AllInTime(AllLinks(r.codelets, |r.codelets|)) && a != b
    requires a in MapsOf(r, nmapReg).maps && b in MapsOf(r, nmapReg).maps
    ensures var s := MapsOf(r, nmapReg);
            s.maps[a].data == s.maps[b].data <==> Connected(AllLinks(r.codelets, |r.codelets|), a, b)
  {
    var ds, links := r.codelets, AllLinks(r.codelets, |r.codelets|);
    AllLinksDistinct(ds, |ds|);
    LM.PopulateReachable(links);
    CreatedTable(StartOf(r), ds, |ds|, nmapReg);
    LM.SharingIsLinking(MapsOf(r, nmapReg), a, b);
    LM.PairsOfLinks(links, a);
    LM.PairsOfLinks(links, b);
    if LM.Used(links, a) && LM.Used(links, b) {
      GroupsAreComponents(links, a, b);
    } else if Connected(links, a, b) {
      ConnectedUsed(links, a, b);
    }
  }
}
