/**
 The maps of one codeletset: linked-map groups, their reference counts and the data objects.

 A linked map is known under one alias for each codelet that uses it. The aliases of a group lead to
 one record with two counts: the aliases in the table, and those whose codelet has the map. The first
 codelet to need a group's map creates its data; the last to let go of it frees the data.
 */
module LinkedMaps {
  import opened Collections

  datatype Name = Name(text: string)

  // A codelet and the name it gives the map.
  datatype Alias = Alias(codelet: Name, map_: Name)

  datatype Def = Def(io: bool, kind: nat, keySize: nat, valueSize: nat, maxEntries: nat)

  // A map registered in a codelet: its data object and definition.
  datatype Inst = Inst(data: nat, def: Def)

  // jbpf_linked_map: made is where its map pointer leads, None for NULL.
  datatype Group = Group(ref: int, total: int, made: Option<Inst>)

  datatype State = State(
    table: map<Alias, nat>,      // linked_map_entries, leading to group records
    groups: map<nat, Group>,     // the records not yet freed
    maps: map<Alias, Inst>,      // what the codelets of the set have registered
    data: set<nat>,              // the data objects not yet freed
    nmap: int,                   // what this set adds to nmap_reg
    leaks: nat,                  // registrations of an unlinked map that failed
    next: nat)                   // a name no object has had

  datatype Step =
    | Link(a: Alias, b: Alias)
    | Relocate(a: Alias, def: Def, create: bool, register: bool)
    | Unmap(a: Alias)
    | DropAlias(a: Alias)

  function Empty(): State {
    State(map[], map[], map[], {}, 0, 0, 0)
  }

  predicate CanDo(s: State, step: Step) {
    match step
    case Link(a, b) => a != b && s.maps == map[]
    case Relocate(a, def, create, register) => true
    case Unmap(a) => a in s.maps
    case DropAlias(a) => a in s.table && a !in s.maps
  }

  // One pass of the loop of jbpf_populate_linked_map_entries.
  function DoLink(s: State, a: Alias, b: Alias): State {
    if a !in s.table && b !in s.table then
      s.(table := s.table[a := s.next][b := s.next], groups := s.groups[s.next := Group(0, 2, None)],
        next := s.next + 1)
    else if a in s.table && b in s.table then s
    else if a in s.table then Joined(s, b, s.table[a])
    else Joined(s, a, s.table[b])
  }

  function Joined(s: State, a: Alias, g: nat): State {
    if g !in s.groups then s
    else s.(table := s.table[a := g], groups := s.groups[g := s.groups[g].(total := s.groups[g].total + 1)])
  }

  // The map a codelet gets for an alias with a new data object.
  function Created(s: State, a: Alias, def: Def): State {
    s.(maps := s.maps[a := Inst(s.next, def)], data := s.data + {s.next}, nmap := s.nmap + 1, next := s.next + 1)
  }

  // Can the relocation of a linked map succeed?
  predicate Accepts(g: Group, def: Def, create: bool, register: bool) {
    !def.io && register && if g.ref == 0 then create else g.made.Some? && g.made.value.def == def
  }

  predicate Succeeds(s: State, a: Alias, def: Def, create: bool, register: bool) {
    a in s.maps ||
    if a in s.table then s.table[a] in s.groups && Accepts(s.groups[s.table[a]], def, create, register)
    else create && register
  }

  /** jbpf_do_map_relocation. Creating a map counts it in nmap_reg; when an unlinked map then cannot be
      registered it is destroyed without being counted out. */
  function DoRelocate(s: State, a: Alias, def: Def, create: bool, register: bool): State {
    if a in s.maps then s
    else if a !in s.table then
      if create && register then Created(s, a, def)
      else if create then s.(nmap := s.nmap + 1, leaks := s.leaks + 1, next := s.next + 1)
      else s
    else if s.table[a] !in s.groups then s
    else if Succeeds(s, a, def, create, register) then Referenced(s, a, s.table[a], def)
    else if create && !def.io && s.groups[s.table[a]].ref == 0 then Dangling(s, s.table[a], def)
    else s
  }

  // A linked map that was created and could not be registered: the record still points to it.
  function Dangling(s: State, id: nat, def: Def): State
    requires id in s.groups
  {
    s.(groups := s.groups[id := s.groups[id].(made := Some(Inst(s.next, def)))], next := s.next + 1)
  }

  function Referenced(s: State, a: Alias, id: nat, def: Def): State
    requires id in s.groups
  {
    var g := s.groups[id];
    if g.ref == 0 then Created(s, a, def).(groups := s.groups[id := g.(ref := 1, made := Some(Inst(s.next, def)))])
    else if g.made.None? then s
    else s.(maps := s.maps[a := Inst(g.made.value.data, def)], groups := s.groups[id := g.(ref := g.ref + 1)])
  }

  // jbpf_release_map
  function Released(s: State, d: nat): State {
    s.(data := s.data - {d}, nmap := s.nmap - 1)
  }

  // One pass of the loop of jbpf_destroy_codelet_maps.
  function DoUnmap(s: State, a: Alias): State
    requires a in s.maps
  {
    var d, s1 := s.maps[a].data, s.(maps := s.maps - {a});
    if a !in s.table || s.table[a] !in s.groups then Released(s1, d)
    else
      var id := s.table[a];
      var g := s.groups[id].(ref := s.groups[id].ref - 1, total := s.groups[id].total - 1);
      var s2 := s1.(table := s.table - {a},
                    groups := if g.ref == 0 && g.total == 0 then s.groups - {id} else s.groups[id := g]);
      if g.ref == 0 then Released(s2, d) else s2
  }

  // One pass of the loop that removes the aliases left over after a failed load.
  function DoDrop(s: State, a: Alias): State
    requires a in s.table
  {
    var id := s.table[a];
    if id !in s.groups then s
    else
      var g := s.groups[id].(total := s.groups[id].total - 1);
      s.(table := s.table - {a}, groups := if g.total == 0 then s.groups - {id} else s.groups[id := g])
  }

  function Do(s: State, step: Step): State
    requires CanDo(s, step)
  {
    match step
    case Link(a, b) => DoLink(s, a, b)
    case Relocate(a, def, create, register) => DoRelocate(s, a, def, create, register)
    case Unmap(a) => DoUnmap(s, a)
    case DropAlias(a) => DoDrop(s, a)
  }

  predicate LegalRun(s: State, run: seq<Step>)
    decreases |run|
  {
    run == [] || (CanDo(s, run[0]) && LegalRun(Do(s, run[0]), run[1..]))
  }

  function After(s: State, run: seq<Step>): State
    requires LegalRun(s, run)
    decreases |run|
  {
    if run == [] then s else After(Do(s, run[0]), run[1..])
  }

  // ---------- the invariant ----------

  function Members(s: State, g: nat): set<Alias> {
    set a | a in s.table && s.table[a] == g
  }

  function Users(s: State, g: nat): set<Alias> {
    set a | a in s.table && s.table[a] == g && a in s.maps
  }

  // total counts the aliases of the group, ref those whose codelet has the map.
  ghost predicate CountOk(s: State, g: nat)
    requires g in s.groups
  {
    s.groups[g].total == |Members(s, g)| > 0 && s.groups[g].ref == |Users(s, g)|
  }

  // A record without aliases has been freed, and no alias leads to a freed record.
  ghost predicate Counted(s: State) {
    (forall a :: a in s.table ==> s.table[a] in s.groups) && (forall g :: g in s.groups ==> CountOk(s, g))
  }

  // The codelets of a group have one data object and one definition.
  ghost predicate Shared(s: State) {
    forall a :: a in s.table && a in s.maps && s.table[a] in s.groups ==> s.groups[s.table[a]].made == Some(s.maps[a])
  }

  predicate OnData(s: State, a: Alias, d: nat) {
    a in s.maps && s.maps[a].data == d
  }

  // A data object exists exactly while some codelet has a map on it.
  ghost predicate Live(s: State) {
    && (forall a :: a in s.maps ==> s.maps[a].data in s.data)
    && (forall d :: d in s.data ==> exists a :: OnData(s, a, d))
  }

  // Only the aliases of a group share data.
  ghost predicate Private(s: State) {
    forall a, b, d :: OnData(s, a, d) && OnData(s, b, d) && a != b ==>
      a in s.table && b in s.table && s.table[a] == s.table[b]
  }

  ghost predicate Named(s: State) {
    && (forall g :: g in s.groups ==> g < s.next) && (forall d :: d in s.data ==> d < s.next)
    && s.nmap == |s.data| + s.leaks
  }

  ghost predicate Inv(s: State) {
    Counted(s) && Shared(s) && Live(s) && Private(s) && Named(s)
  }

  // ---------- the counts ----------

  lemma JoinSizes(s: State, s': State, a: Alias, g: nat, h: nat)
    requires a !in s.table && a !in s.maps && s'.table == s.table[a := g] && s'.maps == s.maps
    ensures |Members(s', h)| == |Members(s, h)| + (if g == h then 1 else 0) && |Users(s', h)| == |Users(s, h)|
  {
    if g == h {
      assert a !in Members(s, h);
      assert Members(s', h) == Members(s, h) + {a};
    } else {
      assert Members(s', h) == Members(s, h);
    }
    assert Users(s', h) == Users(s, h);
  }

  // An alias more in group g.
  lemma CountJoin(s: State, s': State, a: Alias, g: nat)
    requires Counted(s) && a !in s.table && a !in s.maps && g in s.groups
    requires s' == s.(table := s.table[a := g], groups := s.groups[g := s.groups[g].(total := s.groups[g].total + 1)])
    ensures Counted(s')
  {
    forall h | h in s'.groups ensures CountOk(s', h) {
      assert CountOk(s, h);
      JoinSizes(s, s', a, g, h);
    }
  }

  // A group with one alias.
  lemma CountNew(s: State, s': State, a: Alias, g: nat)
    requires Counted(s) && a !in s.table && a !in s.maps && g !in s.groups
    requires s' == s.(table := s.table[a := g], groups := s.groups[g := Group(0, 1, None)])
    ensures Counted(s')
  {
    forall h | h in s'.groups ensures CountOk(s', h) {
      if h == g {
        assert Members(s', g) == {a} && Users(s', g) == {};
      } else {
        assert CountOk(s, h);
        assert Members(s', h) == Members(s, h) && Users(s', h) == Users(s, h);
      }
    }
  }

  lemma UseSizes(s: State, s': State, a: Alias, i: Inst, h: nat)
    requires a in s.table && a !in s.maps && s'.table == s.table && s'.maps == s.maps[a := i]
    ensures |Members(s', h)| == |Members(s, h)|
    ensures |Users(s', h)| == |Users(s, h)| + if h == s.table[a] then 1 else 0
  {
    assert Members(s', h) == Members(s, h);
    if h == s.table[a] {
      assert a !in Users(s, h);
      assert Users(s', h) == Users(s, h) + {a};
    } else {
      assert Users(s', h) == Users(s, h);
    }
  }

  // One more codelet has the map of its group.
  lemma CountUse(s: State, s': State, a: Alias, i: Inst)
    requires Counted(s) && a in s.table && a !in s.maps
    requires s'.table == s.table && s'.maps == s.maps[a := i] && s'.groups.Keys == s.groups.Keys
    requires forall g :: g in s.groups ==>
               && s'.groups[g].total == s.groups[g].total
               && s'.groups[g].ref == s.groups[g].ref + if g == s.table[a] then 1 else 0
    ensures Counted(s')
  {
    forall h | h in s'.groups ensures CountOk(s', h) {
      assert CountOk(s, h);
      UseSizes(s, s', a, i, h);
    }
  }

  // A map outside the table comes or goes.
  lemma CountOther(s: State, s': State, a: Alias)
    requires Counted(s) && a !in s.table && s'.table == s.table && s'.groups == s.groups
    requires s'.maps.Keys == s.maps.Keys + {a} || s'.maps.Keys == s.maps.Keys - {a}
    ensures Counted(s')
  {
    forall h | h in s'.groups ensures CountOk(s', h) {
      assert CountOk(s, h);
      assert Members(s', h) == Members(s, h) && Users(s', h) == Users(s, h);
    }
  }

  // What is left of the records when group id becomes g.
  function Left(groups: map<nat, Group>, id: nat, g: Group): map<nat, Group> {
    if g.total == 0 then groups - {id} else groups[id := g]
  }

  lemma LeaveMembers(s: State, s': State, a: Alias, h: nat)
    requires a in s.table && s'.table == s.table - {a}
    ensures |Members(s', h)| == |Members(s, h)| - (if h == s.table[a] then 1 else 0)
  {
    if h == s.table[a] {
      assert a in Members(s, h);
      assert Members(s', h) == Members(s, h) - {a};
    } else {
      assert Members(s', h) == Members(s, h);
    }
  }

  lemma LeaveUsers(s: State, s': State, a: Alias, h: nat)
    requires a in s.table && s'.table == s.table - {a} && s'.maps == s.maps - {a}
    ensures |Users(s', h)| == |Users(s, h)| - (if h == s.table[a] && a in s.maps then 1 else 0)
  {
    if h == s.table[a] && a in s.maps {
      assert a in Users(s, h);
      assert Users(s', h) == Users(s, h) - {a};
    } else {
      assert Users(s', h) == Users(s, h);
    }
  }

  // The only alias of a group.
  lemma OnlyMember(s: State, a: Alias, b: Alias)
    requires Counted(s) && a in s.table && b in s.table && s.table[b] == s.table[a] && s.groups[s.table[a]].total == 1
    ensures b == a
  {
    assert CountOk(s, s.table[a]);
    assert a in Members(s, s.table[a]) && b in Members(s, s.table[a]);
    OnlyElement(Members(s, s.table[a]), a);
  }

  // An alias leaves its group, with its map if its codelet has it.
  lemma CountLeave(s: State, s': State, a: Alias, g': Group)
    requires Counted(s) && a in s.table && s'.table == s.table - {a} && s'.maps == s.maps - {a}
    requires s'.groups == Left(s.groups, s.table[a], g')
    requires g'.total == s.groups[s.table[a]].total - 1
    requires g'.ref == s.groups[s.table[a]].ref - (if a in s.maps then 1 else 0)
    ensures Counted(s')
  {
    forall h | h in s'.groups ensures CountOk(s', h) {
      assert CountOk(s, h);
      LeaveMembers(s, s', a, h);
      LeaveUsers(s, s', a, h);
    }
    forall b | b in s'.table ensures s'.table[b] in s'.groups {
      if g'.total == 0 && s.table[b] == s.table[a] { OnlyMember(s, a, b); }
    }
  }

  lemma RefWithinTotal(s: State, g: nat)
    requires Counted(s) && g in s.groups
    ensures 0 <= s.groups[g].ref <= s.groups[g].total
  {
    assert CountOk(s, g);
    SubsetSize(Users(s, g), Members(s, g));
  }

  // ---------- the data ----------

  lemma StillOn(s: State, s': State, a: Alias)
    requires Live(s) && (s'.maps.Keys == s.maps.Keys + {a} || s'.maps.Keys == s.maps.Keys)
    requires forall b :: b in s.maps ==> s'.maps[b] == s.maps[b]
    ensures forall d :: d in s.data ==> exists b :: OnData(s', b, d)
  {
    forall d | d in s.data ensures exists b :: OnData(s', b, d) {
      var b :| OnData(s, b, d);
      assert OnData(s', b, d);
    }
  }

  lemma LiveCreated(s: State, s': State, a: Alias, i: Inst)
    requires Live(s) && a !in s.maps && s'.maps == s.maps[a := i]
    requires s'.data == s.data + {i.data}
    ensures Live(s')
  {
    StillOn(s, s', a);
    assert OnData(s', a, i.data);
  }

  // Letting go of a map frees its data exactly when no other map is on it.
  lemma LiveUnmapped(s: State, s': State, a: Alias, last: bool)
    requires Live(s) && a in s.maps && s'.maps == s.maps - {a}
    requires last ==> forall b :: OnData(s, b, s.maps[a].data) ==> b == a
    requires !last ==> exists b :: OnData(s, b, s.maps[a].data) && b != a
    requires s'.data == (if last then s.data - {s.maps[a].data} else s.data)
    ensures Live(s')
  {
    var d0 := s.maps[a].data;
    forall d | d in s'.data ensures exists b :: OnData(s', b, d) {
      if d == d0 {
        var b :| OnData(s, b, d0) && b != a;
        assert OnData(s', b, d);
      } else {
        var b :| OnData(s, b, d);
        assert OnData(s', b, d);
      }
    }
    forall b | b in s'.maps ensures s'.maps[b].data in s'.data {
      assert OnData(s, b, s.maps[b].data);
    }
  }

  lemma NoUser(s: State, g: nat, b: Alias)
    requires Counted(s) && g in s.groups && s.groups[g].ref == 0 && b in s.table && b in s.maps
    ensures s.table[b] != g
  {
    assert CountOk(s, g);
    assert b in Users(s, s.table[b]);
  }

  lemma SomeUser(s: State, g: nat) returns (u: Alias)
    requires Counted(s) && Shared(s) && g in s.groups && s.groups[g].ref != 0
    ensures u in s.table && s.table[u] == g && s.groups[g].made.Some? && OnData(s, u, s.groups[g].made.value.data)
  {
    assert CountOk(s, g);
    assert Users(s, g) != {};
    u :| u in Users(s, g);
  }

  lemma OtherUser(s: State, a: Alias) returns (b: Alias)
    requires Counted(s) && Shared(s) && a in s.table && a in s.maps && s.groups[s.table[a]].ref != 1
    ensures b != a && OnData(s, b, s.maps[a].data)
  {
    var users := Users(s, s.table[a]);
    assert CountOk(s, s.table[a]);
    assert a in users && |users - {a}| == |users| - 1;
    b :| b in users - {a};
  }

  lemma OnlyUser(s: State, a: Alias, b: Alias)
    requires Counted(s) && Private(s) && a in s.maps && (a in s.table ==> s.groups[s.table[a]].ref == 1)
    requires OnData(s, b, s.maps[a].data)
    ensures b == a
  {
    assert OnData(s, a, s.maps[a].data);
    if b != a {
      assert CountOk(s, s.table[a]);
      assert a in Users(s, s.table[a]) && b in Users(s, s.table[a]);
      OnlyElement(Users(s, s.table[a]), a);
    }
  }

  // ---------- every step keeps the invariant ----------

  lemma LinkCounts(s: State, a: Alias, b: Alias)
    requires Counted(s) && Named(s) && CanDo(s, Link(a, b))
    ensures Counted(DoLink(s, a, b))
  {
    var s' := DoLink(s, a, b);
    if a !in s.table && b !in s.table {
      var n := s.next;
      var s1 := s.(table := s.table[a := n], groups := s.groups[n := Group(0, 1, None)]);
      CountNew(s, s1, a, n);
      CountJoin(s1, s'.(next := n), b, n);
    } else if a in s.table && b !in s.table {
      CountJoin(s, s', b, s.table[a]);
    } else if b in s.table && a !in s.table {
      CountJoin(s, s', a, s.table[b]);
    }
  }

  lemma LinkKeeps(s: State, a: Alias, b: Alias)
    requires Inv(s) && CanDo(s, Link(a, b))
    ensures Inv(DoLink(s, a, b))
  {
    LinkCounts(s, a, b);
    assert Live(DoLink(s, a, b)) by { assert s.data == {}; }
  }

  lemma CreatedNamed(s: State, s': State)
    requires Named(s) && s'.groups.Keys == s.groups.Keys && s'.leaks == s.leaks
    requires s'.data == s.data + {s.next} && s'.next == s.next + 1 && s'.nmap == s.nmap + 1
    ensures Named(s')
  {}

  lemma CreatedPrivate(s: State, s': State, a: Alias, def: Def)
    requires Live(s) && Private(s) && Named(s) && a !in s.maps
    requires s'.maps == s.maps[a := Inst(s.next, def)] && s'.table == s.table
    ensures Private(s')
  {
    forall b, c, d | OnData(s', b, d) && OnData(s', c, d) && b != c
      ensures b in s'.table && c in s'.table && s'.table[b] == s'.table[c]
    {
      if b != a && c != a { assert OnData(s, b, d) && OnData(s, c, d); }
    }
  }

  lemma RelocateUnlinkedKeeps(s: State, a: Alias, def: Def, create: bool, register: bool)
    requires Inv(s) && a !in s.table
    ensures Inv(DoRelocate(s, a, def, create, register))
  {
    var s' := DoRelocate(s, a, def, create, register);
    if a !in s.maps && create && register {
      CountOther(s, s', a);
      LiveCreated(s, s', a, Inst(s.next, def));
      CreatedPrivate(s, s', a, def);
      CreatedNamed(s, s');
      assert Shared(s');
    } else {
      assert s'.maps == s.maps && s'.table == s.table && s'.groups == s.groups && s'.data == s.data;
      SameInv(s, s');
    }
  }

  lemma SameCounted(s: State, s': State)
    requires Counted(s) && s'.table == s.table && s'.groups == s.groups && s'.maps == s.maps
    ensures Counted(s')
  {
    forall g | g in s.groups ensures CountOk(s', g) {
      assert CountOk(s, g);
      assert Members(s', g) == Members(s, g);
      assert Users(s', g) == Users(s, g);
    }
  }

  lemma SamePrivate(s: State, s': State)
    requires Private(s) && s'.table == s.table && s'.maps == s.maps
    ensures Private(s')
  {
    forall a, b, d | OnData(s', a, d) && OnData(s', b, d) && a != b
      ensures a in s.table && b in s.table && s.table[a] == s.table[b]
    {
      assert OnData(s, a, d) && OnData(s, b, d);
    }
  }

  lemma SameLive(s: State, s': State)
    requires Live(s) && s'.maps == s.maps && s'.data == s.data
    ensures Live(s')
  {
    StillOn(s, s', Alias(Name(""), Name("")));
  }

  // What the invariant does not look at.
  lemma SameInv(s: State, s': State)
    requires Inv(s) && s'.table == s.table && s'.groups == s.groups && s'.maps == s.maps && s'.data == s.data
    requires s'.next >= s.next && s'.nmap - s'.leaks == s.nmap - s.leaks
    ensures Inv(s')
  {
    SameCounted(s, s');
    SamePrivate(s, s');
    SameLive(s, s');
  }

  lemma FirstShared(s: State, s': State, a: Alias, def: Def)
    requires Counted(s) && Shared(s) && a in s.table && a !in s.maps && s.groups[s.table[a]].ref == 0
    requires s' == Referenced(s, a, s.table[a], def)
    ensures Shared(s')
  {
    forall b | b in s'.table && b in s'.maps && s'.table[b] in s'.groups
      ensures s'.groups[s'.table[b]].made == Some(s'.maps[b])
    {
      if b != a { NoUser(s, s.table[a], b); }
    }
  }

  lemma FirstReferenceKeeps(s: State, a: Alias, def: Def)
    requires Inv(s) && a in s.table && a !in s.maps && s.groups[s.table[a]].ref == 0
    ensures Inv(Referenced(s, a, s.table[a], def))
  {
    var s', i := Referenced(s, a, s.table[a], def), Inst(s.next, def);
    CountUse(s, s', a, i);
    FirstShared(s, s', a, def);
    LiveCreated(s, s', a, i);
    CreatedPrivate(s, s', a, def);
    CreatedNamed(s, s');
  }

  lemma NextPrivate(s: State, s': State, a: Alias, u: Alias, i: Inst)
    requires Private(s) && a in s.table && a !in s.maps && u in s.table && s.table[u] == s.table[a]
    requires OnData(s, u, i.data) && s'.maps == s.maps[a := i] && s'.table == s.table
    ensures Private(s')
  {
    forall b, c, d | OnData(s', b, d) && OnData(s', c, d) && b != c
      ensures b in s'.table && c in s'.table && s'.table[b] == s'.table[c]
    {
      if b != a { assert OnData(s, b, d); }
      if c != a { assert OnData(s, c, d); }
    }
  }

  lemma NextShared(s: State, s': State, a: Alias, i: Inst)
    requires Shared(s) && a in s.table && a !in s.maps && s.table[a] in s.groups && s.groups[s.table[a]].made == Some(i)
    requires s'.maps == s.maps[a := i] && s'.table == s.table && s'.groups.Keys == s.groups.Keys
    requires forall g :: g in s.groups ==> s'.groups[g].made == s.groups[g].made
    ensures Shared(s')
  {}

  lemma NextFields(s: State, s': State, a: Alias, i: Inst)
    requires a in s.table && a !in s.maps && s.table[a] in s.groups && s.groups[s.table[a]].ref != 0
    requires s.groups[s.table[a]].made == Some(i) && s' == Referenced(s, a, s.table[a], i.def)
    ensures s'.table == s.table && s'.maps == s.maps[a := i] && s'.data == s.data && s'.groups.Keys == s.groups.Keys
    ensures forall g :: g in s.groups ==>
              && s'.groups[g].total == s.groups[g].total && s'.groups[g].made == s.groups[g].made
              && s'.groups[g].ref == s.groups[g].ref + if g == s.table[a] then 1 else 0
    ensures Named(s) ==> Named(s')
  {}

  lemma NextReferenceKeeps(s: State, a: Alias, def: Def)
    requires Inv(s) && a in s.table && a !in s.maps
    requires s.groups[s.table[a]].ref != 0 && s.groups[s.table[a]].made.Some?
             && s.groups[s.table[a]].made.value.def == def
    ensures Inv(Referenced(s, a, s.table[a], def))
  {
    var s', i := Referenced(s, a, s.table[a], def), s.groups[s.table[a]].made.value;
    var u := SomeUser(s, s.table[a]);
    NextFields(s, s', a, i);
    CountUse(s, s', a, i);
    assert s'.data == s.data + {i.data};
    LiveCreated(s, s', a, i);
    NextPrivate(s, s', a, u, i);
    NextShared(s, s', a, i);
  }

  lemma DanglingCounts(s: State, s': State, id: nat)
    requires Counted(s) && id in s.groups && s'.table == s.table && s'.maps == s.maps && s'.groups.Keys == s.groups.Keys
    requires forall g :: g in s.groups ==>
               s'.groups[g].ref == s.groups[g].ref && s'.groups[g].total == s.groups[g].total
    ensures Counted(s')
  {
    forall g | g in s.groups ensures CountOk(s', g) {
      assert CountOk(s, g);
      assert Members(s', g) == Members(s, g);
      assert Users(s', g) == Users(s, g);
    }
  }

  lemma DanglingShared(s: State, s': State, id: nat, def: Def)
    requires Counted(s) && Shared(s) && id in s.groups && s.groups[id].ref == 0 && s' == Dangling(s, id, def)
    ensures Shared(s')
  {
    forall b | b in s'.table && b in s'.maps && s'.table[b] in s'.groups
      ensures s'.groups[s'.table[b]].made == Some(s'.maps[b])
    {
      NoUser(s, id, b);
    }
  }

  lemma DanglingKeeps(s: State, id: nat, def: Def)
    requires Inv(s) && id in s.groups && s.groups[id].ref == 0
    ensures Inv(Dangling(s, id, def))
  {
    var s' := Dangling(s, id, def);
    DanglingCounts(s, s', id);
    DanglingShared(s, s', id, def);
    SamePrivate(s, s');
    SameLive(s, s');
  }

  lemma RelocateKeeps(s: State, a: Alias, def: Def, create: bool, register: bool)
    requires Inv(s)
    ensures Inv(DoRelocate(s, a, def, create, register))
  {
    if a !in s.table {
      RelocateUnlinkedKeeps(s, a, def, create, register);
    } else if a !in s.maps && Succeeds(s, a, def, create, register) {
      if s.groups[s.table[a]].ref == 0 { FirstReferenceKeeps(s, a, def); } else { NextReferenceKeeps(s, a, def); }
    } else if a !in s.maps && create && !def.io && s.groups[s.table[a]].ref == 0 {
      DanglingKeeps(s, s.table[a], def);
    }
  }

  lemma UnmappedPrivate(s: State, s': State, a: Alias)
    requires Private(s) && s'.maps == s.maps - {a} && (s'.table == s.table || s'.table == s.table - {a})
    ensures Private(s')
  {
    forall b, c, d | OnData(s', b, d) && OnData(s', c, d) && b != c
      ensures b in s'.table && c in s'.table && s'.table[b] == s'.table[c]
    {
      assert OnData(s, b, d) && OnData(s, c, d);
    }
  }

  lemma UnmapUnlinkedKeeps(s: State, a: Alias)
    requires Inv(s) && a in s.maps && a !in s.table
    ensures Inv(DoUnmap(s, a))
  {
    var s' := DoUnmap(s, a);
    CountOther(s, s', a);
    forall b | OnData(s, b, s.maps[a].data) ensures b == a { OnlyUser(s, a, b); }
    LiveUnmapped(s, s', a, true);
    UnmappedPrivate(s, s', a);
    assert Shared(s') && Named(s');
  }

  lemma UnmapLive(s: State, s': State, a: Alias, last: bool)
    requires Counted(s) && Shared(s) && Live(s) && Private(s) && a in s.maps && a in s.table
    requires last <==> s.groups[s.table[a]].ref == 1
    requires s'.maps == s.maps - {a} && s'.data == (if last then s.data - {s.maps[a].data} else s.data)
    ensures Live(s')
  {
    if last {
      forall b | OnData(s, b, s.maps[a].data) ensures b == a { OnlyUser(s, a, b); }
    } else {
      var b := OtherUser(s, a);
    }
    LiveUnmapped(s, s', a, last);
  }

  // Once a group has no alias it has no user either.
  lemma LastUser(s: State, a: Alias)
    requires Counted(s) && a in s.table && a in s.maps && s.groups[s.table[a]].total == 1
    ensures s.groups[s.table[a]].ref == 1
  {
    RefWithinTotal(s, s.table[a]);
    assert CountOk(s, s.table[a]);
    assert a in Users(s, s.table[a]);
  }

  lemma LeaveShared(s: State, s': State, a: Alias, g': Group)
    requires Shared(s) && a in s.table && s.table[a] in s.groups && g'.made == s.groups[s.table[a]].made
    requires s'.table == s.table - {a} && s'.maps == s.maps - {a} && s'.groups == Left(s.groups, s.table[a], g')
    ensures Shared(s')
  {}

  lemma LeaveNamed(s: State, s': State, id: nat, g': Group)
    requires Named(s) && id in s.groups && s'.groups == Left(s.groups, id, g') && s'.next == s.next
             && s'.leaks == s.leaks
    requires (s'.data == s.data && s'.nmap == s.nmap) ||
             exists d :: d in s.data && s'.data == s.data - {d} && s'.nmap == s.nmap - 1
    ensures Named(s')
  {}

  lemma UnmapFields(s: State, s': State, a: Alias, g': Group)
    requires a in s.maps && a in s.table && s.table[a] in s.groups && s' == DoUnmap(s, a)
    requires var g := s.groups[s.table[a]];
             g' == g.(ref := g.ref - 1, total := g.total - 1) && (g.total == 1 ==> g.ref == 1)
    ensures s'.table == s.table - {a} && s'.maps == s.maps - {a}
    ensures s'.groups == Left(s.groups, s.table[a], g') && s'.next == s.next && s'.leaks == s.leaks
    ensures s'.data == (if g'.ref == 0 then s.data - {s.maps[a].data} else s.data)
    ensures s'.nmap == s.nmap - if g'.ref == 0 then 1 else 0
  {}

  lemma UnmapLinkedKeeps(s: State, a: Alias)
    requires Inv(s) && a in s.maps && a in s.table
    ensures Inv(DoUnmap(s, a))
  {
    var s', g := DoUnmap(s, a), s.groups[s.table[a]];
    if g.total == 1 { LastUser(s, a); }
    var g' := g.(ref := g.ref - 1, total := g.total - 1);
    UnmapFields(s, s', a, g');
    CountLeave(s, s', a, g');
    UnmapLive(s, s', a, g.ref == 1);
    UnmappedPrivate(s, s', a);
    LeaveShared(s, s', a, g');
    LeaveNamed(s, s', s.table[a], g');
  }

  lemma DropFields(s: State, s': State, a: Alias, g': Group)
    requires CanDo(s, DropAlias(a)) && s.table[a] in s.groups && s' == DoDrop(s, a)
    requires g' == s.groups[s.table[a]].(total := s.groups[s.table[a]].total - 1)
    ensures s'.table == s.table - {a} && s'.maps == s.maps == s.maps - {a} && s'.data == s.data
    ensures s'.groups == Left(s.groups, s.table[a], g')
    ensures s'.next == s.next && s'.leaks == s.leaks && s'.nmap == s.nmap
  {}

  lemma DropKeeps(s: State, a: Alias)
    requires Inv(s) && CanDo(s, DropAlias(a))
    ensures Inv(DoDrop(s, a))
  {
    var s', g := DoDrop(s, a), s.groups[s.table[a]];
    var g' := g.(total := g.total - 1);
    DropFields(s, s', a, g');
    CountLeave(s, s', a, g');
    UnmappedPrivate(s, s', a);
    SameLive(s, s');
    LeaveShared(s, s', a, g');
    LeaveNamed(s, s', s.table[a], g');
  }

  lemma StepKeeps(s: State, step: Step)
    requires Inv(s) && CanDo(s, step)
    ensures Inv(Do(s, step))
  {
    match step
    case Link(a, b) => LinkKeeps(s, a, b);
    case Relocate(a, def, create, register) => RelocateKeeps(s, a, def, create, register);
    case Unmap(a) => if a in s.table { UnmapLinkedKeeps(s, a); } else { UnmapUnlinkedKeeps(s, a); }
    case DropAlias(a) => DropKeeps(s, a);
  }

  lemma {:induction false} RunKeeps(s: State, run: seq<Step>)
    requires Inv(s) && LegalRun(s, run)
    ensures Inv(After(s, run))
    decreases |run|
  {
    if run != [] {
      StepKeeps(s, run[0]);
      RunKeeps(Do(s, run[0]), run[1..]);
    }
  }

  // ---------- what holds in every run ----------

  // A state some run of the codeletset leads to.
  ghost predicate Reachable(s: State) {
    exists run :: LegalRun(Empty(), run) && After(Empty(), run) == s
  }

  lemma ReachableInv(s: State)
    requires Reachable(s)
    ensures Inv(s)
  {
    var run :| LegalRun(Empty(), run) && After(Empty(), run) == s;
    RunKeeps(Empty(), run);
  }

  lemma {:induction false} RunAppend(s: State, run: seq<Step>, step: Step)
    requires LegalRun(s, run) && CanDo(After(s, run), step)
    ensures LegalRun(s, run + [step]) && After(s, run + [step]) == Do(After(s, run), step)
    decreases |run|
  {
    if run != [] {
      assert (run + [step])[1..] == run[1..] + [step];
      RunAppend(Do(s, run[0]), run[1..], step);
    }
  }

  lemma ReachableStep(s: State, step: Step)
    requires Reachable(s) && CanDo(s, step)
    ensures Reachable(Do(s, step))
  {
    var run :| LegalRun(Empty(), run) && After(Empty(), run) == s;
    RunAppend(Empty(), run, step);
  }

  lemma ReachableEmpty()
    ensures Reachable(Empty())
  {
    assert LegalRun(Empty(), []) && After(Empty(), []) == Empty();
  }

  /** No alias leads to a freed record. */
  lemma RecordsExist(s: State, a: Alias)
    requires Reachable(s) && a in s.table
    ensures s.table[a] in s.groups
  {
    ReachableInv(s);
  }

  /** In every state total_refs is the number of aliases the table has for the group, ref_count the
      number of those whose codelet has the map, and nmap_reg the number of data objects, but for the
      failed registrations of unlinked maps. */
  lemma CountsAreExact(s: State, g: nat)
    requires Reachable(s) && g in s.groups
    ensures s.groups[g].total == |Members(s, g)| && s.groups[g].ref == |Users(s, g)|
    ensures 0 <= s.groups[g].ref <= s.groups[g].total && 0 < s.groups[g].total
    ensures s.nmap == |s.data| + s.leaks
  {
    ReachableInv(s);
    RefWithinTotal(s, g);
    assert CountOk(s, g);
  }

  /** Two codelets use the same data exactly when their aliases are in one group, and then with the
      same definition. */
  lemma SharingIsLinking(s: State, a: Alias, b: Alias)
    requires Reachable(s) && a in s.maps && b in s.maps && a != b
    ensures s.maps[a].data == s.maps[b].data <==> a in s.table && b in s.table && s.table[a] == s.table[b]
    ensures s.maps[a].data == s.maps[b].data ==> s.maps[a].def == s.maps[b].def
  {
    ReachableInv(s);
    assert OnData(s, a, s.maps[a].data) && OnData(s, b, s.maps[b].data);
  }

  // The check a load makes once all codelets exist.
  ghost predicate AllLinked(s: State) {
    forall g :: g in s.groups ==> s.groups[g].ref == s.groups[g].total
  }

  lemma SameSize<T>(a: set<T>, b: set<T>)
    requires a <= b && |a| == |b|
    ensures a == b
  {
    assert b == a + (b - a);
    assert |b - a| == 0;
  }

  /** The check is passed exactly when every alias of every group has its map. */
  lemma CheckIsComplete(s: State)
    requires Reachable(s)
    ensures AllLinked(s) <==> s.table.Keys <= s.maps.Keys
  {
    ReachableInv(s);
    if AllLinked(s) {
      forall a | a in s.table ensures a in s.maps {
        assert CountOk(s, s.table[a]);
        SameSize(Users(s, s.table[a]), Members(s, s.table[a]));
        assert a in Members(s, s.table[a]);
      }
    }
    if s.table.Keys <= s.maps.Keys {
      forall g | g in s.groups ensures s.groups[g].ref == s.groups[g].total {
        assert CountOk(s, g);
        assert Users(s, g) == Members(s, g);
      }
    }
  }

  datatype Check = Passed | Mismatch | Fault

  // The check going over aliases in the given order. At the first group whose counts differ it formats the name
  // of the group's map, and the process faults when there is none.
  function Checked(s: State, order: seq<Alias>): Check {
    if order == [] then Passed
    else if order[0] !in s.table || s.table[order[0]] !in s.groups then Checked(s, order[1..])
    else
      var g := s.groups[s.table[order[0]]];
      if g.ref == g.total then Checked(s, order[1..]) else if g.made.None? then Fault else Mismatch
  }

  // No record points to a map that is not in use: so it is as long as every relocation succeeded.
  ghost predicate Settled(s: State) {
    forall g :: g in s.groups && s.groups[g].made.Some? ==> s.groups[g].ref > 0
  }

  lemma {:induction false} CheckedPassed(s: State, order: seq<Alias>, a: Alias)
    requires Checked(s, order) == Passed && a in order && a in s.table && s.table[a] in s.groups
    ensures s.groups[s.table[a]].ref == s.groups[s.table[a]].total
  {
    if a != order[0] { CheckedPassed(s, order[1..], a); }
  }

  lemma {:induction false} CheckedAppend(s: State, order: seq<Alias>, rest: seq<Alias>)
    ensures Checked(s, order + rest) == if Checked(s, order) == Passed then Checked(s, rest) else Checked(s, order)
  {
    if order == [] {
      assert order + rest == rest;
    } else {
      assert (order + rest)[1..] == order[1..] + rest;
      CheckedAppend(s, order[1..], rest);
    }
  }

  lemma {:induction false} LinkedPasses(s: State, order: seq<Alias>)
    requires AllLinked(s)
    ensures Checked(s, order) == Passed
  {
    if order != [] { LinkedPasses(s, order[1..]); }
  }

  /** Going over all aliases, in any order, passes exactly when every alias has its map. */
  lemma CheckPassesIff(s: State, order: seq<Alias>)
    requires Reachable(s) && SetOf(order) == s.table.Keys
    ensures Checked(s, order) == Passed <==> s.table.Keys <= s.maps.Keys
  {
    ReachableInv(s);
    CheckIsComplete(s);
    if AllLinked(s) { LinkedPasses(s, order); }
    if Checked(s, order) == Passed {
      forall g | g in s.groups ensures s.groups[g].ref == s.groups[g].total {
        var a := SomeMember(s, g);
        assert a in SetOf(order);
        CheckedPassed(s, order, a);
      }
    }
  }

  lemma {:induction false} FaultNeedsUnused(s: State, order: seq<Alias>)
    requires Checked(s, order) == Fault
    ensures exists g :: g in s.groups && s.groups[g].made.None?
  {
    if order[0] in s.table && s.table[order[0]] in s.groups
         && s.groups[s.table[order[0]]].ref != s.groups[s.table[order[0]]].total
    {
      assert s.groups[s.table[order[0]]].made.None?;
    } else {
      FaultNeedsUnused(s, order[1..]);
    }
  }

  ghost predicate NeverFaults(s: State) {
    forall order :: SetOf(order) <= s.table.Keys ==> Checked(s, order) != Fault
  }

  // Every group is used by some codelet.
  ghost predicate InUse(s: State) {
    forall g :: g in s.groups ==> s.groups[g].ref > 0
  }

  /** Once every relocation has succeeded the check never faults, in whatever order it goes over the table,
      exactly when every group is used by some codelet. */
  lemma NeverFaultsIff(s: State)
    requires Reachable(s) && Settled(s)
    ensures NeverFaults(s) <==> InUse(s)
  {
    ReachableInv(s);
    if g :| g in s.groups && s.groups[g].ref <= 0 {
      var a := SomeMember(s, g);
      assert CountOk(s, g);
      assert Checked(s, [a]) == Fault && SetOf([a]) <= s.table.Keys;
    } else {
      forall g | g in s.groups ensures s.groups[g].made.Some? { var u := SomeUser(s, g); }
      forall order ensures Checked(s, order) != Fault {
        if Checked(s, order) == Fault { FaultNeedsUnused(s, order); }
      }
    }
  }

  lemma AliasOf(s: State, g: nat) returns (a: Alias)
    requires Reachable(s) && g in s.groups
    ensures a in s.table && s.table[a] == g
  {
    ReachableInv(s);
    a := SomeMember(s, g);
  }

  /** A group is used exactly when some alias of it has its map. */
  lemma UsedIff(s: State, g: nat)
    requires Reachable(s) && g in s.groups
    ensures s.groups[g].ref > 0 <==> exists a :: a in s.table && s.table[a] == g && a in s.maps
  {
    ReachableInv(s);
    assert CountOk(s, g);
    if s.groups[g].ref > 0 { var u := SomeUser(s, g); }
    if a :| a in s.table && s.table[a] == g && a in s.maps { assert a in Users(s, g); }
  }

  // Some codelet has the map under an alias of the same group.
  ghost predicate HasForGroup(s: State, a: Alias, b: Alias) {
    a in s.table && b in s.table && s.table[a] == s.table[b] && b in s.maps
  }

  ghost predicate GroupHasMap(s: State, a: Alias) {
    exists b :: HasForGroup(s, a, b)
  }

  lemma GroupHasMapIff(s: State, a: Alias)
    requires Reachable(s)
    ensures GroupHasMap(s, a) <==> a in s.table && s.table[a] in s.groups && s.groups[s.table[a]].ref != 0
    ensures a in s.table ==> s.table[a] in s.groups
    ensures forall b :: HasForGroup(s, a, b) ==> s.groups[s.table[a]].made == Some(s.maps[b])
  {
    ReachableInv(s);
    if a in s.table {
      UsedIff(s, s.table[a]);
      assert CountOk(s, s.table[a]);
      if b :| b in s.table && s.table[b] == s.table[a] && b in s.maps { assert HasForGroup(s, a, b); }
    }
  }

  /** A relocation succeeds exactly when the codelet has the map already, or the map can be registered and: it is not
      linked and can be created; or it is linked, is no IO map, and either nobody of its group has it yet and it can be
      created, or those who have it gave the same definition. */
  lemma RelocationSucceedsIff(s: State, a: Alias, def: Def, create: bool, register: bool)
    requires Reachable(s)
    ensures Succeeds(s, a, def, create, register) <==>
            || a in s.maps
            || (register && a !in s.table && create)
            || (register && a in s.table && !def.io && !GroupHasMap(s, a) && create)
            || (register && a in s.table && !def.io && exists b :: HasForGroup(s, a, b) && s.maps[b].def == def)
    ensures forall b, c :: HasForGroup(s, a, b) && HasForGroup(s, a, c) ==> s.maps[b].def == s.maps[c].def
  {
    GroupHasMapIff(s, a);
    if GroupHasMap(s, a) { var b :| HasForGroup(s, a, b); }
  }

  /** What a successful relocation leaves: the codelet has the map with its definition, and it is a new map unless
      the codelet or another of its group had it, in which case it is theirs. */
  lemma RelocationLeaves(s: State, a: Alias, def: Def, create: bool, register: bool)
    requires Reachable(s) && Succeeds(s, a, def, create, register)
    ensures var s' := DoRelocate(s, a, def, create, register);
            && s'.table == s.table && s'.maps == s.maps[a := if a in s.maps then s.maps[a] else s'.maps[a]]
            && (a !in s.maps ==> s'.maps[a].def == def)
            && s'.nmap == s.nmap + (if a in s.maps || GroupHasMap(s, a) then 0 else 1)
            && (forall b :: HasForGroup(s, a, b) && a !in s.maps ==> s'.maps[a].data == s.maps[b].data)
  {
    GroupHasMapIff(s, a);
  }

  lemma RelocateSettled(s: State, a: Alias, def: Def, create: bool, register: bool)
    requires Settled(s) && Succeeds(s, a, def, create, register)
             && (a in s.table && s.table[a] in s.groups ==> s.groups[s.table[a]].ref >= 0)
    ensures Settled(DoRelocate(s, a, def, create, register))
  {}

  /** When a codelet gives up a map its data has not been freed before, and it is freed now exactly when
      no other codelet has it; likewise the group's record, exactly when no alias leads to it. */
  lemma FreedWithLastUse(s: State, a: Alias)
    requires Reachable(s) && a in s.maps
    ensures s.maps[a].data in s.data
    ensures s.maps[a].data !in DoUnmap(s, a).data <==> forall b :: OnData(s, b, s.maps[a].data) ==> b == a
    ensures a in s.table ==> s.table[a] in s.groups
    ensures a in s.table ==> (s.table[a] !in DoUnmap(s, a).groups <==> Members(s, s.table[a]) == {a})
  {
    ReachableInv(s);
    var s' := DoUnmap(s, a);
    if a in s.table && s.groups[s.table[a]].ref != 1 {
      var b := OtherUser(s, a);
    } else {
      forall b | OnData(s, b, s.maps[a].data) ensures b == a { OnlyUser(s, a, b); }
    }
    if a in s.table {
      assert CountOk(s, s.table[a]);
      assert a in Members(s, s.table[a]);
      if s.groups[s.table[a]].total == 1 {
        LastUser(s, a);
        OnlyElement(Members(s, s.table[a]), a);
      }
    }
  }

  lemma SomeMember(s: State, g: nat) returns (a: Alias)
    requires Counted(s) && g in s.groups
    ensures a in s.table && s.table[a] == g
  {
    assert CountOk(s, g);
    a :| a in Members(s, g);
  }

  lemma SomeMap(s: State, d: nat) returns (a: Alias)
    requires Live(s) && d in s.data
    ensures a in s.maps
  {
    a :| OnData(s, a, d);
  }

  /** When the codelets and the table are gone so is everything else; of nmap_reg only the failed
      registrations of unlinked maps remain. */
  lemma NothingLeft(s: State)
    requires Reachable(s) && s.maps == map[] && s.table == map[]
    ensures s.groups == map[] && s.data == {} && s.nmap == s.leaks
  {
    ReachableInv(s);
    forall g ensures g !in s.groups {
      if g in s.groups { var a := SomeMember(s, g); }
    }
    NoMapsNoData(s);
  }

  lemma CountData(s: State)
    requires Reachable(s)
    ensures s.nmap == |s.data| + s.leaks
  {
    ReachableInv(s);
  }

  lemma NoMapsNoData(s: State)
    requires Reachable(s) && s.maps == map[]
    ensures s.data == {} && s.nmap == s.leaks
  {
    ReachableInv(s);
    forall d ensures d !in s.data {
      if d in s.data { var a := SomeMap(s, d); }
    }
  }

  /** A failed registration of an unlinked map stays counted in nmap_reg when nothing is left. */
  lemma FailedRegistrationStays(a: Alias, def: Def)
    ensures var s := DoRelocate(Empty(), a, def, true, false);
            Reachable(s) && s.maps == map[] && s.table == map[] && s.data == {} && s.nmap == 1
  {
    ReachableEmpty();
    ReachableStep(Empty(), Relocate(a, def, true, false));
  }

  /** When the first map of a group is created and cannot be registered, no map, data object or count changes, but the
      group's record points to it from then on. */
  lemma FailedLinkedRegistration(s: State, a: Alias, def: Def)
    requires Reachable(s) && a in s.table && a !in s.maps && !GroupHasMap(s, a) && !def.io
    ensures var s' := DoRelocate(s, a, def, true, false);
            && s'.table == s.table && s'.maps == s.maps && s'.data == s.data && s'.nmap == s.nmap && s'.leaks == s.leaks
            && s.table[a] in s.groups
            && s'.groups == s.groups[s.table[a] := s.groups[s.table[a]].(made := Some(Inst(s.next, def)))]
  {
    GroupHasMapIff(s, a);
  }

  // ---------- which maps are linked ----------

  type Links = seq<(Alias, Alias)>

  // jbpf_populate_linked_map_entries on the links of a request, in order.
  function Populate(links: Links): State {
    if links == [] then Empty()
    else DoLink(Populate(links[..|links| - 1]), links[|links| - 1].0, links[|links| - 1].1)
  }

  ghost predicate Distinct(links: Links) {
    forall i :: 0 <= i < |links| ==> links[i].0 != links[i].1
  }

  ghost predicate Used(links: Links, a: Alias) {
    exists i :: 0 <= i < |links| && (links[i].0 == a || links[i].1 == a)
  }

  lemma UsedMore(links: Links, a: Alias)
    requires links != []
    ensures var n := |links| - 1; Used(links, a) <==> Used(links[..n], a) || links[n].0 == a || links[n].1 == a
  {
    var n := |links| - 1;
    if i :| 0 <= i < n && (links[i].0 == a || links[i].1 == a) { assert links[..n][i] == links[i]; }
    if i :| 0 <= i < n && (links[..n][i].0 == a || links[..n][i].1 == a) { assert links[..n][i] == links[i]; }
  }

  lemma DistinctLess(links: Links)
    requires Distinct(links) && links != []
    ensures Distinct(links[..|links| - 1])
  {}

  // Every alias leads to a record.
  ghost predicate Led(s: State) {
    forall a :: a in s.table ==> s.table[a] in s.groups
  }

  /** The table holds the aliases of the links and no others, and each leads to a record. */
  lemma {:induction false} PairsOfLinks(links: Links, a: Alias)
    ensures Led(Populate(links)) && (a in Populate(links).table <==> Used(links, a))
  {
    if links != [] {
      PairsOfLinks(links[..|links| - 1], a);
      UsedMore(links, a);
    }
  }

  lemma {:induction false} PopulateReachable(links: Links)
    requires Distinct(links)
    ensures Reachable(Populate(links)) && Populate(links).maps == map[] && Populate(links).leaks == 0
  {
    if links == [] {
      ReachableEmpty();
    } else {
      var l := links[|links| - 1];
      PopulateReachable(links[..|links| - 1]);
      ReachableStep(Populate(links[..|links| - 1]), Link(l.0, l.1));
    }
  }

  lemma {:induction false} PopulateLeaks(links: Links)
    ensures Populate(links).leaks == 0 && Populate(links).nmap == 0
  {
    if links != [] { PopulateLeaks(links[..|links| - 1]); }
  }

  lemma {:induction false} PopulateSettled(links: Links)
    ensures forall g :: g in Populate(links).groups ==> Populate(links).groups[g].made.None?
  {
    if links != [] { PopulateSettled(links[..|links| - 1]); }
  }

  lemma FreshLinkFaults(a: Alias, b: Alias)
    requires a != b
    ensures Checked(Populate([(a, b)]), [a]) == Fault
  {
    assert [(a, b)][..0] == [];
    assert Populate([(a, b)]) == DoLink(Empty(), a, b);
  }

  predicate Together(s: State, l: (Alias, Alias)) {
    l.0 in s.table && l.1 in s.table && s.table[l.0] == s.table[l.1]
  }

  // Earlier links have put the two in different groups.
  predicate Apart(s: State, l: (Alias, Alias)) {
    l.0 in s.table && l.1 in s.table && s.table[l.0] != s.table[l.1]
  }

  lemma LinkJoins(s: State, l: (Alias, Alias))
    requires Led(s)
    ensures Together(DoLink(s, l.0, l.1), l) <==> !Apart(s, l)
    ensures l.0 in DoLink(s, l.0, l.1).table && l.1 in DoLink(s, l.0, l.1).table
    ensures forall a :: a in s.table ==> a in DoLink(s, l.0, l.1).table && DoLink(s, l.0, l.1).table[a] == s.table[a]
  {}

  lemma PopulateLed(links: Links)
    requires Distinct(links)
    ensures Led(Populate(links))
  {
    PopulateReachable(links);
    ReachableInv(Populate(links));
  }

  lemma {:induction false} GroupsStay(links: Links, i: nat, a: Alias)
    requires Distinct(links) && i <= |links| && a in Populate(links[..i]).table
    ensures a in Populate(links).table && Populate(links).table[a] == Populate(links[..i]).table[a]
    decreases |links|
  {
    if i == |links| {
      assert links[..i] == links;
    } else {
      var before, l := links[..|links| - 1], links[|links| - 1];
      assert before[..i] == links[..i];
      GroupsStay(before, i, a);
      PopulateLed(before);
      LinkJoins(Populate(before), l);
    }
  }

  lemma LinkStep(links: Links, i: nat)
    requires Distinct(links) && i < |links|
    ensures var s := Populate(links[..i + 1]);
            && links[i].0 in s.table && links[i].1 in s.table
            && (Together(s, links[i]) <==> !Apart(Populate(links[..i]), links[i]))
  {
    var upto := links[..i + 1];
    assert upto[..i] == links[..i] && upto[i] == links[i];
    PopulateLed(links[..i]);
    LinkJoins(Populate(links[..i]), links[i]);
  }

  /** A link puts its two maps in one group exactly when earlier links had not put them in different
      groups: groups are never merged. */
  lemma LinksJoinUnlessApart(links: Links, i: nat)
    requires Distinct(links) && i < |links|
    ensures links[i].0 in Populate(links).table && links[i].1 in Populate(links).table
    ensures Together(Populate(links), links[i]) <==> !Apart(Populate(links[..i]), links[i])
  {
    LinkStep(links, i);
    GroupsStay(links, i + 1, links[i].0);
    GroupsStay(links, i + 1, links[i].1);
  }

  /** Linking a with b, c with d and then b with c leaves b and c with different data. */
  lemma GroupsAreNotMerged(a: Alias, b: Alias, c: Alias, d: Alias)
    requires a != b && a != c && a != d && b != c && b != d && c != d
    ensures !Together(Populate([(a, b), (c, d), (b, c)]), (b, c))
  {
    var links := [(a, b), (c, d), (b, c)];
    assert links[..2] == [(a, b), (c, d)] && links[..2][..1] == [(a, b)] && links[..2][..1][..0] == [];
    assert Populate(links[..2][..1]) == DoLink(Empty(), a, b);
    assert Populate(links[..2]) == DoLink(DoLink(Empty(), a, b), c, d);
  }

  // ---------- alias strings ----------

  // The key the table uses.
  function Key(a: Alias): string {
    a.codelet.text + "_" + a.map_.text
  }

  /** Two aliases have the same key exactly when the longer codelet name continues the shorter one
      past an underscore, and the map names make up the difference. */
  lemma KeysCollide(a: Alias, b: Alias)
    requires |a.codelet.text| < |b.codelet.text|
    ensures Key(a) == Key(b) <==>
      exists w :: b.codelet.text == a.codelet.text + "_" + w && a.map_.text == w + "_" + b.map_.text
    ensures Key(a) == Key(b) ==> '_' in b.codelet.text
  {
    var n := |a.codelet.text|;
    if Key(a) == Key(b) {
      var w := b.codelet.text[n + 1..];
      assert Key(b)[..n] == b.codelet.text[..n] && Key(a)[..n] == a.codelet.text;
      assert Key(a)[n] == '_' && Key(b)[n] == b.codelet.text[n];
      assert b.codelet.text == b.codelet.text[..n] + [b.codelet.text[n]] + w;
      assert Key(a)[n + 1..] == a.map_.text && Key(b)[n + 1..] == w + "_" + b.map_.text;
      assert b.codelet.text == a.codelet.text + "_" + w && a.map_.text == w + "_" + b.map_.text;
    }
    if w :| b.codelet.text == a.codelet.text + "_" + w && a.map_.text == w + "_" + b.map_.text {
      assert Key(a) == a.codelet.text + "_" + (w + "_" + b.map_.text) == (a.codelet.text + "_" + w) + "_" + b.map_.text;
    }
  }

  /** Without underscores in codelet names, different aliases have different keys. */
  lemma KeysAreInjective(a: Alias, b: Alias)
    requires '_' !in a.codelet.text && '_' !in b.codelet.text && Key(a) == Key(b)
    ensures a == b
  {
    if |a.codelet.text| < |b.codelet.text| {
      KeysCollide(a, b);
    } else if |b.codelet.text| < |a.codelet.text| {
      KeysCollide(b, a);
    } else {
      var n := |a.codelet.text|;
      assert Key(a)[..n] == a.codelet.text && Key(b)[..n] == b.codelet.text;
      assert Key(a)[n + 1..] == a.map_.text && Key(b)[n + 1..] == b.map_.text;
    }
  }
}
