/**
 The primary's channel lists and the peers that own channels.

 A channel of one direction is in three places: a hash table keyed by stream id, a slot of a
 fixed-size array, and the counter of channels. A channel made for a peer lives in the peer's shared
 memory and is also in that peer's table; the primary's own channels live in its local memory.
 */
module ChannelRegistry {
  import opened Collections

  const MAX_CHANNELS: nat := 512
  const NULL: nat := 0

  datatype StreamId = StreamId(bytes: seq<nat>)

  // What the registry knows of a channel: its stream, and the peer in whose memory it was allocated.
  datatype Chan = Chan(stream: StreamId, peer: Option<nat>)

  // ht is the hash table, slots the array; chans gives the channel each pointer leads to.
  datatype Registry = Registry(ht: map<StreamId, nat>, slots: seq<nat>, chans: map<nat, Chan>)

  datatype Op = Add(p: nat, chan: Chan) | Drop(p: nat)

  function Empty(): Registry {
    Registry(map[], seq(MAX_CHANNELS, _ => NULL), map[])
  }

  // The first slot holding x.
  function FirstAt(slots: seq<nat>, x: nat): (k: nat)
    requires x in slots
    ensures k < |slots| && slots[k] == x && forall j :: 0 <= j < k ==> slots[j] != x
  {
    if slots[0] == x then 0
    else FirstAt(slots[1..], x) + 1
  }

  predicate CanAdd(r: Registry, p: nat, c: Chan) {
    |r.chans| < MAX_CHANNELS && c.stream !in r.ht && p != NULL && p !in r.chans && NULL in r.slots
  }

  // What one operation does; one that does not apply changes nothing.
  function Apply(r: Registry, op: Op): Registry {
    match op
    case Add(p, c) =>
      if !CanAdd(r, p, c) then r
      else Registry(r.ht[c.stream := p], r.slots[FirstAt(r.slots, NULL) := p], r.chans[p := c])
    case Drop(p) =>
      if !(p in r.chans && p in r.slots) then r
      else Registry(r.ht - {r.chans[p].stream}, r.slots[FirstAt(r.slots, p) := NULL], r.chans - {p})
  }

  function Replay(ops: seq<Op>): Registry {
    if ops == [] then Empty() else Apply(Replay(ops[..|ops| - 1]), ops[|ops| - 1])
  }

  // The table and the channels agree: each channel is under its own stream id.
  ghost predicate Keyed(ht: map<StreamId, nat>, chans: map<nat, Chan>) {
    && |ht| == |chans| <= MAX_CHANNELS
    && (forall id :: id in ht ==> ht[id] in chans && chans[ht[id]].stream == id)
    && (forall p :: p in chans ==> chans[p].stream in ht && ht[chans[p].stream] == p)
  }

  // The array and the channels agree: each channel is in one slot.
  ghost predicate Placed(slots: seq<nat>, chans: map<nat, Chan>) {
    && |slots| == MAX_CHANNELS && NULL !in chans
    && (forall p :: p in chans ==> p in slots)
    && (forall k :: 0 <= k < |slots| && slots[k] != NULL ==> slots[k] in chans)
    && (forall j, k :: 0 <= j < k < |slots| && slots[j] != NULL ==> slots[j] != slots[k])
  }

  ghost predicate Agree(r: Registry) {
    Keyed(r.ht, r.chans) && Placed(r.slots, r.chans)
  }

  lemma StillIn(slots: seq<nat>, k: nat, x: nat, q: nat)
    requires k < |slots| && q in slots && q != slots[k]
    ensures q in slots[k := x]
  {
    var i :| 0 <= i < |slots| && slots[i] == q;
    assert slots[k := x][i] == q;
  }

  lemma AddKeyed(ht: map<StreamId, nat>, chans: map<nat, Chan>, p: nat, c: Chan)
    requires Keyed(ht, chans) && |chans| < MAX_CHANNELS && p !in chans && c.stream !in ht
    ensures Keyed(ht[c.stream := p], chans[p := c])
  {}

  lemma DropKeyed(ht: map<StreamId, nat>, chans: map<nat, Chan>, p: nat)
    requires Keyed(ht, chans) && p in chans
    ensures Keyed(ht - {chans[p].stream}, chans - {p})
  {
    DropSize(ht, chans[p].stream);
    DropSize(chans, p);
  }

  lemma DropSize<K, V>(m: map<K, V>, k: K)
    requires k in m
    ensures |m - {k}| == |m| - 1
  {
    assert (m - {k}).Keys == m.Keys - {k};
    assert |m.Keys| == |m| && |(m - {k}).Keys| == |m - {k}|;
  }

  lemma AddPlaced(slots: seq<nat>, chans: map<nat, Chan>, p: nat, c: Chan, k: nat)
    requires Placed(slots, chans) && p != NULL && p !in chans && k < |slots| && slots[k] == NULL
    ensures Placed(slots[k := p], chans[p := c])
  {
    forall q | q in chans ensures q in slots[k := p] {
      StillIn(slots, k, p, q);
    }
    assert slots[k := p][k] == p;
  }

  lemma DropPlaced(slots: seq<nat>, chans: map<nat, Chan>, k: nat)
    requires Placed(slots, chans) && k < |slots| && slots[k] != NULL
    ensures Placed(slots[k := NULL], chans - {slots[k]})
  {
    forall q | q in chans && q != slots[k] ensures q in slots[k := NULL] {
      StillIn(slots, k, NULL, q);
    }
  }

  lemma ApplyAgrees(r: Registry, op: Op)
    requires Agree(r)
    ensures Agree(Apply(r, op))
  {
    match op
    case Add(p, c) =>
      if CanAdd(r, p, c) {
        AddKeyed(r.ht, r.chans, p, c);
        AddPlaced(r.slots, r.chans, p, c, FirstAt(r.slots, NULL));
      }
    case Drop(p) =>
      if p in r.chans {
        DropKeyed(r.ht, r.chans, p);
        DropPlaced(r.slots, r.chans, FirstAt(r.slots, p));
      }
  }

  /** After any operations the table, the array and the channels agree. */
  lemma {:induction false} ReplayAgrees(ops: seq<Op>)
    ensures Agree(Replay(ops))
  {
    if ops != [] {
      var before, op := ops[..|ops| - 1], ops[|ops| - 1];
      ReplayAgrees(before);
      ApplyAgrees(Replay(before), op);
    }
  }

  lemma FreeSlot(slots: seq<nat>, chans: map<nat, Chan>)
    requires Placed(slots, chans) && |chans| < MAX_CHANNELS
    ensures NULL in slots
  {
    if NULL !in slots {
      SetOfSize(slots);
      SubsetSize(SetOf(slots), chans.Keys);
    }
  }

  /** A channel is refused exactly when the list is full or its stream is taken. */
  lemma AddSpec(ops: seq<Op>, p: nat, c: Chan)
    requires p != NULL && p !in Replay(ops).chans
    ensures var r := Replay(ops);
            CanAdd(r, p, c) <==> |r.chans| < MAX_CHANNELS && c.stream !in r.ht
  {
    ReplayAgrees(ops);
    if |Replay(ops).chans| < MAX_CHANNELS { FreeSlot(Replay(ops).slots, Replay(ops).chans); }
  }

  lemma DropSpec(ops: seq<Op>, p: nat)
    requires p in Replay(ops).chans
    ensures p in Replay(ops).slots
  {
    ReplayAgrees(ops);
  }

  lemma ReplayNext(ops: seq<Op>, op: Op)
    ensures Replay(ops + [op]) == Apply(Replay(ops), op)
    ensures forall output :: Trace(ops + [op], output) == Trace(ops, output) + AccessesOf(Replay(ops), op, output)
  {
    assert (ops + [op])[..|ops|] == ops;
  }

  // ---------- accesses to the memory of channels ----------

  datatype Access = Alloc(p: nat) | Read(p: nat) | Free(p: nat)

  // Destroying a channel reads its stream id to remove it and frees it at the barrier; for an output channel the stream
  // id is then read once more, for the log.
  function DestroyAccesses(p: nat, output: bool): seq<Access> {
    if output then [Read(p), Free(p), Read(p)] else [Read(p), Free(p)]
  }

  function AccessesOf(r: Registry, op: Op, output: bool): seq<Access> {
    match op
    case Add(p, c) => if CanAdd(r, p, c) then [Alloc(p)] else []
    case Drop(p) => if p in r.chans && p in r.slots then DestroyAccesses(p, output) else []
  }

  // The accesses of all operations of a list of that direction.
  function Trace(ops: seq<Op>, output: bool): seq<Access> {
    if ops == [] then []
    else Trace(ops[..|ops| - 1], output) + AccessesOf(Replay(ops[..|ops| - 1]), ops[|ops| - 1], output)
  }

  function Touch(live: set<nat>, x: Access): set<nat> {
    match x
    case Alloc(p) => live + {p}
    case Read(p) => live
    case Free(p) => live - {p}
  }

  // The channels allocated and not freed.
  function Live(trace: seq<Access>): set<nat> {
    if trace == [] then {} else Touch(Live(trace[..|trace| - 1]), trace[|trace| - 1])
  }

  // No freed channel is read.
  predicate Safe(trace: seq<Access>) {
    trace == [] ||
    var before, last := trace[..|trace| - 1], trace[|trace| - 1];
    Safe(before) && (last.Read? ==> last.p in Live(before))
  }

  lemma TraceNext(trace: seq<Access>, x: Access)
    ensures Safe(trace + [x]) <==> Safe(trace) && (x.Read? ==> x.p in Live(trace))
    ensures Live(trace + [x]) == Touch(Live(trace), x)
  {
    assert (trace + [x])[..|trace|] == trace;
  }

  lemma DestroyTrace(trace: seq<Access>, p: nat, output: bool)
    requires p in Live(trace)
    ensures Live(trace + DestroyAccesses(p, output)) == Live(trace) - {p}
    ensures Safe(trace + DestroyAccesses(p, output)) <==> Safe(trace) && !output
  {
    var t1, t2 := trace + [Read(p)], trace + [Read(p)] + [Free(p)];
    TraceNext(trace, Read(p));
    TraceNext(t1, Free(p));
    assert trace + [Read(p), Free(p)] == t2;
    if output {
      TraceNext(t2, Read(p));
      assert trace + DestroyAccesses(p, output) == t2 + [Read(p)];
    }
  }

  // Operation i destroys a channel.
  predicate Destroys(ops: seq<Op>, i: nat)
    requires i < |ops|
  {
    Drops(Replay(ops[..i]), ops[i])
  }

  predicate Drops(r: Registry, op: Op) {
    op.Drop? && op.p in r.chans && op.p in r.slots
  }

  lemma StepTrace(t: seq<Access>, r: Registry, op: Op, output: bool)
    requires Live(t) == r.chans.Keys
    ensures Live(t + AccessesOf(r, op, output)) == Apply(r, op).chans.Keys
    ensures Safe(t + AccessesOf(r, op, output)) <==> Safe(t) && !(output && Drops(r, op))
  {
    if op.Add? && CanAdd(r, op.p, op.chan) {
      TraceNext(t, Alloc(op.p));
    } else if Drops(r, op) {
      DestroyTrace(t, op.p, output);
    } else {
      assert t + [] == t;
    }
  }

  ghost predicate SomeDestroyed(ops: seq<Op>) {
    exists i :: 0 <= i < |ops| && Destroys(ops, i)
  }

  lemma DestroyedMore(ops: seq<Op>)
    requires ops != []
    ensures SomeDestroyed(ops) <==> SomeDestroyed(ops[..|ops| - 1]) || Destroys(ops, |ops| - 1)
  {
    var n := |ops| - 1;
    forall i: nat | i < n ensures Destroys(ops[..n], i) <==> Destroys(ops, i) { assert ops[..n][..i] == ops[..i]; }
    if i :| 0 <= i < n && Destroys(ops[..n], i) { assert Destroys(ops, i); }
    if i :| 0 <= i < n && Destroys(ops, i) { assert Destroys(ops[..n], i); }
  }

  /** Whatever channels are made and destroyed, no freed channel is read in a list of input channels; in one of output
      channels none is exactly as long as no channel has been destroyed. */
  lemma {:induction false} FreedIsNotReadIff(ops: seq<Op>, output: bool)
    ensures Live(Trace(ops, output)) == Replay(ops).chans.Keys
    ensures Safe(Trace(ops, output)) <==> !(output && SomeDestroyed(ops))
  {
    if ops != [] {
      var before, op := ops[..|ops| - 1], ops[|ops| - 1];
      FreedIsNotReadIff(before, output);
      DestroyedMore(ops);
      StepTrace(Trace(before, output), Replay(before), op, output);
    }
  }

  /** One output channel made and destroyed: its stream id is read after it is freed. */
  lemma OutputReadAfterFree(p: nat, c: Chan)
    requires p != NULL
    ensures !Safe(Trace([Add(p, c), Drop(p)], true)) && Safe(Trace([Add(p, c), Drop(p)], false))
  {
    var ops := [Add(p, c), Drop(p)];
    assert ops[..1] == [Add(p, c)] && ops[..1][..0] == [] && Replay([]) == Empty();
    assert NULL in Empty().slots by { assert Empty().slots[0] == NULL; }
    assert Replay(ops[..1]) == Apply(Empty(), Add(p, c));
    var r := Replay(ops[..1]);
    assert p in r.chans && r.slots[FirstAt(Empty().slots, NULL)] == p;
    assert Destroys(ops, 1);
    FreedIsNotReadIff(ops, true);
    FreedIsNotReadIff(ops, false);
  }

  // in_channel_list or out_channel_list
  class ChannelList {
    const output: bool
    ghost var trace: seq<Access>
    var ht: map<StreamId, nat>
    const slots: array<nat>
    var num: nat
    var chans: map<nat, Chan>
    ghost var ops: seq<Op>

    // The list is what its operations so far make it.
    ghost predicate Valid() reads this, slots {
      Registry(ht, slots[..], chans) == Replay(ops) && num == |chans| && trace == Trace(ops, output)
    }

    constructor (output: bool)
      ensures Valid() && this.output == output && chans == map[] && fresh(slots)
    {
      this.output := output;
      ht, num, chans, ops, trace := map[], 0, map[], [], [];
      slots := new nat[MAX_CHANNELS](_ => NULL);
      new;
      assert slots[..] == Empty().slots;
    }

    // The searching loops: the first slot that holds x.
    method Search(x: nat) returns (k: nat)
      requires x in slots[..]
      ensures k < slots.Length && k == FirstAt(slots[..], x)
    {
      k := 0;
      while slots[k] != x
        invariant 0 <= k <= FirstAt(slots[..], x)
        decreases slots.Length - k
      {
        k := k + 1;
      }
    }

    /** _jbpf_io_create_channel: made is the channel, or None when its memory, its type or its serde fails.
        A new channel is added exactly when there is room and its stream is new; otherwise nothing changes. */
    method Create(id: StreamId, peer: Option<nat>, made: Option<nat>) returns (p: nat)
      requires Valid() && (made.Some? ==> made.value != NULL && made.value !in chans)
      modifies this, slots
      ensures Valid()
      ensures p != NULL <==> old(|chans|) < MAX_CHANNELS && id !in old(ht) && made.Some?
      ensures p == NULL ==> ht == old(ht) && chans == old(chans)
      ensures p != NULL ==> made == Some(p) && ht == old(ht)[id := p] && chans == old(chans)[p := Chan(id, peer)]
    {
      if num >= MAX_CHANNELS || id in ht || made.None? {
        return NULL;
      }
      p := made.value;
      AddSpec(ops, p, Chan(id, peer));
      ReplayNext(ops, Add(p, Chan(id, peer)));
      ghost var before := slots[..];
      ht := ht[id := p];
      var k := Search(NULL);
      slots[k] := p;
      num := num + 1;
      chans := chans[p := Chan(id, peer)];
      ops := ops + [Add(p, Chan(id, peer))];
      trace := trace + [Alloc(p)];
      assert slots[..] == before[k := p];
    }

    /** jbpf_io_destroy_in_channel, jbpf_io_destroy_out_channel: the channel leaves all three places */
    method Destroy(p: nat)
      requires Valid() && p in chans
      modifies this, slots
      ensures Valid()
      ensures chans == old(chans) - {p} && ht == old(ht) - {old(chans)[p].stream}
    {
      DropSpec(ops, p);
      DropSize(chans, p);
      ReplayNext(ops, Drop(p));
      ghost var before := slots[..];
      var k := Search(p);
      slots[k] := NULL;
      num := num - 1;
      ht := ht - {chans[p].stream};
      chans := chans - {p};
      trace := trace + DestroyAccesses(p, output);
      ops := ops + [Drop(p)];
      assert slots[..] == before[k := NULL];
    }

    /** The loop of _jbpf_io_ipc_force_remove_all_peer_channels over a table of exactly the peer's channels */
    method DestroyAll(table: map<StreamId, nat>, ghost fd: nat)
      requires Valid() && InTable(chans, table) && chans - table.Values == Others(chans, fd)
      modifies this, slots
      ensures Valid()
      ensures chans == Others(old(chans), fd)
    {
      var left := table;
      while left != map[]
        invariant Valid()
        invariant Partly(old(chans), chans, table, left)
        decreases |left|
      {
        var id :| id in left;
        DropOne(old(chans), chans, table, left, id);
        Destroy(left[id]);
        left := left - {id};
      }
      AllDropped(old(chans), chans, table);
    }
  }

  // Without the channels of a peer.
  function Others(chans: map<nat, Chan>, fd: nat): map<nat, Chan> {
    map p | p in chans && chans[p].peer != Some(fd) :: chans[p]
  }

  ghost predicate InTable(chans: map<nat, Chan>, table: map<StreamId, nat>) {
    forall id :: id in table ==> table[id] in chans && chans[table[id]].stream == id
  }

  // Destroying the channels of a table, with those of left still to go.
  ghost predicate Partly(all: map<nat, Chan>, chans: map<nat, Chan>, table: map<StreamId, nat>,
      left: map<StreamId, nat>)
  {
    && left.Keys <= table.Keys && (forall id :: id in left ==> left[id] == table[id])
    && InTable(all, table)
    && chans == all - (set id | id in table && id !in left :: table[id])
  }

  lemma DropOne(all: map<nat, Chan>, chans: map<nat, Chan>, table: map<StreamId, nat>, left: map<StreamId, nat>,
      id: StreamId)
    requires Partly(all, chans, table, left) && id in left
    ensures left[id] in chans && Partly(all, chans - {left[id]}, table, left - {id})
  {
    assert table[id] == left[id];
  }

  lemma AllDropped(all: map<nat, Chan>, chans: map<nat, Chan>, table: map<StreamId, nat>)
    requires Partly(all, chans, table, map[])
    ensures chans == all - table.Values
  {
    var none: map<StreamId, nat> := map[];
    assert (set id | id in table && id !in none :: table[id]) == table.Values;
  }

  // ---------- peers ----------

  type Table = map<StreamId, nat>
  type Tables = map<nat, Table>

  function Put(table: Table, id: StreamId, p: nat): Table {
    table[id := p]
  }

  // A peer's table holds registered channels in that peer's memory, under their own streams.
  ghost predicate Owned(chans: map<nat, Chan>, tables: Tables) {
    forall fd, id :: fd in tables && id in tables[fd] ==>
      tables[fd][id] in chans && chans[tables[fd][id]] == Chan(id, Some(fd))
  }

  // A registered channel in a peer's memory is in the table of that peer, which is registered.
  ghost predicate Covered(chans: map<nat, Chan>, tables: Tables) {
    forall p :: p in chans && chans[p].peer.Some? ==>
      && chans[p].peer.value in tables
      && chans[p].stream in tables[chans[p].peer.value]
      && tables[chans[p].peer.value][chans[p].stream] == p
  }

  lemma TableIsPeer(chans: map<nat, Chan>, tables: Tables, fd: nat)
    requires Owned(chans, tables) && Covered(chans, tables) && fd in tables
    ensures InTable(chans, tables[fd])
    ensures chans - tables[fd].Values == Others(chans, fd)
    ensures Owned(Others(chans, fd), tables - {fd}) && Covered(Others(chans, fd), tables - {fd})
  {
    forall p | p in chans ensures p in tables[fd].Values <==> chans[p].peer == Some(fd) {
      if p in tables[fd].Values {
        var id :| id in tables[fd] && tables[fd][id] == p;
        assert tables[fd][id] in chans;
      }
      if chans[p].peer == Some(fd) {
        assert tables[fd][chans[p].stream] == p;
      }
    }
  }

  lemma NoTable(chans: map<nat, Chan>, tables: Tables, fd: nat)
    requires Covered(chans, tables) && fd !in tables
    ensures chans == Others(chans, fd) && tables == tables - {fd}
  {}

  lemma NewToPeer(ops: seq<Op>, tables: Tables, fd: nat, id: StreamId)
    requires Owned(Replay(ops).chans, tables) && fd in tables && id !in Replay(ops).ht
    ensures id !in tables[fd]
  {
    ReplayAgrees(ops);
  }

  lemma AddOwned(chans: map<nat, Chan>, tables: Tables, fd: nat, id: StreamId, p: nat)
    requires Owned(chans, tables) && Covered(chans, tables) && fd in tables && p !in chans && id !in tables[fd]
    ensures Owned(chans[p := Chan(id, Some(fd))], tables[fd := Put(tables[fd], id, p)])
    ensures Covered(chans[p := Chan(id, Some(fd))], tables[fd := Put(tables[fd], id, p)])
  {}

  lemma DropOwned(chans: map<nat, Chan>, tables: Tables, fd: nat, id: StreamId)
    requires Owned(chans, tables) && Covered(chans, tables) && fd in tables && id in tables[fd]
    ensures Owned(chans - {tables[fd][id]}, tables[fd := tables[fd] - {id}])
    ensures Covered(chans - {tables[fd][id]}, tables[fd := tables[fd] - {id}])
  {
    var p := tables[fd][id];
    assert chans[p] == Chan(id, Some(fd));
    forall fd', id' | fd' in tables && id' in tables[fd'] && tables[fd'][id'] == p ensures fd' == fd && id' == id {
      assert chans[tables[fd'][id']] == Chan(id', Some(fd'));
    }
  }

  // The channels of one direction, with every peer's table for it.
  class Direction {
    const list: ChannelList
    var tables: Tables

    ghost predicate Valid() reads this, list, list.slots {
      list.Valid() && Owned(list.chans, tables) && Covered(list.chans, tables)
    }

    constructor (output: bool)
      ensures Valid() && list.output == output && tables == map[] && list.chans == map[] && fresh(list)
              && fresh(list.slots)
    {
      list := new ChannelList(output);
      tables := map[];
    }

    /** A peer that has just registered has no channels. */
    method AddPeer(fd: nat)
      requires Valid() && fd !in tables
      modifies this
      ensures Valid() && tables == old(tables)[fd := map[]]
    {
      tables := tables[fd := map[]];
    }

    /** jbpf_io_ipc_handle_ch_create_req; an unknown peer gets nothing */
    method CreateFor(fd: nat, id: StreamId, made: Option<nat>) returns (p: nat)
      requires Valid() && (made.Some? ==> made.value != NULL && made.value !in list.chans)
      modifies this, list, list.slots
      ensures Valid() && tables.Keys == old(tables).Keys
      ensures p != NULL <==> fd in old(tables) && old(|list.chans|) < MAX_CHANNELS && id !in old(list.ht) && made.Some?
      ensures list.chans == if p == NULL then old(list.chans) else old(list.chans)[p := Chan(id, Some(fd))]
    {
      if fd !in tables {
        return NULL;
      }
      ghost var c := list.chans;
      if id !in list.ht {
        NewToPeer(list.ops, tables, fd, id);
      }
      p := list.Create(id, Some(fd), made);
      if p != NULL {
        AddOwned(c, tables, fd, id, p);
        tables := tables[fd := Put(tables[fd], id, p)];
      }
    }

    /** jbpf_io_ipc_handle_local_ch_create_req: a channel in the primary's own memory */
    method CreateLocal(id: StreamId, made: Option<nat>) returns (p: nat)
      requires Valid() && (made.Some? ==> made.value != NULL && made.value !in list.chans)
      modifies list, list.slots
      ensures Valid()
      ensures p != NULL <==> old(|list.chans|) < MAX_CHANNELS && id !in old(list.ht) && made.Some?
      ensures list.chans == if p == NULL then old(list.chans) else old(list.chans)[p := Chan(id, None)]
    {
      p := list.Create(id, None, made);
    }

    /** jbpf_io_ipc_handle_ch_destroy: a peer names a live channel of its own */
    method DestroyFor(fd: nat, p: nat)
      requires Valid() && p in list.chans && list.chans[p].peer == Some(fd)
      modifies this, list, list.slots
      ensures Valid() && tables.Keys == old(tables).Keys
      ensures list.chans == old(list.chans) - {p}
    {
      var id := list.chans[p].stream;
      DropOwned(list.chans, tables, fd, id);
      tables := tables[fd := tables[fd] - {id}];
      list.Destroy(p);
    }

    /** jbpf_io_ipc_remove_peer: after it the peer's memory can be released, since no registered
        channel is in it, and the channels of everyone else are as before. */
    method RemovePeer(fd: nat)
      requires Valid()
      modifies this, list, list.slots
      ensures Valid() && tables == old(tables) - {fd}
      ensures list.chans == Others(old(list.chans), fd)
    {
      ghost var c, t := list.chans, tables;
      if fd in tables {
        TableIsPeer(c, t, fd);
        list.DestroyAll(tables[fd], fd);
        tables := tables - {fd};
      } else {
        NoTable(c, t, fd);
      }
    }
  }

  /** A request to destroy another peer's channel would leave that peer's table pointing at a freed
      channel: the requirement of DestroyFor is exactly what keeps the tables sound. */
  lemma OnlyOwnChannels(chans: map<nat, Chan>, tables: Tables, fd: nat, p: nat)
    requires Owned(chans, tables) && Covered(chans, tables) && fd in tables && p in chans && chans[p].peer.Some?
    ensures Owned(chans - {p}, tables[fd := tables[fd] - {chans[p].stream}]) <==> chans[p].peer == Some(fd)
  {
    var id, owner := chans[p].stream, chans[p].peer.value;
    if owner == fd {
      DropOwned(chans, tables, fd, id);
    } else {
      var tables' := tables[fd := tables[fd] - {id}];
      assert owner in tables' && id in tables'[owner] && tables'[owner][id] == p;
    }
  }
}
