/**
 The codelet list of a hook: registration keeps it in descending priority, removal filters it.
 The functions specify one update; HookObject.Hook does it the way the runtime does, by
 copying into a fresh NULL-terminated array that then replaces the old one.
 */
module HookList {

  // fn is the JIT-compiled function; 0 is NULL.
  datatype Entry = Entry(fn: nat, prio: int, thresh: int)

  predicate Present(list: seq<Entry>, fn: nat) {
    exists i :: 0 <= i < |list| && list[i].fn == fn
  }

  // Before the first entry of lower priority.
  function Position(list: seq<Entry>, prio: int): (k: nat)
    ensures k <= |list|
    ensures forall i :: 0 <= i < k ==> list[i].prio >= prio
    ensures k < |list| ==> list[k].prio < prio
  {
    if list == [] || list[0].prio < prio then 0 else 1 + Position(list[1..], prio)
  }

  function Inserted(list: seq<Entry>, e: Entry): seq<Entry> {
    var k := Position(list, e.prio);
    list[..k] + [e] + list[k..]
  }

  function Without(list: seq<Entry>, fn: nat): seq<Entry> {
    if list == [] then []
    else if list[0].fn == fn then Without(list[1..], fn)
    else [list[0]] + Without(list[1..], fn)
  }

  // `memory` says whether the new array can be allocated.
  predicate Registers(list: seq<Entry>, ctrl: bool, e: Entry, memory: bool) {
    e.fn != 0 && !Present(list, e.fn) && (ctrl ==> list == []) && memory
  }

  predicate Removes(list: seq<Entry>, fn: nat, memory: bool) {
    Present(list, fn) && (memory || Without(list, fn) == [])
  }

  // ---------- runs of one hook ----------

  datatype Op = Register(e: Entry, memory: bool) | Remove(fn: nat, memory: bool)

  // The list after each update, and what is registered in the order of registration.
  datatype Hist = Hist(list: seq<Entry>, live: seq<Entry>)

  function Apply(h: Hist, ctrl: bool, op: Op): Hist {
    match op
    case Register(e, memory) =>
      if Registers(h.list, ctrl, e, memory) then Hist(Inserted(h.list, e), h.live + [e]) else h
    case Remove(fn, memory) =>
      if Removes(h.list, fn, memory) then Hist(Without(h.list, fn), Without(h.live, fn)) else h
  }

  function After(ctrl: bool, ops: seq<Op>): Hist {
    if ops == [] then Hist([], []) else Apply(After(ctrl, ops[..|ops| - 1]), ctrl, ops[|ops| - 1])
  }

  ghost predicate Descending(list: seq<Entry>) {
    forall i, j :: 0 <= i < j < |list| ==> list[i].prio >= list[j].prio
  }

  ghost predicate Distinct(list: seq<Entry>) {
    forall i, j :: 0 <= i < j < |list| ==> list[i].fn != list[j].fn
  }

  function OfPrio(list: seq<Entry>, p: int): seq<Entry> {
    if list == [] then []
    else if list[0].prio == p then [list[0]] + OfPrio(list[1..], p)
    else OfPrio(list[1..], p)
  }

  // The list is the stable sort of what is registered.
  ghost predicate Ordered(h: Hist, ctrl: bool) {
    && Descending(h.list) && Distinct(h.list)
    && (forall i :: 0 <= i < |h.list| ==> h.list[i].fn != 0)
    && (ctrl ==> |h.list| <= 1)
    && forall p: int :: OfPrio(h.list, p) == OfPrio(h.live, p)
  }

  // ---------- lemmas ----------

  lemma {:induction false} OfPrioNone(a: seq<Entry>, p: int)
    requires forall i :: 0 <= i < |a| ==> a[i].prio != p
    ensures OfPrio(a, p) == []
  {
    if a != [] { OfPrioNone(a[1..], p); }
  }

  lemma {:induction false} WithoutConcat(a: seq<Entry>, b: seq<Entry>, fn: nat)
    ensures Without(a + b, fn) == Without(a, fn) + Without(b, fn)
  {
    if a == [] {
      assert a + b == b;
    } else {
      assert (a + b)[1..] == a[1..] + b;
      WithoutConcat(a[1..], b, fn);
    }
  }

  lemma {:induction false} OfPrioWithout(a: seq<Entry>, fn: nat, p: int)
    ensures OfPrio(Without(a, fn), p) == Without(OfPrio(a, p), fn)
  {
    if a != [] {
      var rest := Without(a[1..], fn);
      assert ([a[0]] + rest)[1..] == rest;
      var group := OfPrio(a[1..], p);
      assert ([a[0]] + group)[1..] == group;
      OfPrioWithout(a[1..], fn, p);
    }
  }

  // Among equal priorities a new entry goes last.
  lemma {:induction false} InsertedGroups(a: seq<Entry>, b: seq<Entry>, e: Entry, p: int)
    requires forall i :: 0 <= i < |b| ==> b[i].prio < e.prio
    ensures OfPrio(a + [e] + b, p) == OfPrio(a + b, p) + (if p == e.prio then [e] else [])
  {
    if a == [] {
      assert (a + [e] + b)[1..] == b && a + b == b;
      if p == e.prio { OfPrioNone(b, p); }
    } else {
      assert (a + [e] + b)[1..] == a[1..] + [e] + b && (a + b)[1..] == a[1..] + b;
      InsertedGroups(a[1..], b, e, p);
    }
  }

  lemma InsertedOfPrio(list: seq<Entry>, e: Entry, p: int)
    requires Descending(list)
    ensures OfPrio(Inserted(list, e), p) == OfPrio(list, p) + (if p == e.prio then [e] else [])
  {
    var k := Position(list, e.prio);
    assert list == list[..k] + list[k..];
    InsertedGroups(list[..k], list[k..], e, p);
  }

  lemma InsertedSorted(list: seq<Entry>, e: Entry)
    requires Descending(list)
    ensures Descending(Inserted(list, e))
  {
    var k, r := Position(list, e.prio), Inserted(list, e);
    forall i, j | 0 <= i < j < |r| ensures r[i].prio >= r[j].prio {
      assert r[i] == if i < k then list[i] else if i == k then e else list[i - 1];
      assert r[j] == if j < k then list[j] else if j == k then e else list[j - 1];
    }
  }

  lemma InsertedDistinct(list: seq<Entry>, e: Entry)
    requires Distinct(list) && !Present(list, e.fn)
    ensures Distinct(Inserted(list, e))
  {
    var k, r := Position(list, e.prio), Inserted(list, e);
    forall i, j | 0 <= i < j < |r| ensures r[i].fn != r[j].fn {
      assert r[i] == if i < k then list[i] else if i == k then e else list[i - 1];
      assert r[j] == if j < k then list[j] else if j == k then e else list[j - 1];
    }
  }

  lemma {:induction false} WithoutMember(list: seq<Entry>, fn: nat, x: Entry)
    ensures x in Without(list, fn) <==> x in list && x.fn != fn
  {
    if list != [] {
      WithoutMember(list[1..], fn, x);
      assert x in list <==> x == list[0] || x in list[1..];
    }
  }

  // Adding an entry in front of a list.
  lemma ConsOrder(x: Entry, rest: seq<Entry>)
    requires forall y :: y in rest ==> x.prio >= y.prio && x.fn != y.fn
    ensures Descending(rest) ==> Descending([x] + rest)
    ensures Distinct(rest) ==> Distinct([x] + rest)
  {
    assert forall i :: 0 <= i < |rest| ==> rest[i] in rest;
  }

  // Removal keeps a subsequence: everything but fn, in the old order.
  lemma {:induction false} WithoutSub(list: seq<Entry>, fn: nat)
    requires Descending(list) && Distinct(list)
    ensures |Without(list, fn)| <= |list|
    ensures Descending(Without(list, fn)) && Distinct(Without(list, fn))
  {
    if list != [] {
      WithoutSub(list[1..], fn);
      var rest := Without(list[1..], fn);
      forall y | y in rest ensures list[0].prio >= y.prio && list[0].fn != y.fn {
        WithoutMember(list[1..], fn, y);
      }
      ConsOrder(list[0], rest);
    }
  }

  lemma {:induction false} WithoutAbsent(list: seq<Entry>, fn: nat)
    requires !Present(list, fn)
    ensures Without(list, fn) == list
  {
    if list != [] {
      assert list[0].fn != fn;
      assert !Present(list[1..], fn) by {
        assert forall i :: 0 <= i < |list| - 1 ==> list[1..][i] == list[i + 1];
      }
      WithoutAbsent(list[1..], fn);
    }
  }

  lemma {:induction false} WithoutInserted(a: seq<Entry>, b: seq<Entry>, e: Entry)
    ensures Without(a + [e] + b, e.fn) == Without(a + b, e.fn)
  {
    if a == [] {
      assert (a + [e] + b)[1..] == b && a + b == b;
    } else {
      assert (a + [e] + b)[1..] == a[1..] + [e] + b && (a + b)[1..] == a[1..] + b;
      WithoutInserted(a[1..], b, e);
    }
  }

  /** Registering an absent codelet and removing it again restores the list. */
  lemma RegisterThenRemove(list: seq<Entry>, e: Entry)
    requires !Present(list, e.fn)
    ensures Present(Inserted(list, e), e.fn) && Without(Inserted(list, e), e.fn) == list
  {
    var k := Position(list, e.prio);
    assert list == list[..k] + list[k..];
    WithoutInserted(list[..k], list[k..], e);
    WithoutAbsent(list, e.fn);
    assert Inserted(list, e)[k].fn == e.fn;
  }

  lemma InsertedPresent(list: seq<Entry>, e: Entry, fn: nat)
    ensures Present(Inserted(list, e), fn) <==> Present(list, fn) || e.fn == fn
  {
    var k, r := Position(list, e.prio), Inserted(list, e);
    assert r[k] == e;
    forall i | 0 <= i < |list| ensures list[i] == r[if i < k then i else i + 1] {}
    forall i | 0 <= i < |r| && i != k ensures r[i] == list[if i < k then i else i - 1] {}
  }

  lemma WithoutPresent(list: seq<Entry>, fn: nat, g: nat)
    ensures Present(Without(list, fn), g) <==> Present(list, g) && g != fn
  {
    var r := Without(list, fn);
    forall i | 0 <= i < |list| && list[i].fn != fn ensures list[i] in r { WithoutMember(list, fn, list[i]); }
    forall i | 0 <= i < |r| ensures r[i] in list && r[i].fn != fn { WithoutMember(list, fn, r[i]); }
  }

  lemma RegisterKeeps(h: Hist, ctrl: bool, e: Entry, memory: bool)
    requires Ordered(h, ctrl) && Registers(h.list, ctrl, e, memory)
    ensures Ordered(Apply(h, ctrl, Register(e, memory)), ctrl)
  {
    InsertedSorted(h.list, e);
    InsertedDistinct(h.list, e);
    forall p: int ensures OfPrio(Inserted(h.list, e), p) == OfPrio(h.live + [e], p) {
      InsertedOfPrio(h.list, e, p);
      InsertedGroups(h.live, [], e, p);
      assert h.live + [e] + [] == h.live + [e] && h.live + [] == h.live;
    }
  }

  lemma RemoveKeeps(h: Hist, ctrl: bool, fn: nat, memory: bool)
    requires Ordered(h, ctrl) && Removes(h.list, fn, memory)
    ensures Ordered(Apply(h, ctrl, Remove(fn, memory)), ctrl)
  {
    WithoutSub(h.list, fn);
    forall p: int ensures OfPrio(Without(h.list, fn), p) == OfPrio(Without(h.live, fn), p) {
      OfPrioWithout(h.list, fn, p);
      OfPrioWithout(h.live, fn, p);
    }
    var r := Without(h.list, fn);
    forall i | 0 <= i < |r| ensures r[i].fn != 0 { WithoutMember(h.list, fn, r[i]); }
  }

  /** After any sequence of registrations and removals, successful or not, the list is sorted by
      descending priority, equal priorities in registration order, without duplicates, and has
      at most one codelet on a control hook. */
  lemma {:induction false} ListIsStableSort(ctrl: bool, ops: seq<Op>)
    ensures Ordered(After(ctrl, ops), ctrl)
  {
    if ops != [] {
      var h, op := After(ctrl, ops[..|ops| - 1]), ops[|ops| - 1];
      ListIsStableSort(ctrl, ops[..|ops| - 1]);
      match op
      case Register(e, memory) => if Registers(h.list, ctrl, e, memory) { RegisterKeeps(h, ctrl, e, memory); }
      case Remove(fn, memory) => if Removes(h.list, fn, memory) { RemoveKeeps(h, ctrl, fn, memory); }
    }
  }

  lemma OfPrioPresent(a: seq<Entry>, b: seq<Entry>, fn: nat)
    requires forall p: int :: OfPrio(a, p) == OfPrio(b, p)
    ensures Present(a, fn) ==> Present(b, fn)
  {
    if i :| 0 <= i < |a| && a[i].fn == fn {
      OfPrioMember(a, a[i]);
      OfPrioMember(b, a[i]);
      var j :| 0 <= j < |b| && b[j] == a[i];
    }
  }

  /** After any updates, a registration adds its codelet last to what is registered exactly when it is for a function,
      no codelet of that function is registered, a control hook has none, and there is memory; otherwise it changes
      nothing. */
  lemma RegistersIff(ctrl: bool, ops: seq<Op>, e: Entry, memory: bool)
    ensures var h, h' := After(ctrl, ops), After(ctrl, ops + [Register(e, memory)]);
            if e.fn != 0 && memory && (ctrl ==> h.live == [])
              && (forall i :: 0 <= i < |h.live| ==> h.live[i].fn != e.fn)
            then h'.live == h.live + [e]
            else h' == h
  {
    var h := After(ctrl, ops);
    ListIsStableSort(ctrl, ops);
    assert (ops + [Register(e, memory)])[..|ops|] == ops;
    OfPrioPresent(h.list, h.live, e.fn);
    OfPrioPresent(h.live, h.list, e.fn);
    SameEmpty(h.list, h.live);
  }

  lemma SameEmpty(a: seq<Entry>, b: seq<Entry>)
    requires forall p: int :: OfPrio(a, p) == OfPrio(b, p)
    ensures a == [] <==> b == []
  {
    SomeGroup(a);
    SomeGroup(b);
    if a != [] { assert OfPrio(b, a[0].prio) != []; }
    if b != [] { assert OfPrio(a, b[0].prio) != []; }
  }

  lemma SameWithout(a: seq<Entry>, b: seq<Entry>, fn: nat)
    requires forall p: int :: OfPrio(a, p) == OfPrio(b, p)
    ensures Without(a, fn) == [] <==> Without(b, fn) == []
  {
    forall p: int ensures OfPrio(Without(a, fn), p) == OfPrio(Without(b, fn), p) {
      OfPrioWithout(a, fn, p);
      OfPrioWithout(b, fn, p);
    }
    SameEmpty(Without(a, fn), Without(b, fn));
  }

  // Those registered but for one function, in the same order.
  function RestOf(live: seq<Entry>, fn: nat): seq<Entry> {
    if live == [] then []
    else RestOf(live[..|live| - 1], fn) + (if live[|live| - 1].fn == fn then [] else [live[|live| - 1]])
  }

  lemma {:induction false} WithoutIsRest(live: seq<Entry>, fn: nat)
    ensures Without(live, fn) == RestOf(live, fn)
  {
    if live != [] {
      var before, last := live[..|live| - 1], live[|live| - 1];
      WithoutIsRest(before, fn);
      WithoutConcat(before, [last], fn);
      assert live == before + [last];
    }
  }

  /** A removal takes the codelet out of what is registered exactly when it is registered and either there is memory for
      the list without it or nothing else is registered; otherwise it changes nothing. */
  lemma RemovesIff(ctrl: bool, ops: seq<Op>, fn: nat, memory: bool)
    ensures var h, h' := After(ctrl, ops), After(ctrl, ops + [Remove(fn, memory)]);
            if (exists i :: 0 <= i < |h.live| && h.live[i].fn == fn) && (memory || RestOf(h.live, fn) == [])
            then h'.live == RestOf(h.live, fn)
            else h' == h
  {
    var h := After(ctrl, ops);
    ListIsStableSort(ctrl, ops);
    assert (ops + [Remove(fn, memory)])[..|ops|] == ops;
    OfPrioPresent(h.list, h.live, fn);
    OfPrioPresent(h.live, h.list, fn);
    SameWithout(h.list, h.live, fn);
    WithoutIsRest(h.live, fn);
  }

  lemma {:induction false} OfPrioMember(a: seq<Entry>, x: Entry)
    ensures x in OfPrio(a, x.prio) <==> x in a
  {
    if a != [] { OfPrioMember(a[1..], x); }
  }

  lemma SomeGroup(b: seq<Entry>)
    ensures b != [] ==> OfPrio(b, b[0].prio) != []
  {}

  /** The order is fully determined: a descending list is given by its equal-priority groups. */
  lemma {:induction false} StableSortUnique(a: seq<Entry>, b: seq<Entry>)
    requires Descending(a) && Descending(b) && forall p: int :: OfPrio(a, p) == OfPrio(b, p)
    ensures a == b
  {
    SomeGroup(b);
    if a != [] {
      OfPrioMember(b, a[0]);
      OfPrioMember(a, b[0]);
      OfPrioMember(a, a[0]);
      OfPrioMember(b, b[0]);
      assert a[0].prio == b[0].prio;
      assert OfPrio(a, a[0].prio)[0] == a[0] && OfPrio(b, a[0].prio)[0] == b[0];
      forall p: int ensures OfPrio(a[1..], p) == OfPrio(b[1..], p) {
        if a[0].prio == p {
          assert OfPrio(a[1..], p) == OfPrio(a, p)[1..];
          assert OfPrio(b[1..], p) == OfPrio(b, p)[1..];
        } else {
          assert OfPrio(a, p) == OfPrio(b, p);
        }
      }
      StableSortUnique(a[1..], b[1..]);
    }
  }
}
