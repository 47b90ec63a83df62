/**
 All the hooks of an agent, and what is left of them when some codelets are taken off.
 */
module HookTable {
  import opened HookList
  import LinkedMaps

  type Name = LinkedMaps.Name

  type Hooks = map<Name, seq<Entry>>

  // A list without the entries of some functions.
  function Stripped(list: seq<Entry>, fns: set<nat>): seq<Entry> {
    if list == [] then []
    else if list[0].fn in fns then Stripped(list[1..], fns)
    else [list[0]] + Stripped(list[1..], fns)
  }

  // Codelets as pairs of a hook and a function.
  type On = set<(Name, nat)>

  function At(on: On, hook: Name): set<nat> {
    set p | p in on && p.0 == hook :: p.1
  }

  function Unhooked(hooks: Hooks, on: On): Hooks {
    map h | h in hooks :: Stripped(hooks[h], At(on, h))
  }

  lemma {:induction false} StrippedNone(list: seq<Entry>)
    ensures Stripped(list, {}) == list
  {
    if list != [] { StrippedNone(list[1..]); }
  }

  lemma {:induction false} StrippedMore(list: seq<Entry>, fns: set<nat>, fn: nat)
    ensures Without(Stripped(list, fns), fn) == Stripped(list, fns + {fn})
  {
    if list != [] {
      var rest := Stripped(list[1..], fns);
      assert ([list[0]] + rest)[1..] == rest;
      StrippedMore(list[1..], fns, fn);
    }
  }

  lemma {:induction false} StrippedInsert(a: seq<Entry>, b: seq<Entry>, e: Entry, fns: set<nat>)
    requires e.fn in fns
    ensures Stripped(a + [e] + b, fns) == Stripped(a + b, fns)
  {
    if a == [] {
      assert (a + [e] + b)[1..] == b && a + b == b;
    } else {
      assert (a + [e] + b)[1..] == a[1..] + [e] + b && (a + b)[1..] == a[1..] + b;
      StrippedInsert(a[1..], b, e, fns);
    }
  }

  lemma {:induction false} StrippedAbsent(list: seq<Entry>, fns: set<nat>, fn: nat)
    requires !Present(list, fn)
    ensures Stripped(list, fns + {fn}) == Stripped(list, fns)
  {
    if list != [] {
      assert list[0].fn != fn;
      assert !Present(list[1..], fn) by {
        assert forall i :: 0 <= i < |list| - 1 ==> list[1..][i] == list[i + 1];
      }
      StrippedAbsent(list[1..], fns, fn);
    }
  }

  lemma {:induction false} StrippedMember(list: seq<Entry>, fns: set<nat>, x: Entry)
    ensures x in Stripped(list, fns) <==> x in list && x.fn !in fns
  {
    if list != [] {
      StrippedMember(list[1..], fns, x);
      assert x in list <==> x == list[0] || x in list[1..];
    }
  }

  lemma StrippedPresent(list: seq<Entry>, fns: set<nat>, g: nat)
    ensures Present(Stripped(list, fns), g) <==> Present(list, g) && g !in fns
  {
    var r := Stripped(list, fns);
    forall i | 0 <= i < |list| && list[i].fn !in fns ensures list[i] in r { StrippedMember(list, fns, list[i]); }
    forall i | 0 <= i < |r| ensures r[i] in list && r[i].fn !in fns { StrippedMember(list, fns, r[i]); }
  }

  /** Hooking an absent codelet changes nothing once it is taken off again, with any others. */
  lemma HookUnhook(hooks: Hooks, on: On, h: Name, e: Entry)
    requires h in hooks && !Present(hooks[h], e.fn)
    ensures Unhooked(hooks[h := Inserted(hooks[h], e)], on + {(h, e.fn)}) == Unhooked(hooks, on)
  {
    var list, k := hooks[h], Position(hooks[h], e.prio);
    var hooks', on' := hooks[h := Inserted(list, e)], on + {(h, e.fn)};
    forall g | g in hooks ensures Stripped(hooks'[g], At(on', g)) == Stripped(hooks[g], At(on, g)) {
      if g == h {
        assert At(on', h) == At(on, h) + {e.fn};
        assert list == list[..k] + list[k..];
        StrippedInsert(list[..k], list[k..], e, At(on', h));
        StrippedAbsent(list, At(on, h), e.fn);
      } else {
        assert At(on', g) == At(on, g);
      }
    }
  }

  /** Taking one more codelet off. */
  lemma UnhookMore(hooks: Hooks, on: On, h: Name, fn: nat)
    requires h in hooks
    ensures var now := Unhooked(hooks, on);
            now[h := Without(now[h], fn)] == Unhooked(hooks, on + {(h, fn)})
  {
    var on' := on + {(h, fn)};
    StrippedMore(hooks[h], At(on, h), fn);
    assert At(on', h) == At(on, h) + {fn};
    forall g | g in hooks && g != h ensures At(on', g) == At(on, g) {}
  }

  lemma UnhookedNone(hooks: Hooks)
    ensures Unhooked(hooks, {}) == hooks
  {
    forall h | h in hooks ensures Stripped(hooks[h], At({}, h)) == hooks[h] {
      assert At({}, h) == {};
      StrippedNone(hooks[h]);
    }
  }

  lemma UnhookedPresent(hooks: Hooks, on: On, h: Name, fn: nat)
    requires h in hooks
    ensures Present(Unhooked(hooks, on)[h], fn) <==> Present(hooks[h], fn) && (h, fn) !in on
  {
    StrippedPresent(hooks[h], At(on, h), fn);
    assert fn in At(on, h) <==> (h, fn) in on;
  }

  /** Taking off some of the codelets that were put on gives the hooks back exactly when it is all of them. */
  lemma RestoredIffAllOff(base: Hooks, now: Hooks, on: On, off: On)
    requires Unhooked(now, on) == base && off <= on
    requires forall p :: p in on ==> p.0 in now && Present(now[p.0], p.1)
    ensures Unhooked(now, off) == base <==> off == on
  {
    if off != on {
      var p :| p in on && p !in off;
      UnhookedPresent(now, on, p.0, p.1);
      UnhookedPresent(now, off, p.0, p.1);
    }
  }
}
