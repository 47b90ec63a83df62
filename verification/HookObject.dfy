/**
 A hook and its NULL-terminated codelet array. Updates never write into a published array: they
 fill a fresh one and publish it with a single store.
 */
module HookObject {
  import opened HookList

  const NULL_ENTRY := Entry(0, 0, 0)

  class Hook {
    const ctrl: bool
    var codelets: array?<Entry>

    ghost var list: seq<Entry>     // what the array holds

    // The array ends with its first NULL function, and is absent when there is no codelet.
    ghost predicate Valid()
      reads this, codelets
    {
      && (forall i :: 0 <= i < |list| ==> list[i].fn != 0)
      && (codelets == null ==> list == [])
      && (codelets != null ==> list != [] && Holds(codelets, list))
    }

    static ghost predicate Holds(a: array<Entry>, list: seq<Entry>)
      reads a
    {
      a.Length == |list| + 1 && a[..|list|] == list && a[|list|].fn == 0
    }

    constructor (isCtrl: bool)
      ensures Valid() && list == [] && ctrl == isCtrl
    {
      ctrl := isCtrl;
      codelets := null;
      list := [];
    }

    // The scan of jbpf_register_codelet_hook: number of codelets, where the new one goes
    // (-1 for the end), and whether it is there already.
    method Scan(a: array<Entry>, fn: nat, prio: int, ghost l: seq<Entry>) returns (nr: nat, pos: int, found: bool)
      requires Holds(a, l) && fn != 0 && forall i :: 0 <= i < |l| ==> l[i].fn != 0
      ensures found <==> Present(l, fn)
      ensures !found ==> nr == |l| && -1 <= pos <= nr && Position(l, prio) == if pos < 0 then nr else pos
    {
      nr, pos, found := 0, -1, false;
      assert forall i :: 0 <= i < |l| ==> a[i] == l[i];
      while a[nr].fn != 0
        invariant nr <= |l| && -1 <= pos < nr
        invariant forall i :: 0 <= i < nr ==> l[i].fn != fn
        invariant pos < 0 ==> forall i :: 0 <= i < nr ==> l[i].prio >= prio
        invariant pos >= 0 ==> l[pos].prio < prio && forall i :: 0 <= i < pos ==> l[i].prio >= prio
        decreases |l| - nr
      {
        if pos < 0 && a[nr].prio < prio {
          pos := nr;
        }
        if a[nr].fn == fn {
          return nr, pos, true;
        }
        nr := nr + 1;
      }
      PositionUnique(l, prio, if pos < 0 then nr else pos);
    }

    // The fresh array with e in place: memcpy of the parts before and after it.
    method Copy(a: array?<Entry>, nr: nat, pos: nat, e: Entry) returns (b: array<Entry>)
      requires pos <= nr && (a == null ==> nr == 0) && (a != null ==> nr < a.Length)
      ensures fresh(b) && b.Length == nr + 2 && b[nr + 1].fn == 0
      ensures a == null ==> b[..nr + 1] == [e]
      ensures a != null ==> b[..nr + 1] == a[..pos] + [e] + a[pos..nr]
    {
      b := new Entry[nr + 2](_ => NULL_ENTRY);
      if a != null {
        for i := 0 to pos
          invariant b[..i] == a[..i] && b[nr + 1].fn == 0
        {
          b[i] := a[i];
        }
        for i := pos to nr
          invariant b[..pos] == a[..pos] && b[nr + 1].fn == 0
          invariant b[pos + 1..i + 1] == a[pos..i]
        {
          b[i + 1] := a[i];
        }
      }
      b[pos] := e;
      assert a != null ==> b[..nr + 1] == b[..pos] + [e] + b[pos + 1..nr + 1];
    }

    // The array that replaces the current one when e is registered.
    method NewList(nr: nat, pos: int, e: Entry) returns (b: array<Entry>)
      requires Valid() && nr == |list| && -1 <= pos <= nr && Position(list, e.prio) == if pos < 0 then nr else pos
      ensures fresh(b) && Holds(b, Inserted(list, e))
    {
      b := Copy(codelets, nr, if pos < 0 then nr else pos, e);
    }

    /** jbpf_register_codelet_hook */
    method RegisterCodelet(fn: nat, thresh: int, prio: int, memory: bool) returns (ret: int)
      requires Valid()
      modifies this
      ensures Valid()
      ensures ret == 0 <==>
              fn != 0 && memory && (ctrl ==> old(list) == [])
                && forall i :: 0 <= i < |old(list)| ==> old(list)[i].fn != fn
      ensures ret == 0 ==> list == Inserted(old(list), Entry(fn, prio, thresh)) && fresh(codelets)
      ensures ret != 0 ==> ret == -1 && codelets == old(codelets) && list == old(list)
    {
      if fn == 0 {
        return -1;
      }
      var nr, pos := 0, -1;
      if codelets != null {
        var found;
        nr, pos, found := Scan(codelets, fn, prio, list);
        if found || (ctrl && nr > 0) {
          return -1;
        }
      }
      if !memory {
        return -1;
      }
      var replacement := NewList(nr, pos, Entry(fn, prio, thresh));
      InsertedNonNull(list, Entry(fn, prio, thresh));
      list := Inserted(list, Entry(fn, prio, thresh));
      codelets := replacement;
      ret := 0;
    }

    // How many codelets there are and how many of them are fn.
    method Count(a: array<Entry>, fn: nat, ghost l: seq<Entry>) returns (nr: nat, rem: nat)
      requires Holds(a, l) && forall i :: 0 <= i < |l| ==> l[i].fn != 0
      ensures nr == |l| && nr - rem == |Without(l, fn)|
      ensures rem == 0 <==> !Present(l, fn)
    {
      nr, rem := 0, 0;
      assert forall i :: 0 <= i < |l| ==> a[i] == l[i];
      while a[nr].fn != 0
        invariant nr <= |l| && nr - rem == |Without(l[..nr], fn)|
        invariant rem == 0 <==> forall i :: 0 <= i < nr ==> l[i].fn != fn
        decreases |l| - nr
      {
        WithoutNext(l, nr, fn);
        if a[nr].fn == fn {
          rem := rem + 1;
        }
        nr := nr + 1;
      }
      assert l[..nr] == l;
    }

    // The copy loop of jbpf_remove_codelet_hook.
    method CopyWithout(a: array<Entry>, fn: nat, nr: nat, rem: nat, ghost l: seq<Entry>) returns (b: array<Entry>)
      requires Holds(a, l) && nr == |l| && nr - rem == |Without(l, fn)| && forall i :: 0 <= i < |l| ==> l[i].fn != 0
      ensures fresh(b) && Holds(b, Without(l, fn))
    {
      b := new Entry[nr - rem + 1](_ => NULL_ENTRY);
      assert forall i :: 0 <= i < |l| ==> a[i] == l[i];
      var pos, i := 0, 0;
      while a[i].fn != 0
        invariant i <= nr && pos == |Without(l[..i], fn)| <= nr - rem
        invariant b[..pos] == Without(l[..i], fn)
        decreases nr - i
      {
        WithoutNext(l, i, fn);
        WithoutPrefix(l, i + 1, fn);
        if a[i].fn != fn {
          b[pos] := a[i];
          pos := pos + 1;
        }
        i := i + 1;
      }
      assert l[..i] == l;
      b[nr - rem] := NULL_ENTRY;
    }

    /** jbpf_remove_codelet_hook */
    method RemoveCodelet(fn: nat, memory: bool) returns (ret: int)
      requires Valid()
      modifies this
      ensures Valid()
      ensures ret == 0 <==>
              && (exists i :: 0 <= i < |old(list)| && old(list)[i].fn == fn)
              && (memory || forall i :: 0 <= i < |old(list)| ==> old(list)[i].fn == fn)
      ensures ret == 0 ==> list == Without(old(list), fn) && (codelets != null ==> fresh(codelets))
      ensures ret != 0 ==> ret == -1 && codelets == old(codelets) && list == old(list)
    {
      if codelets == null {
        return -1;
      }
      var nr, rem := Count(codelets, fn, list);
      if rem == 0 {
        return -1;
      }
      WithoutNonNull(list, fn);
      WithoutNoneIff(list, fn);
      if nr - rem == 0 {
        codelets := null;
      } else {
        if !memory {
          return -1;
        }
        codelets := CopyWithout(codelets, fn, nr, rem, list);
      }
      list := Without(list, fn);
      ret := 0;
    }

    /** A call of the hook: every codelet of the list, in order, each with its own runtime
        threshold set for the duration of the call. */
    method Run() returns (ran: seq<(nat, int)>)
      requires Valid()
      ensures |ran| == |list| && forall i :: 0 <= i < |ran| ==> ran[i] == (list[i].fn, list[i].thresh)
    {
      ran := [];
      if codelets != null {
        var ptr := 0;
        assert forall i :: 0 <= i < |list| ==> codelets[i] == list[i];
        while true
          invariant ptr < |list| && |ran| == ptr
          invariant forall i :: 0 <= i < |ran| ==> ran[i] == (list[i].fn, list[i].thresh)
          decreases |list| - ptr
        {
          ran := ran + [(codelets[ptr].fn, codelets[ptr].thresh)];
          ptr := ptr + 1;
          if codelets[ptr].fn == 0 {
            return;
          }
        }
      }
    }
  }

  lemma PositionUnique(list: seq<Entry>, prio: int, k: nat)
    requires k <= |list| && (forall i :: 0 <= i < k ==> list[i].prio >= prio) && (k < |list| ==> list[k].prio < prio)
    ensures Position(list, prio) == k
  {
    var j := Position(list, prio);
    assert !(j < k) && !(k < j);
  }

  lemma InsertedNonNull(list: seq<Entry>, e: Entry)
    requires e.fn != 0 && forall i :: 0 <= i < |list| ==> list[i].fn != 0
    ensures forall i :: 0 <= i < |Inserted(list, e)| ==> Inserted(list, e)[i].fn != 0
  {}

  lemma WithoutNext(a: seq<Entry>, k: nat, fn: nat)
    requires k < |a|
    ensures Without(a[..k + 1], fn) == Without(a[..k], fn) + (if a[k].fn == fn then [] else [a[k]])
  {
    WithoutConcat(a[..k], [a[k]], fn);
    assert a[..k + 1] == a[..k] + [a[k]];
  }

  lemma WithoutPrefix(a: seq<Entry>, k: nat, fn: nat)
    requires k <= |a|
    ensures |Without(a[..k], fn)| <= |Without(a, fn)|
  {
    WithoutConcat(a[..k], a[k..], fn);
    assert a == a[..k] + a[k..];
  }

  lemma {:induction false} WithoutNoneIff(a: seq<Entry>, fn: nat)
    ensures Without(a, fn) == [] <==> forall i :: 0 <= i < |a| ==> a[i].fn == fn
  {
    if a != [] {
      WithoutNoneIff(a[1..], fn);
      assert forall i :: 1 <= i < |a| ==> a[i] == a[1..][i - 1];
    }
  }

  lemma WithoutNonNull(a: seq<Entry>, fn: nat)
    requires forall i :: 0 <= i < |a| ==> a[i].fn != 0
    ensures forall i :: 0 <= i < |Without(a, fn)| ==> Without(a, fn)[i].fn != 0
  {
    var r := Without(a, fn);
    forall i | 0 <= i < |r| ensures r[i].fn != 0 { WithoutMember(a, fn, r[i]); }
  }
}
