/**
 The pool object itself: the operations as one thread runs them from start to end.
 Each method is proved to be a run of the steps of module Mempool.
 */
module MempoolObject {
  import opened Words
  import opened Mempool

  // num_elems: one less than the rounding of n_elems + 1, a 32-bit sum; an int, in which 2^31 does not fit.
  function NumElems(nElems: nat): int
    requires nElems < WORD
  {
    Wrap32(Wrap32(RoundUpPow2((nElems + 1) % WORD)) - 1)
  }

  // num_elems + 1, the size of the ring, an int as well.
  function RingSize(nElems: nat): int
    requires nElems < WORD
  {
    Wrap32(NumElems(nElems) + 1)
  }

  /** Up to 2^30 - 1 buffers, num_elems is one less than a power of two and not below n_elems. From 2^30 on the int
      overflows and the size of the ring is negative; from 2^31 on num_elems is too. */
  lemma NumElemsSpec(nElems: nat)
    requires nElems < WORD
    ensures nElems < 0x4000_0000 ==>
              && nElems <= NumElems(nElems) && RingSize(nElems) == NumElems(nElems) + 1
              && exists k: nat :: k <= 30 && NumElems(nElems) + 1 == Pow2(k)
    ensures 0x4000_0000 <= nElems < 0x8000_0000 ==> NumElems(nElems) == 0x7fff_ffff && RingSize(nElems) < 0
    ensures 0x8000_0000 <= nElems ==> NumElems(nElems) == -1
  {
    if nElems < 0x4000_0000 {
      var k := NumElemsFits(nElems);
    } else if nElems < 0x8000_0000 {
      NumElemsOverflows(nElems);
    } else {
      NumElemsNegative(nElems);
    }
  }

  lemma NumElemsNegative(nElems: nat)
    requires 0x8000_0000 <= nElems < WORD
    ensures NumElems(nElems) == -1
  {
    var x := (nElems + 1) % WORD;
    assert x == if nElems + 1 == WORD then 0 else nElems + 1;
    var k := RoundUpPow2Spec(x);
    assert RoundUpPow2(x) == 0;
    LessOne(0);
  }

  lemma NumElemsFits(nElems: nat) returns (k: nat)
    requires nElems < 0x4000_0000
    ensures nElems <= NumElems(nElems) && RingSize(nElems) == NumElems(nElems) + 1
    ensures k <= 30 && NumElems(nElems) + 1 == Pow2(k)
  {
    var x := (nElems + 1) % WORD;
    k := SmallRounds(x);
    LessOne(RoundUpPow2(x));
  }

  lemma LessOne(p: nat)
    ensures 1 <= p <= 0x4000_0000 ==> Wrap32(Wrap32(p) - 1) == p - 1 && Wrap32(p) == p
    ensures p == 0x8000_0000 ==> Wrap32(Wrap32(p) - 1) == p - 1 && Wrap32(p) < 0
    ensures p == 0 ==> Wrap32(Wrap32(p) - 1) == -1
  {}

  lemma NumElemsOverflows(nElems: nat)
    requires 0x4000_0000 <= nElems < 0x8000_0000
    ensures NumElems(nElems) == 0x7fff_ffff && RingSize(nElems) < 0
  {
    var x := (nElems + 1) % WORD;
    LargeRounds(x);
    LessOne(RoundUpPow2(x));
  }

  lemma SmallRounds(x: nat) returns (k: nat)
    requires 1 <= x <= 0x4000_0000
    ensures k <= 30 && x <= RoundUpPow2(x) == Pow2(k) <= 0x4000_0000
  {
    Pow2Of32();
    k := RoundUpPow2Spec(x);
    RoundUpPow2Least(x, 30);
    if k > 30 { Pow2Monotone(31, k); }
  }

  lemma LargeRounds(x: nat)
    requires 0x4000_0000 < x <= 0x8000_0000
    ensures RoundUpPow2(x) == 0x8000_0000
  {
    Pow2Of32();
    var k := RoundUpPow2Spec(x);
    if k <= 30 { Pow2Monotone(k, 30); }
  }

  // One whole jbpf_mbuf_free of a reference to b.
  function Freed(s: State, b: nat): State {
    var d := Do(s, FreeDec(b));
    if b in d.returning then Do(d, FreeReturn(b)) else d
  }

  lemma FreedSpec(s: State, b: nat)
    requires Reachable(s) && b in s.holds && s.returning == {}
    ensures Reachable(Freed(s, b))
    ensures |s.refs| == s.n + 1 && b < s.n && s.refs[b] > 0 && |s.ring| <= s.n
    ensures b in Do(s, FreeDec(b)).returning <==> s.refs[b] == 1
  {
    ReachableInv(s);
    InvStep(s, FreeDec(b));
    var d := Do(s, FreeDec(b));
    ReachableStep(s, FreeDec(b));
    if b in d.returning { ReachableStep(d, FreeReturn(b)); }
  }

  /** A free takes one reference back. The last one of a buffer puts it at the end of the free ring, or gives the pool
      back when the ring is full. */
  lemma FreedMeans(s: State, b: nat)
    requires Reachable(s) && b in s.holds && s.returning == {}
    ensures var s' := Freed(s, b);
            && s'.holds == s.holds - multiset{b} && s'.returning == {} && b < |s.refs| && s.refs[b] == s.holds[b]
            && s'.refs == s.refs[b := s.holds[b] - 1]
            && s'.ring == (if s.holds[b] == 1 && |s.ring| < s.n then s.ring + [b] else s.ring)
            && s'.released == s.released + (if s.holds[b] == 1 && |s.ring| >= s.n then 1 else 0)
            && s' == s.(holds := s'.holds, refs := s'.refs, ring := s'.ring, released := s'.released)
  {
    ReachableInv(s);
    InvStep(s, FreeDec(b));
  }

  /** Sharing a buffer and freeing it changes nothing. */
  lemma ShareThenFree(s: State, b: nat)
    requires Reachable(s) && b in s.holds && s.returning == {}
    ensures Freed(Do(s, Share(b)), b) == s
  {
    SharedSpec(s, b);
    FreedMeans(Do(s, Share(b)), b);
    ReachableInv(s);
    InvStep(s, Share(b));
    assert s.refs[b := s.refs[b] + 1][b := s.refs[b]] == s.refs;
  }

  // One whole jbpf_mbuf_alloc while the free ring is not empty.
  function Allocated(s: State): State
    requires s.allocMain && s.ring != []
  {
    Do(Do(Do(s, AllocLoad), AllocDequeue), AllocInit(s.ring[0]))
  }

  lemma AllocatedReachable(s: State)
    requires Reachable(s) && s.allocMain && s.ring != []
    ensures Reachable(Allocated(s))
    ensures |s.refs| == s.n + 1 && s.ring[0] < s.n
  {
    ReachableStep(s, AllocLoad);
    ReachableStep(Do(s, AllocLoad), AllocDequeue);
    ReachableStep(Do(Do(s, AllocLoad), AllocDequeue), AllocInit(s.ring[0]));
    ReachableInv(s);
    assert Places(s, s.ring[0]) == 1;
  }

  lemma AllocatedInv(s: State)
    requires Inv(s) && s.allocMain && s.ring != []
    ensures Alive(s) && Inv(Allocated(s))
  {
    InvStep(s, AllocLoad);
    InvStep(Do(s, AllocLoad), AllocDequeue);
    InvStep(Do(Do(s, AllocLoad), AllocDequeue), AllocInit(s.ring[0]));
  }

  /** Allocating hands out the oldest free buffer with one reference; freeing it puts it last in the free ring, and all
      else is as before. */
  lemma AllocThenFree(s: State)
    requires Reachable(s) && s.allocMain && s.ring != [] && s.returning == {}
    ensures var b, s' := s.ring[0], Allocated(s);
            && s'.ring == s.ring[1..] && s'.holds == s.holds + multiset{b} && s'.holds[b] == 1
            && b < |s'.refs| && s'.refs[b] == 1
            && Freed(s', b).ring == s.ring[1..] + [b] && Freed(s', b).holds == s.holds
            && Freed(s', b).released == s.released
  {
    var b := s.ring[0];
    AllocatedReachable(s);
    ReachableInv(s);
    AllocatedInv(s);
    assert Places(s, b) == 1;
    FreedMeans(Allocated(s), b);
  }

  lemma SharedSpec(s: State, b: nat)
    requires Reachable(s) && b in s.holds
    ensures Reachable(Do(s, Share(b))) && |s.refs| == s.n + 1 && b < s.n
  {
    ReachableStep(s, Share(b));
    ReachableInv(s);
    InvStep(s, Share(b));
  }

  lemma DestroyedSpec(s: State)
    requires Reachable(s) && s.allocMain && s.loads == 0 && s.starting == {} && s.returning == {}
    ensures !s.marked && s.released == 0 && |s.ring| <= s.n && Reachable(Do(Do(s, DestroySwap), DestroyMark))
    ensures Do(Do(s, DestroySwap), DestroyMark).released == 1 <==> s.holds == multiset{}
  {
    ReachableInv(s);
    ReachableStep(s, DestroySwap);
    ReachableStep(Do(s, DestroySwap), DestroyMark);
    var d := Do(Do(s, DestroySwap), DestroyMark);
    ReleasedExactlyWhenDrained(d);
    assert forall h :: h in s.holds ==> h in Outstanding(d);
  }

  class Pool {
    const n: nat
    var ring: seq<nat>
    var allocMain: bool
    const refs: array<nat>
    var marked: bool
    var released: nat
    ghost var holds: multiset<nat>

    ghost function View(): State
      reads this, refs
    {
      State(n, ring, allocMain, refs[..], marked, released, 0, {}, holds, {})
    }

    ghost predicate Valid()
      reads this, refs
    {
      refs.Length == n + 1 && Reachable(View())
    }

    // The pool record with an empty free ring.
    constructor (num: nat)
      ensures n == num && ring == [] && allocMain && !marked && released == 0 && holds == multiset{}
      ensures refs.Length == num + 1 && fresh(refs) && forall i :: 0 <= i <= num ==> refs[i] == 0
    {
      n, ring, allocMain, marked, released := num, [], true, false, 0;
      refs := new nat[num + 1](_ => 0);
      holds := multiset{};
    }

    /** jbpf_init_mempool_ctx: n is one less than a power of two, at least nElems, and all n
        buffers are free. `memory` says whether the allocations succeed; a negative size is an
        impossible amount of memory, and the overflow before it is taken to wrap. */
    static method Create(nElems: nat, memory: bool) returns (p: Pool?)
      requires nElems < WORD
      ensures p == null <==> !memory || nElems >= 0x4000_0000
      ensures p != null ==> fresh(p) && fresh(p.refs) && p.Valid() && p.View() == Init(p.n)
      ensures p != null ==> p.n == NumElems(nElems) >= nElems
    {
      NumElemsSpec(nElems);
      var num := NumElems(nElems);
      if num < 0 || RingSize(nElems) < 0 || !memory {
        return null;
      }
      p := new Pool(num);
      p.Fill();
    }

    // The loop that puts every buffer into the free ring.
    method Fill()
      requires refs.Length == n + 1 && ring == [] && allocMain && !marked && released == 0 && holds == multiset{}
      requires forall i :: 0 <= i <= n ==> refs[i] == 0
      modifies this`ring
      ensures Valid() && View() == Init(n)
    {
      for i := 0 to n
        invariant ring == seq(i, j => j)
      {
        ring := ring + [i];
      }
      assert refs[..] == seq(n + 1, _ => 0);
      ReachableInit(n);
    }

    /** jbpf_mbuf_alloc: hands out the oldest free buffer with one reference, or nothing
        exactly when the ring that serves allocations is empty. */
    method Alloc() returns (b: int)
      requires Valid() && (!allocMain ==> exists h :: h in holds)
      modifies this, refs
      ensures Valid()
      ensures old(allocMain && ring != []) ==> b == old(ring[0]) && View() == Allocated(old(View()))
      ensures !old(allocMain && ring != []) ==> b == -1 && View() == old(View())
    {
      if !allocMain || ring == [] {
        return -1;
      }
      AllocatedReachable(View());
      b := ring[0];
      ring := ring[1..];
      refs[b] := 1;
      holds := holds + multiset{b as nat};
      assert View() == Allocated(old(View()));
    }

    /** jbpf_mbuf_share */
    method Share(b: nat)
      requires Valid() && b in holds
      modifies this, refs
      ensures Valid() && View() == Do(old(View()), Mempool.Share(b))
    {
      SharedSpec(View(), b);
      refs[b] := refs[b] + 1;
      holds := holds + multiset{b};
      assert View() == Do(old(View()), Mempool.Share(b));
    }

    /** jbpf_mbuf_free: drops one reference; the last one returns the buffer, and the return
        that finds the ring full gives the pool memory back. */
    method Free(b: nat)
      requires Valid() && b in holds
      modifies this, refs
      ensures Valid()
      ensures View() == Freed(old(View()), b)
      ensures holds == old(holds) - multiset{b} && allocMain == old(allocMain) && marked == old(marked)
    {
      FreedSpec(View(), b);
      refs[b] := refs[b] - 1;
      holds := holds - multiset{b};
      if refs[b] == 0 {
        if |ring| >= n {
          released := released + 1;
        } else {
          ring := ring + [b];
        }
      }
      assert View() == Freed(old(View()), b);
    }

    /** jbpf_destroy_mempool */
    method Destroy()
      requires Valid() && allocMain && !marked
      modifies this
      ensures Valid() && View() == Do(Do(old(View()), DestroySwap), DestroyMark)
      ensures holds == old(holds) && (released == 1 <==> old(holds) == multiset{})
    {
      DestroyedSpec(View());
      allocMain := false;
      if |ring| >= n {
        released := released + 1;
      } else {
        ring := ring + [n];
      }
      marked := true;
      assert View() == Do(Do(old(View()), DestroySwap), DestroyMark);
    }
  }
}
