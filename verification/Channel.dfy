/**
 A channel: the per-thread reservation slots and the message ring on top of a buffer pool.

 Sending is reserve, write, submit; receiving dequeues a buffer whose reference the receiver
 then owns, may share, and must release. All threads' steps interleave arbitrarily; `owner`
 records, for every buffer that is out of the free ring, who has it.
 */
module Channel {
  import opened Words
  import opened Collections
  import Mempool
  import opened MempoolObject

  type Bytes = seq<bv8>

  datatype Owner = Reserved(t: nat) | Queued | Received | Returning

  datatype State = State(
    pool: Mempool.State,
    maxEntries: nat,
    threads: nat,                  // JBPF_IO_MAX_NUM_THREADS
    elemSize: nat,
    cap: nat,                      // messages the ring can hold
    allocPtr: map<nat, nat>,       // alloc_ptr: thread -> reserved buffer
    stale: map<nat, nat>,          // the slots of alloc_ptr whose buffer is enqueued and that are still to be cleared
    ring: seq<nat>,                // submitted, not yet received
    content: map<nat, Bytes>,      // what each buffer holds
    received: multiset<nat>,       // references in receivers' hands
    // history
    owner: map<nat, Owner>,
    sent: seq<Bytes>,              // contents at submission, in order
    got: seq<Bytes>,               // contents at reception, in order
    seen: map<nat, Bytes>)         // content of a buffer when it was received

  datatype Step =
    | Reserve(t: nat)
    | Write(t: nat, data: Bytes)   // memcpy into the reserved buffer
    | Submit(t: nat)               // jbpf_io_queue_enqueue, up to putting the buffer into the ring
    | ClearSlot(t: nat)            // and alloc_ptr[t] = NULL
    | Receive
    | Share(b: nat)                // jbpf_io_channel_share_data_ptr
    | ReleaseDec(b: nat)           // jbpf_io_channel_release_buf, up to the decrement
    | ReleaseReturn(b: nat)        // and the return of a buffer with no reference left

  // ring_size = round_up_pow_of_two(num_elems + 1), of which one cell stays empty.
  function RingCapacity(n: nat): nat
    requires n + 1 < WORD
  {
    if RoundUpPow2(n + 1) == 0 then 0 else RoundUpPow2(n + 1) - 1
  }

  // A channel for maxEntries messages, over a pool that also has one buffer for each thread.
  function Init(maxEntries: nat, threads: nat, elemSize: nat, content: map<nat, Bytes>): State
    requires maxEntries + threads < 0x4000_0000
  {
    NumElemsSpec(maxEntries + threads);
    PoolFits(maxEntries + threads);
    var n := NumElems(maxEntries + threads);
    State(Mempool.Init(n), maxEntries, threads, elemSize, RingCapacity(n), map[], map[], [], content, multiset{},
          map[], [], [], map[])
  }

  lemma PoolFits(nElems: nat)
    requires nElems < 0x4000_0000
    ensures 0 <= NumElems(nElems) && NumElems(nElems) + 1 < WORD
    ensures RingCapacity(NumElems(nElems)) == NumElems(nElems)
  {
    NumElemsSpec(nElems);
    var n := NumElems(nElems);
    var k: nat :| k <= 30 && n + 1 == Pow2(k);
    Pow2Of32();
    Pow2Monotone(k, 31);
    RoundUpPow2Least(n + 1, k);
  }

  predicate CanDo(s: State, step: Step) {
    match step
    case Reserve(t) => t < s.threads && t !in s.stale
    case Write(t, data) => t in s.allocPtr && |data| <= s.elemSize
    case Submit(t) => t < s.threads && t !in s.stale
    case ClearSlot(t) => t in s.stale
    case Receive => true
    case Share(b) => b in s.received
    case ReleaseDec(b) => b in s.received
    case ReleaseReturn(b) => b in s.pool.returning
  }

  function At(content: map<nat, Bytes>, b: nat): Bytes {
    if b in content then content[b] else []
  }

  // memcpy(buf, data, |data|)
  function Overwrite(buf: Bytes, data: Bytes): Bytes {
    if |data| <= |buf| then data + buf[|data|..] else data
  }

  function Do(s: State, step: Step): State
    requires CanDo(s, step)
  {
    match step
    case Reserve(t) =>
      if t in s.allocPtr || !s.pool.allocMain || s.pool.ring == [] then s
      else
        var b := s.pool.ring[0];
        s.(pool := Allocated(s.pool), allocPtr := s.allocPtr[t := b], owner := s.owner[b := Reserved(t)])
    case Write(t, data) =>
      var b := s.allocPtr[t];
      s.(content := s.content[b := Overwrite(At(s.content, b), data)])
    case Submit(t) =>
      if t !in s.allocPtr || |s.ring| >= s.cap then s
      else
        var b := s.allocPtr[t];
        s.(ring := s.ring + [b], allocPtr := s.allocPtr - {t}, stale := s.stale[t := b], owner := s.owner[b := Queued],
           sent := s.sent + [At(s.content, b)])
    case ClearSlot(t) => s.(stale := s.stale - {t})
    case Receive =>
      if s.ring == [] then s
      else
        var b := s.ring[0];
        s.(ring := s.ring[1..], received := s.received + multiset{b}, owner := s.owner[b := Received],
           got := s.got + [At(s.content, b)], seen := s.seen[b := At(s.content, b)])
    case Share(b) =>
      s.(pool := Mempool.Do(s.pool, Mempool.Share(b)), received := s.received + multiset{b})
    case ReleaseDec(b) =>
      var p := Mempool.Do(s.pool, Mempool.FreeDec(b));
      s.(pool := p, received := s.received - multiset{b},
         owner := if b in p.returning then s.owner[b := Returning] else s.owner)
    case ReleaseReturn(b) =>
      s.(pool := Mempool.Do(s.pool, Mempool.FreeReturn(b)), owner := s.owner - {b})
  }

  // ---------- the invariant ----------

  predicate Has(owner: map<nat, Owner>, b: nat, o: Owner) {
    b in owner && owner[b] == o
  }

  ghost predicate PoolOk(p: Mempool.State) {
    Mempool.Alive(p) && p.allocMain && p.starting == {} && p.loads == 0
  }

  // Owners against the pool's own view of the buffers that are out.
  ghost predicate OwnersAgree(owner: map<nat, Owner>, returning: set<nat>, holds: multiset<nat>,
      received: multiset<nat>)
  {
    && (forall b :: b in owner <==> b in returning || b in holds)
    && (forall b :: b in owner ==> (owner[b].Returning? <==> b in returning))
    && (forall b :: b in received <==> Has(owner, b, Received))
    && (forall b :: b in holds ==> holds[b] == if b in received then received[b] else 1)
  }

  // Every thread has at most one buffer, and knows which.
  ghost predicate ThreadsAgree(owner: map<nat, Owner>, allocPtr: map<nat, nat>) {
    && (forall t :: t in allocPtr ==> Has(owner, allocPtr[t], Reserved(t)))
    && (forall b :: b in owner && owner[b].Reserved? ==> owner[b].t in allocPtr && allocPtr[owner[b].t] == b)
  }

  // A thread that has just enqueued has no reservation.
  ghost predicate SlotsAgree(allocPtr: map<nat, nat>, stale: map<nat, nat>, threads: nat) {
    && stale.Keys !! allocPtr.Keys
    && (forall t :: t in allocPtr ==> t < threads)
    && (forall t :: t in stale ==> t < threads)
  }

  ghost predicate RingAgrees(owner: map<nat, Owner>, ring: seq<nat>) {
    NoDup(ring) && forall b :: b in ring <==> Has(owner, b, Queued)
  }

  function Contents(content: map<nat, Bytes>, q: seq<nat>): seq<Bytes> {
    if q == [] then [] else [At(content, q[0])] + Contents(content, q[1..])
  }

  lemma {:induction false} ContentsAppend(content: map<nat, Bytes>, q: seq<nat>, b: nat)
    ensures Contents(content, q + [b]) == Contents(content, q) + [At(content, b)]
  {
    if q != [] {
      assert (q + [b])[1..] == q[1..] + [b];
      ContentsAppend(content, q[1..], b);
    }
  }

  lemma {:induction false} ContentsFrame(content: map<nat, Bytes>, content': map<nat, Bytes>, q: seq<nat>)
    requires forall b :: b in q ==> At(content, b) == At(content', b)
    ensures Contents(content, q) == Contents(content', q)
  {
    if q != [] { ContentsFrame(content, content', q[1..]); }
  }

  ghost predicate DataAgrees(s: State) {
    && s.sent == s.got + Contents(s.content, s.ring)
    && (forall b :: Has(s.owner, b, Received) ==> b in s.seen && s.seen[b] == At(s.content, b))
  }

  ghost predicate Owners(s: State) {
    OwnersAgree(s.owner, s.pool.returning, s.pool.holds, s.received) && ThreadsAgree(s.owner, s.allocPtr)
  }

  ghost predicate Messages(s: State) {
    RingAgrees(s.owner, s.ring) && DataAgrees(s)
  }

  ghost predicate Inv(s: State) {
    && PoolOk(s.pool) && s.pool.n == s.cap && s.maxEntries + s.threads <= s.cap
    && Owners(s) && Messages(s) && SlotsAgree(s.allocPtr, s.stale, s.threads)
  }

  // ---------- the pool inside the channel ----------

  lemma PoolReserve(p: Mempool.State)
    requires PoolOk(p) && p.ring != []
    ensures var q, b := Allocated(p), p.ring[0];
            && PoolOk(q) && q.n == p.n && q.returning == p.returning && q.holds == p.holds + multiset{b}
            && b !in p.holds && b !in p.returning
  {
    AllocatedInv(p);
    assert Mempool.Places(p, p.ring[0]) == 1;
  }

  lemma PoolFreeDec(p: Mempool.State, b: nat)
    requires PoolOk(p) && b in p.holds
    ensures var q := Mempool.Do(p, Mempool.FreeDec(b));
            && PoolOk(q) && q.n == p.n && q.holds == p.holds - multiset{b}
            && q.returning == if p.holds[b] == 1 then p.returning + {b} else p.returning
  {
    Mempool.StepKeeps(p, Mempool.FreeDec(b));
  }

  lemma PoolFreeReturn(p: Mempool.State, b: nat)
    requires PoolOk(p) && b in p.returning
    ensures var q := Mempool.Do(p, Mempool.FreeReturn(b));
            && PoolOk(q) && q.n == p.n && q.holds == p.holds && q.returning == p.returning - {b}
            && b !in p.holds
  {
    Mempool.StepKeeps(p, Mempool.FreeReturn(b));
    assert Mempool.Places(p, b) == 1;
  }

  lemma PoolShare(p: Mempool.State, b: nat)
    requires PoolOk(p) && b in p.holds
    ensures var q := Mempool.Do(p, Mempool.Share(b));
            PoolOk(q) && q.n == p.n && q.holds == p.holds + multiset{b} && q.returning == p.returning
  {
    Mempool.StepKeeps(p, Mempool.Share(b));
  }

  // ---------- every step keeps the invariant ----------

  lemma ReserveOwners(owner: map<nat, Owner>, returning: set<nat>, holds: multiset<nat>, received: multiset<nat>,
                      t: nat, b: nat)
    requires OwnersAgree(owner, returning, holds, received) && b !in holds && b !in returning
    ensures OwnersAgree(owner[b := Reserved(t)], returning, holds + multiset{b}, received)
  {
    assert !Has(owner, b, Received);
  }

  lemma ReserveThreads(owner: map<nat, Owner>, allocPtr: map<nat, nat>, t: nat, b: nat)
    requires ThreadsAgree(owner, allocPtr) && b !in owner && t !in allocPtr
    ensures ThreadsAgree(owner[b := Reserved(t)], allocPtr[t := b])
  {}

  // Handing a buffer that is not part of any message to another owner.
  lemma OwnerChange(s: State, s': State, b: nat)
    requires Messages(s) && (b in s.owner ==> !s.owner[b].Queued?)
    requires s'.ring == s.ring && s'.content == s.content && s'.sent == s.sent && s'.got == s.got && s'.seen == s.seen
    requires forall c :: c != b ==> (c in s.owner <==> c in s'.owner) && (c in s.owner ==> s.owner[c] == s'.owner[c])
    requires b in s'.owner ==> !s'.owner[b].Queued? && (s'.owner[b].Received? ==> Has(s.owner, b, Received))
    ensures Messages(s')
  {
    forall c ensures c in s'.ring <==> Has(s'.owner, c, Queued) {
      assert c in s.ring <==> Has(s.owner, c, Queued);
    }
    forall c | Has(s'.owner, c, Received) ensures c in s'.seen && s'.seen[c] == At(s'.content, c) {
      assert Has(s.owner, c, Received);
    }
  }

  lemma ReserveKeeps(s: State, t: nat)
    requires Inv(s) && CanDo(s, Reserve(t))
    ensures Inv(Do(s, Reserve(t)))
  {
    if t !in s.allocPtr && s.pool.ring != [] {
      PoolReserve(s.pool);
      ReserveOwners(s.owner, s.pool.returning, s.pool.holds, s.received, t, s.pool.ring[0]);
      ReserveThreads(s.owner, s.allocPtr, t, s.pool.ring[0]);
      OwnerChange(s, Do(s, Reserve(t)), s.pool.ring[0]);
    }
  }

  lemma WriteKeeps(s: State, t: nat, data: Bytes)
    requires Inv(s) && CanDo(s, Write(t, data))
    ensures Inv(Do(s, Write(t, data)))
  {
    var s', b := Do(s, Write(t, data)), s.allocPtr[t];
    assert Has(s.owner, b, Reserved(t)) && b !in s.ring;
    ContentsFrame(s.content, s'.content, s.ring);
  }

  lemma SubmitOwners(s: State, t: nat)
    requires Owners(s) && t in s.allocPtr
    ensures var b := s.allocPtr[t];
            && OwnersAgree(s.owner[b := Queued], s.pool.returning, s.pool.holds, s.received)
            && ThreadsAgree(s.owner[b := Queued], s.allocPtr - {t})
  {
    assert Has(s.owner, s.allocPtr[t], Reserved(t));
  }

  lemma SubmitMessages(s: State, t: nat)
    requires Owners(s) && Messages(s) && CanDo(s, Submit(t)) && t in s.allocPtr && |s.ring| < s.cap
    ensures Messages(Do(s, Submit(t)))
  {
    var s', b := Do(s, Submit(t)), s.allocPtr[t];
    assert Has(s.owner, b, Reserved(t));
    SetOfAppend(s.ring, b);
    assert RingAgrees(s'.owner, s.ring + [b]);
    ContentsAppend(s.content, s.ring, b);
    assert DataAgrees(s');
  }

  lemma SubmitKeeps(s: State, t: nat)
    requires Inv(s) && CanDo(s, Submit(t))
    ensures Inv(Do(s, Submit(t)))
  {
    if t in s.allocPtr && |s.ring| < s.cap {
      SubmitOwners(s, t);
      SubmitMessages(s, t);
    }
  }

  lemma ReceiveOwners(s: State)
    requires Owners(s) && Messages(s) && s.ring != []
    ensures var b := s.ring[0];
            && OwnersAgree(s.owner[b := Received], s.pool.returning, s.pool.holds, s.received + multiset{b})
            && ThreadsAgree(s.owner[b := Received], s.allocPtr)
  {
    assert Has(s.owner, s.ring[0], Queued);
  }

  lemma ReceiveRing(owner: map<nat, Owner>, ring: seq<nat>)
    requires RingAgrees(owner, ring) && ring != []
    ensures RingAgrees(owner[ring[0] := Received], ring[1..]) && Has(owner, ring[0], Queued)
  {
    SetOfTail(ring);
    assert forall c :: c in ring <==> c == ring[0] || c in ring[1..];
  }

  lemma ContentsTail(content: map<nat, Bytes>, got: seq<Bytes>, q: seq<nat>)
    requires q != []
    ensures got + Contents(content, q) == (got + [At(content, q[0])]) + Contents(content, q[1..])
  {
    var x, rest := [At(content, q[0])], Contents(content, q[1..]);
    assert got + (x + rest) == (got + x) + rest;
  }

  lemma ReceiveMessages(s: State)
    requires Messages(s) && s.ring != []
    ensures Messages(Do(s, Receive))
  {
    ReceiveRing(s.owner, s.ring);
    ContentsTail(s.content, s.got, s.ring);
    var s' := Do(s, Receive);
    forall c | Has(s'.owner, c, Received) ensures c in s'.seen && s'.seen[c] == At(s.content, c) {
      assert c != s.ring[0] ==> Has(s.owner, c, Received);
    }
  }

  lemma ReceiveKeeps(s: State)
    requires Inv(s)
    ensures Inv(Do(s, Receive))
  {
    if s.ring != [] {
      ReceiveOwners(s);
      ReceiveMessages(s);
    }
  }

  lemma ShareKeeps(s: State, b: nat)
    requires Inv(s) && CanDo(s, Share(b))
    ensures Inv(Do(s, Share(b)))
  {
    assert Has(s.owner, b, Received);
    PoolShare(s.pool, b);
    var s' := Do(s, Share(b));
    assert Owners(s');
    assert Messages(s');
  }

  lemma ReleaseDecOwners(s: State, b: nat)
    requires Owners(s) && b in s.received
    ensures var holds := s.pool.holds - multiset{b};
            var received := s.received - multiset{b};
            if s.pool.holds[b] == 1 then
              && OwnersAgree(s.owner[b := Returning], s.pool.returning + {b}, holds, received)
              && ThreadsAgree(s.owner[b := Returning], s.allocPtr)
            else OwnersAgree(s.owner, s.pool.returning, holds, received)
  {
    assert Has(s.owner, b, Received);
  }

  lemma ReleaseDecKeeps(s: State, b: nat)
    requires Inv(s) && CanDo(s, ReleaseDec(b))
    ensures Inv(Do(s, ReleaseDec(b)))
  {
    assert Has(s.owner, b, Received);
    PoolFreeDec(s.pool, b);
    ReleaseDecOwners(s, b);
    OwnerChange(s, Do(s, ReleaseDec(b)), b);
  }

  lemma ReturnOwners(owner: map<nat, Owner>, returning: set<nat>, holds: multiset<nat>, received: multiset<nat>, b: nat)
    requires OwnersAgree(owner, returning, holds, received) && b in returning && b !in holds
    ensures OwnersAgree(owner - {b}, returning - {b}, holds, received) && Has(owner, b, Returning)
  {
    assert !Has(owner, b, Received);
  }

  lemma ReturnThreads(owner: map<nat, Owner>, allocPtr: map<nat, nat>, b: nat)
    requires ThreadsAgree(owner, allocPtr) && Has(owner, b, Returning)
    ensures ThreadsAgree(owner - {b}, allocPtr)
  {}

  lemma ReleaseReturnKeeps(s: State, b: nat)
    requires Inv(s) && CanDo(s, ReleaseReturn(b))
    ensures Inv(Do(s, ReleaseReturn(b)))
  {
    PoolFreeReturn(s.pool, b);
    ReturnOwners(s.owner, s.pool.returning, s.pool.holds, s.received, b);
    ReturnThreads(s.owner, s.allocPtr, b);
    OwnerChange(s, Do(s, ReleaseReturn(b)), b);
  }

  lemma StepKeeps(s: State, step: Step)
    requires Inv(s) && CanDo(s, step)
    ensures Inv(Do(s, step))
  {
    match step
    case Reserve(t) => ReserveKeeps(s, t);
    case Write(t, data) => WriteKeeps(s, t, data);
    case Submit(t) => SubmitKeeps(s, t);
    case ClearSlot(t) =>
    case Receive => ReceiveKeeps(s);
    case Share(b) => ShareKeeps(s, b);
    case ReleaseDec(b) => ReleaseDecKeeps(s, b);
    case ReleaseReturn(b) => ReleaseReturnKeeps(s, b);
  }

  // ---------- runs ----------

  predicate LegalRun(s: State, run: seq<Step>)
    decreases |run|
  {
    run == [] || (CanDo(s, run[0]) && LegalRun(Do(s, run[0]), run[1..]))
  }

  function After(s: State, run: seq<Step>): State
    requires LegalRun(s, run)
    decreases |run|
  {
    if run == [] then s else After(Do(s, run[0]), run[1..])
  }

  lemma {:induction false} RunKeeps(s: State, run: seq<Step>)
    requires Inv(s) && LegalRun(s, run)
    ensures Inv(After(s, run))
    decreases |run|
  {
    if run != [] {
      StepKeeps(s, run[0]);
      RunKeeps(Do(s, run[0]), run[1..]);
    }
  }

  // A new channel, over a pool with room for maxEntries messages and one buffer for each thread.
  ghost predicate New(s: State) {
    && s.pool == Mempool.Init(s.pool.n) && s.maxEntries + s.threads <= s.pool.n == s.cap
    && s.allocPtr == map[] && s.stale == map[] && s.ring == [] && s.received == multiset{}
    && s.owner == map[] && s.sent == [] && s.got == [] && s.seen == map[]
  }

  /** jbpf_io_queue_create makes a new channel. */
  lemma InitIsNew(maxEntries: nat, threads: nat, elemSize: nat, content: map<nat, Bytes>)
    requires maxEntries + threads < 0x4000_0000
    ensures New(Init(maxEntries, threads, elemSize, content))
  {
    PoolFits(maxEntries + threads);
    NumElemsSpec(maxEntries + threads);
  }

  lemma NewInv(s: State)
    requires New(s)
    ensures Inv(s)
  {
    Mempool.InitInv(s.pool.n);
  }

  // A state that some run of a new channel reaches.
  ghost predicate Reachable(s: State) {
    exists s0: State, run: seq<Step> :: New(s0) && LegalRun(s0, run) && s == After(s0, run)
  }

  lemma {:induction false} RunAppend(s: State, run: seq<Step>, step: Step)
    requires LegalRun(s, run) && CanDo(After(s, run), step)
    ensures LegalRun(s, run + [step]) && After(s, run + [step]) == Do(After(s, run), step)
    decreases |run|
  {
    if run != [] {
      assert (run + [step])[1..] == run[1..] + [step];
      RunAppend(Do(s, run[0]), run[1..], step);
    }
  }

  lemma ReachableInit(maxEntries: nat, threads: nat, elemSize: nat, content: map<nat, Bytes>)
    requires maxEntries + threads < 0x4000_0000
    ensures Reachable(Init(maxEntries, threads, elemSize, content))
  {
    var s := Init(maxEntries, threads, elemSize, content);
    InitIsNew(maxEntries, threads, elemSize, content);
    assert LegalRun(s, []) && s == After(s, []);
  }

  lemma ReachableStep(s: State, step: Step)
    requires Reachable(s) && CanDo(s, step)
    ensures Reachable(Do(s, step))
  {
    var s0: State, run: seq<Step> :| New(s0) && LegalRun(s0, run) && s == After(s0, run);
    RunAppend(s0, run, step);
  }

  lemma ReachableInv(s: State)
    requires Reachable(s)
    ensures Inv(s)
  {
    var s0: State, run: seq<Step> :| New(s0) && LegalRun(s0, run) && s == After(s0, run);
    NewInv(s0);
    RunKeeps(s0, run);
  }

  // ---------- main results ----------

  /** What was received is a prefix of what was submitted; the rest is in the ring, in order. */
  lemma ReceivedIsPrefixOfSent(s: State)
    requires Reachable(s)
    ensures s.got <= s.sent && s.sent == s.got + Contents(s.content, s.ring)
  {
    ReachableInv(s);
  }

  /** A received buffer keeps the contents it was submitted with, is in no thread's reservation,
      not in the ring and not free, for as long as some receiver holds a reference to it. */
  lemma ReceivedBufferIsStable(s: State, b: nat)
    requires Reachable(s) && b in s.received
    ensures b in s.seen && s.seen[b] == At(s.content, b)
    ensures b !in s.ring && b !in s.pool.ring && forall t :: t in s.allocPtr ==> s.allocPtr[t] != b
    ensures Mempool.Ref(s.pool, b) == s.received[b]
  {
    ReachableInv(s);
    assert Has(s.owner, b, Received) && !Has(s.owner, b, Queued);
    assert Mempool.Places(s.pool, b) == 1;
    assert forall t :: t in s.allocPtr ==> Has(s.owner, s.allocPtr[t], Reserved(t));
  }

  /** Every buffer of the pool is free, returning, or with exactly one of: a thread's reservation,
      the ring, the receivers. */
  lemma EveryBufferHasOneOwner(s: State, b: nat)
    requires Reachable(s) && b < s.pool.n
    ensures b in s.pool.ring <==> b !in s.owner
    ensures b in s.owner ==>
              match s.owner[b]
              case Reserved(t) => t in s.allocPtr && s.allocPtr[t] == b && b !in s.ring && b !in s.received
              case Queued => b in s.ring && b !in s.received
              case Received => b !in s.ring && b in s.received
              case Returning => b !in s.ring && b !in s.received && b in s.pool.returning
    ensures forall t, u :: t in s.allocPtr && u in s.allocPtr && s.allocPtr[t] == s.allocPtr[u] ==> t == u
  {
    ReachableInv(s);
    assert Mempool.Places(s.pool, b) == 1;
    assert b in s.ring <==> Has(s.owner, b, Queued);
    assert b in s.received <==> Has(s.owner, b, Received);
    forall t, u | t in s.allocPtr && u in s.allocPtr && s.allocPtr[t] == s.allocPtr[u] ensures t == u {
      assert Has(s.owner, s.allocPtr[t], Reserved(t)) && Has(s.owner, s.allocPtr[u], Reserved(u));
    }
  }

  // The slots that are not NULL.
  function FilledSlots(s: State): map<nat, nat> {
    s.allocPtr + s.stale
  }

  /** Every slot of alloc_ptr that is filled holds a buffer its thread has reserved, exactly when no thread is between
      enqueuing its buffer and clearing its slot. */
  lemma SlotsAreReservationsIff(s: State)
    requires Reachable(s)
    ensures (forall t :: t in FilledSlots(s) ==> Has(s.owner, FilledSlots(s)[t], Reserved(t))) <==> s.stale == map[]
  {
    ReachableInv(s);
    if t :| t in s.stale {
      assert t in FilledSlots(s) && FilledSlots(s)[t] == s.stale[t];
      assert t !in s.allocPtr;
    } else {
      assert FilledSlots(s) == s.allocPtr;
    }
  }

  /** A buffer can be received while the slot of the thread that sent it is still filled with it. */
  lemma ReceivedFromFilledSlot(s0: State, run: seq<Step>)
    requires New(s0) && s0.threads > 0 && run == [Reserve(0), Submit(0), Receive]
    ensures LegalRun(s0, run)
    ensures var s := After(s0, run); 0 in FilledSlots(s) && FilledSlots(s)[0] in s.received
  {
    NewInv(s0);
    Mempool.InitInv(s0.pool.n);
    var s1 := Do(s0, Reserve(0));
    var s2 := Do(s1, Submit(0));
    assert |s0.pool.ring| == s0.pool.n;
    RunOfThree(s0, s1, s2, Reserve(0), Submit(0), Receive);
  }

  lemma RunOfThree(s0: State, s1: State, s2: State, x: Step, y: Step, z: Step)
    requires CanDo(s0, x) && s1 == Do(s0, x) && CanDo(s1, y) && s2 == Do(s1, y) && CanDo(s2, z)
    ensures LegalRun(s0, [x, y, z]) && After(s0, [x, y, z]) == Do(s2, z)
  {
    var run := [x, y, z];
    assert run[1..] == [y, z] && run[1..][1..] == [z] && run[1..][1..][1..] == [];
    var s3 := Do(s2, z);
    assert LegalRun(s3, run[1..][1..][1..]) && After(s3, run[1..][1..][1..]) == s3;
    assert LegalRun(s2, run[1..][1..]) && After(s2, run[1..][1..]) == s3;
    assert LegalRun(s1, run[1..]) && After(s1, run[1..]) == s3;
  }

  // The whole of jbpf_io_queue_enqueue, when nothing comes between its steps.
  function Submitted(s: State, t: nat): State
    requires CanDo(s, Submit(t))
  {
    var s' := Do(s, Submit(t));
    if t in s'.stale then Do(s', ClearSlot(t)) else s'
  }

  lemma SubmittedWhole(s: State, t: nat)
    requires Reachable(s) && CanDo(s, Submit(t))
    ensures Reachable(Submitted(s, t)) && Submitted(s, t).stale == s.stale
    ensures t in s.allocPtr && |s.ring| < s.cap ==>
              var s' := Submitted(s, t);
              && s'.ring == s.ring + [s.allocPtr[t]] && s'.allocPtr == s.allocPtr - {t} && s'.pool == s.pool
              && s'.cap == s.cap
              && s'.threads == s.threads
    ensures !(t in s.allocPtr && |s.ring| < s.cap) ==> Submitted(s, t) == s
  {
    ReachableStep(s, Submit(t));
    var s' := Do(s, Submit(t));
    if t in s'.stale { ReachableStep(s', ClearSlot(t)); }
  }

  lemma RingBound(s: State, b: nat)
    requires Inv(s) && b in s.owner && b !in s.ring
    ensures |s.ring| < s.pool.n
  {
    SetOfAppend(s.ring, b);
    SetOfSize(s.ring + [b]);
    forall c | c in s.ring + [b] ensures c < s.pool.n {
      assert c in s.owner by { if c != b { assert Has(s.owner, c, Queued); } }
      assert Mempool.Out(s.pool, c);
    }
    SubsetSize(SetOf(s.ring + [b]), Below(s.pool.n));
  }

  /** A thread with a reservation can always submit: the ring is never full for it. */
  lemma SubmitNeverFindsRingFull(s: State, t: nat)
    requires Reachable(s) && t in s.allocPtr
    ensures |s.ring| < s.cap && CanDo(s, Submit(t))
    ensures Do(s, Submit(t)).sent == s.sent + [At(s.content, s.allocPtr[t])]
  {
    ReachableInv(s);
    assert Has(s.owner, s.allocPtr[t], Reserved(t)) && s.allocPtr[t] !in s.ring;
    RingBound(s, s.allocPtr[t]);
  }

  // ---------- what is sent is what was written ----------

  /** Writing puts the data at the start of the thread's own buffer, leaves the bytes after it, and touches nothing
      else. */
  lemma WriteMeaning(s: State, t: nat, data: Bytes)
    requires CanDo(s, Write(t, data))
    ensures var s', b := Do(s, Write(t, data)), s.allocPtr[t];
            && data <= At(s'.content, b)
            && (forall i :: |data| <= i < |At(s.content, b)| ==>
                  i < |At(s'.content, b)| && At(s'.content, b)[i] == At(s.content, b)[i])
            && |At(s'.content, b)| == (if |data| <= |At(s.content, b)| then |At(s.content, b)| else |data|)
            && (forall c :: c != b ==> At(s'.content, c) == At(s.content, c))
            && s' == s.(content := s'.content)
  {}

  // Nothing in the run writes to, submits or clears for thread t.
  predicate LeftAlone(run: seq<Step>, t: nat) {
    forall i :: 0 <= i < |run| ==> !(run[i].Write? && run[i].t == t) && !(run[i].Submit? && run[i].t == t)
  }

  // Whatever one step does, a reserved buffer and its content stay, unless it is a step of that thread.
  lemma ReservedStaysStep(s: State, step: Step, t: nat)
    requires Inv(s) && CanDo(s, step) && t in s.allocPtr
    requires !(step.Write? && step.t == t) && !(step.Submit? && step.t == t)
    ensures var s' := Do(s, step);
            t in s'.allocPtr && s'.allocPtr[t] == s.allocPtr[t]
              && At(s'.content, s.allocPtr[t]) == At(s.content, s.allocPtr[t])
  {
    assert Has(s.owner, s.allocPtr[t], Reserved(t));
    if step.Write? { assert Has(s.owner, s.allocPtr[step.t], Reserved(step.t)); }
  }

  lemma {:induction false} ReservedStays(s: State, run: seq<Step>, t: nat)
    requires Reachable(s) && LegalRun(s, run) && LeftAlone(run, t) && t in s.allocPtr
    ensures var s' := After(s, run);
            && Reachable(s') && t in s'.allocPtr && s'.allocPtr[t] == s.allocPtr[t]
            && At(s'.content, s.allocPtr[t]) == At(s.content, s.allocPtr[t])
    decreases |run|
  {
    if run != [] {
      ReachableInv(s);
      ReservedStaysStep(s, run[0], t);
      ReachableStep(s, run[0]);
      assert LeftAlone(run[1..], t);
      ReservedStays(Do(s, run[0]), run[1..], t);
    }
  }

  lemma {:induction false} SentGrows(s: State, run: seq<Step>)
    requires Reachable(s) && LegalRun(s, run)
    ensures Reachable(After(s, run)) && s.sent <= After(s, run).sent
    decreases |run|
  {
    if run != [] {
      ReachableStep(s, run[0]);
      SentGrows(Do(s, run[0]), run[1..]);
    }
  }

  /** Whatever all threads do between a thread's last write and its submission, the message submitted starts with what
      was written, and it is the same message when it is received, whatever happens until then. */
  lemma WhatIsWrittenArrives(s: State, t: nat, data: Bytes, between: seq<Step>, after: seq<Step>)
    requires Reachable(s) && CanDo(s, Write(t, data))
    requires LegalRun(Do(s, Write(t, data)), between) && LeftAlone(between, t)
    requires var s2 := After(Do(s, Write(t, data)), between); CanDo(s2, Submit(t)) && LegalRun(Do(s2, Submit(t)), after)
    ensures var s2 := After(Do(s, Write(t, data)), between);
            var f, k := After(Do(s2, Submit(t)), after), |s2.sent|;
            k < |f.sent| && data <= f.sent[k] && (k < |f.got| ==> f.got[k] == f.sent[k])
  {
    var s1 := Do(s, Write(t, data));
    ReachableStep(s, Write(t, data));
    WriteMeaning(s, t, data);
    ReservedStays(s1, between, t);
    var s2 := After(s1, between);
    SubmitNeverFindsRingFull(s2, t);
    ReachableStep(s2, Submit(t));
    SentGrows(Do(s2, Submit(t)), after);
    ReceivedIsPrefixOfSent(After(Do(s2, Submit(t)), after));
  }

  // n receptions
  function Receives(n: nat): (run: seq<Step>) {
    if n == 0 then [] else [Receive] + Receives(n - 1)
  }

  /** Receiving as many messages as are in the ring delivers everything that was sent. */
  lemma {:induction false} EverythingCanBeReceived(s: State)
    requires Reachable(s)
    ensures LegalRun(s, Receives(|s.ring|))
            && After(s, Receives(|s.ring|)).got == s.sent == After(s, Receives(|s.ring|)).sent
    decreases |s.ring|
  {
    ReceivedIsPrefixOfSent(s);
    if s.ring != [] {
      var run := Receives(|s.ring|);
      assert run[0] == Receive && run[1..] == Receives(|s.ring| - 1);
      ReachableStep(s, Receive);
      EverythingCanBeReceived(Do(s, Receive));
    }
  }

  // ---------- what is released is free again ----------

  function Releases(b: nat, n: nat): seq<Step> {
    if n == 0 then [ReleaseReturn(b)] else [ReleaseDec(b)] + Releases(b, n - 1)
  }

  // Releasing one reference.
  lemma ReleaseOne(s: State, b: nat)
    requires Reachable(s) && b in s.received
    ensures var s' := Do(s, ReleaseDec(b));
            && Reachable(s') && s'.received[b] == s.received[b] - 1 && s'.content == s.content
            && (s.received[b] == 1 ==> CanDo(s', ReleaseReturn(b)))
  {
    ReachableInv(s);
    assert Has(s.owner, b, Received);
    PoolFreeDec(s.pool, b);
    ReachableStep(s, ReleaseDec(b));
  }

  // n releases that do not return the buffer
  function Decs(b: nat, n: nat): seq<Step> {
    if n == 0 then [] else [ReleaseDec(b)] + Decs(b, n - 1)
  }

  // One release, and what a run of releases after it comes to.
  lemma ReleaseStep(s: State, b: nat) returns (s1: State)
    requires Reachable(s) && b in s.received
    ensures Reachable(s1) && s1.received[b] == s.received[b] - 1 && s1.content == s.content
    ensures forall n: nat :: LegalRun(s1, Decs(b, n)) ==>
              LegalRun(s, Decs(b, n + 1)) && After(s, Decs(b, n + 1)) == After(s1, Decs(b, n))
  {
    ReleaseOne(s, b);
    s1 := Do(s, ReleaseDec(b));
    forall n: nat | LegalRun(s1, Decs(b, n))
      ensures LegalRun(s, Decs(b, n + 1)) && After(s, Decs(b, n + 1)) == After(s1, Decs(b, n))
    {
      assert Decs(b, n + 1)[0] == ReleaseDec(b) && Decs(b, n + 1)[1..] == Decs(b, n);
    }
  }

  lemma {:induction false} ReleaseSome(s: State, b: nat, n: nat)
    requires Reachable(s) && n < s.received[b]
    ensures LegalRun(s, Decs(b, n))
    ensures var s' := After(s, Decs(b, n));
            Reachable(s') && s'.received[b] == s.received[b] - n && s'.content == s.content
    decreases n
  {
    if n > 0 {
      var s1 := ReleaseStep(s, b);
      ReleaseSome(s1, b, n - 1);
    }
  }

  /** A receiver that shares a buffer adds a reference to it: after all the references there were before have been
      released, the buffer is still with a receiver, with its contents, and not free. */
  lemma SharedOutlives(s: State, b: nat)
    requires Reachable(s) && b in s.received
    ensures var s1, n := Do(s, Share(b)), s.received[b];
            && LegalRun(s1, Decs(b, n))
            && var s' := After(s1, Decs(b, n));
            && s'.received[b] == 1 && b !in s'.pool.ring && At(s'.content, b) == At(s.content, b)
  {
    ReachableStep(s, Share(b));
    var s1 := Do(s, Share(b));
    ReleaseSome(s1, b, s.received[b]);
    var s' := After(s1, Decs(b, s.received[b]));
    ReachableInv(s');
    assert Has(s'.owner, b, Received);
    EveryBufferHasOneOwner(s', b);
  }

  lemma ReturnFrees(s: State, b: nat)
    requires Reachable(s) && CanDo(s, ReleaseReturn(b))
    ensures var s' := Do(s, ReleaseReturn(b)); b in s'.pool.ring && b !in s'.owner && b !in s'.received
  {
    var s' := Do(s, ReleaseReturn(b));
    ReachableInv(s);
    assert b < s.pool.n by { assert Mempool.Out(s.pool, b); }
    ReachableStep(s, ReleaseReturn(b));
    PoolFreeReturn(s.pool, b);
    EveryBufferHasOneOwner(s', b);
    ReachableInv(s');
    assert b !in s'.owner && !Has(s'.owner, b, Received);
  }

  /** Releasing every reference to a received buffer makes it free. */
  lemma {:induction false} ReleasedIsFree(s: State, b: nat)
    requires Reachable(s) && b in s.received
    ensures LegalRun(s, Releases(b, s.received[b]))
    ensures var s' := After(s, Releases(b, s.received[b])); b in s'.pool.ring && b !in s'.owner && b !in s'.received
    decreases s.received[b]
  {
    var n := s.received[b];
    var run, s1 := Releases(b, n), Do(s, ReleaseDec(b));
    ReleaseOne(s, b);
    assert run[0] == ReleaseDec(b) && run[1..] == Releases(b, n - 1);
    if n > 1 {
      ReleasedIsFree(s1, b);
    } else {
      ReturnFrees(s1, b);
      assert Releases(b, 0)[1..] == [];
    }
  }

  lemma {:induction false} ValuesSize(m: map<nat, nat>)
    ensures |m.Values| <= |m.Keys|
    decreases |m.Keys|
  {
    if m.Keys != {} {
      var k :| k in m.Keys;
      var rest := m - {k};
      ValuesSize(rest);
      forall v | v in m.Values ensures v in rest.Values + {m[k]} {
        var j :| j in m && m[j] == v;
        if j != k { assert j in rest && rest[j] == v; }
      }
      SubsetSize(m.Values, rest.Values + {m[k]});
      assert rest.Keys == m.Keys - {k};
    }
  }

  // Buffers in receivers' hands or on their way back from them.
  function AtReceivers(s: State): set<nat> {
    (set b | b in s.received) + s.pool.returning
  }

  lemma OutstandingBound(s: State)
    requires Inv(s)
    ensures |Mempool.Outstanding(s.pool)| <= |s.ring| + |AtReceivers(s)| + |s.allocPtr|
  {
    var parts := SetOf(s.ring) + AtReceivers(s) + s.allocPtr.Values;
    forall b | b in Mempool.Outstanding(s.pool) ensures b in parts {
      assert b in s.owner;
      match s.owner[b]
      case Reserved(t) => assert s.allocPtr[t] == b;
      case Queued => assert Has(s.owner, b, Queued);
      case Received => assert Has(s.owner, b, Received);
      case Returning =>
    }
    SubsetSize(Mempool.Outstanding(s.pool), parts);
    SetOfSize(s.ring);
    ValuesSize(s.allocPtr);
  }

  lemma OthersBound(keys: set<nat>, m: nat, t: nat)
    requires t < m && t !in keys && forall k :: k in keys ==> k < m
    ensures |keys| < m
  {
    SubsetSize(keys + {t}, Below(m));
  }

  lemma SomeBufferIsFree(s: State, t: nat)
    requires Inv(s)
    requires t < s.threads && t !in s.allocPtr && |s.ring| + |AtReceivers(s)| < s.maxEntries
    ensures s.pool.ring != []
  {
    OutstandingBound(s);
    Mempool.Conservation(s.pool);
    OthersBound(s.allocPtr.Keys, s.threads, t);
  }

  /** As long as fewer than maxEntries buffers are unreceived or with receivers, any thread can
      reserve a buffer, whatever all other threads have reserved. */
  lemma MaxEntriesAlwaysAccepted(s: State, t: nat)
    requires Reachable(s) && t < s.threads && t !in s.stale
    requires |s.ring| + |AtReceivers(s)| < s.maxEntries
    ensures t in Do(s, Reserve(t)).allocPtr
  {
    ReachableInv(s);
    if t !in s.allocPtr { SomeBufferIsFree(s, t); }
  }
}
