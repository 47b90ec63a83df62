/**
 The queue object behind a channel. While it is open, each method is a step of module Channel;
 release_all and free close it and hand its buffers back to the pool.
 */
module IoQueue {
  import opened Collections
  import Mempool
  import opened MempoolObject
  import C = Channel

  // What a reserve that takes a new buffer does to the fields of the queue.
  lemma ReserveFields(s: C.State, t: nat)
    requires C.Reachable(s) && t < s.threads && t !in s.allocPtr && t !in s.stale
    ensures s.pool.allocMain
    ensures s.pool.ring == [] ==> C.Do(s, C.Reserve(t)) == s
    ensures s.pool.ring != [] ==>
              var s' := C.Do(s, C.Reserve(t));
              && s'.pool == Allocated(s.pool) && s'.allocPtr == s.allocPtr[t := s.pool.ring[0]]
              && s'.ring == s.ring && s'.cap == s.cap && s'.stale == s.stale && s'.threads == s.threads
  {
    C.ReachableInv(s);
  }

  // Freeing the reservation of thread t.
  lemma ReservedOnce(s: C.State, t: nat)
    requires C.Reachable(s) && t in s.allocPtr
    ensures C.Has(s.owner, s.allocPtr[t], C.Reserved(t)) && s.pool.holds[s.allocPtr[t]] == 1
  {
    C.ReachableInv(s);
    assert C.Has(s.owner, s.allocPtr[t], C.Reserved(t));
  }

  lemma ReservedIsInSlot(s: C.State, b: nat)
    requires C.Reachable(s) && b in s.owner && s.owner[b].Reserved?
    ensures s.owner[b].t < s.threads && s.owner[b].t in s.allocPtr && s.allocPtr[s.owner[b].t] == b
  {
    C.ReachableInv(s);
    var t := s.owner[b].t;
    assert t in s.allocPtr;
  }

  function Holder(s: C.State, b: nat): C.Owner {
    if b in s.owner then s.owner[b] else C.Returning
  }

  // The references left once the reservations of the threads below t are given back.
  ghost function Left(s: C.State, t: nat, b: nat): nat {
    if Holder(s, b).Reserved? && Holder(s, b).t < t then 0 else s.pool.holds[b]
  }

  lemma SlotLeft(s: C.State, t: nat)
    requires C.Reachable(s)
    ensures t in s.allocPtr ==> Left(s, t, s.allocPtr[t]) == 1
    ensures forall b :: Left(s, t + 1, b) == if t in s.allocPtr && s.allocPtr[t] == b then 0 else Left(s, t, b)
  {
    if t in s.allocPtr { ReservedOnce(s, t); }
    forall b ensures Left(s, t + 1, b) == if t in s.allocPtr && s.allocPtr[t] == b then 0 else Left(s, t, b) {
      if Holder(s, b).Reserved? { ReservedIsInSlot(s, b); }
    }
  }

  lemma AllLeft(s: C.State)
    requires C.Reachable(s)
    ensures forall b :: Left(s, s.threads, b) == if Holder(s, b).Reserved? then 0 else s.pool.holds[b]
  {
    forall b ensures Left(s, s.threads, b) == if Holder(s, b).Reserved? then 0 else s.pool.holds[b] {
      if Holder(s, b).Reserved? { ReservedIsInSlot(s, b); }
    }
  }

  lemma OpenFields(s: C.State)
    requires C.Reachable(s)
    ensures s.pool.allocMain && forall b :: Left(s, 0, b) == s.pool.holds[b]
  {
    C.ReachableInv(s);
  }

  lemma OpenRing(s: C.State)
    requires C.Reachable(s)
    ensures NoDup(s.ring) && s.pool.allocMain
    ensures forall b :: b in s.ring ==> Holder(s, b) == C.Queued && s.pool.holds[b] == 1
  {
    C.ReachableInv(s);
    forall b | b in s.ring ensures Holder(s, b) == C.Queued && s.pool.holds[b] == 1 {
      assert C.Has(s.owner, b, C.Queued) && !C.Has(s.owner, b, C.Received);
    }
  }

  // The references to a buffer, by who has it.
  lemma HoldsByOwner(s: C.State, b: nat)
    requires C.Reachable(s)
    ensures b in s.ring <==> Holder(s, b).Queued?
    ensures b in s.received <==> Holder(s, b).Received?
    ensures s.pool.holds[b] ==
              match Holder(s, b)
              case Reserved(_) => 1
              case Queued => 1
              case Received => s.received[b]
              case Returning => 0
  {
    C.ReachableInv(s);
    assert b in s.ring <==> C.Has(s.owner, b, C.Queued);
    assert b in s.received <==> C.Has(s.owner, b, C.Received);
    assert Mempool.Places(s.pool, b) <= 1;
  }

  // When the ring holds the only references left, with or without the reservations given back.
  lemma OnlyRingLeft(s: C.State, holds: multiset<nat>, all: bool)
    requires C.Reachable(s)
    requires forall b :: holds[b] == if all && Holder(s, b).Reserved? then 0 else s.pool.holds[b]
    ensures holds == multiset(s.ring) <==> s.received == multiset{} && (all || s.allocPtr == map[])
  {
    OpenRing(s);
    forall b ensures multiset(s.ring)[b] == if Holder(s, b).Queued? then 1 else 0 {
      HoldsByOwner(s, b);
      OccursOnce(s.ring, b);
    }
    if s.received != multiset{} {
      var b :| b in s.received;
      HoldsByOwner(s, b);
      assert holds[b] != multiset(s.ring)[b];
    } else if !all && s.allocPtr != map[] {
      var t :| t in s.allocPtr;
      ReservedOnce(s, t);
      assert holds[s.allocPtr[t]] != multiset(s.ring)[s.allocPtr[t]];
    } else {
      forall b ensures holds[b] == multiset(s.ring)[b] {
        HoldsByOwner(s, b);
        if Holder(s, b).Reserved? { ReservedIsInSlot(s, b); }
      }
    }
  }

  // The references to a buffer that are left when the channel is closed.
  ghost function Remaining(s: C.State, all: bool, b: nat): nat {
    match Holder(s, b)
    case Received => s.received[b]
    case Reserved(_) => if all then 0 else 1
    case _ => 0
  }

  lemma RingGone(s: C.State, holds: multiset<nat>, all: bool)
    requires C.Reachable(s)
    requires forall b :: holds[b] == if all && Holder(s, b).Reserved? then 0 else s.pool.holds[b]
    ensures forall left: multiset<nat>, b :: holds == left + multiset(s.ring) ==> left[b] == Remaining(s, all, b)
  {
    OpenRing(s);
    forall left: multiset<nat>, b | holds == left + multiset(s.ring) ensures left[b] == Remaining(s, all, b) {
      HoldsByOwner(s, b);
      OccursOnce(s.ring, b);
    }
  }

  function WithReceivers(s: C.State): set<nat> {
    set b | b in s.received
  }

  /** When a channel is closed and its pool has not been released at once, the receivers can bring that about by giving
      back what they have, exactly when no reservation was left behind and no allocation is under way. */
  lemma ReceiversReleaseIff(s: C.State, p: Mempool.State, all: bool)
    requires C.Reachable(s) && Mempool.Reachable(p) && p.marked && p.released == 0
    requires forall b :: p.holds[b] == Remaining(s, all, b)
    ensures (exists run :: Mempool.ReleasesPool(p, run, WithReceivers(s))) <==>
            (all || s.allocPtr == map[]) && p.starting == {}
  {
    var givers := WithReceivers(s);
    Mempool.ReleasableIff(p, givers);
    forall b ensures b in givers <==> Holder(s, b).Received? { HoldsByOwner(s, b); }
    Mempool.ReachableInv(p);
    if b :| b in p.starting {
      assert Mempool.Places(p, b) <= 1;
      assert b in Mempool.Referenced(p) && b !in givers;
    } else if !all && s.allocPtr != map[] {
      var t :| t in s.allocPtr;
      ReservedOnce(s, t);
      assert s.allocPtr[t] in p.holds && s.allocPtr[t] !in givers;
    } else {
      forall b | b in p.holds ensures b in givers {
        if Holder(s, b).Reserved? { ReservedIsInSlot(s, b); }
      }
    }
  }

  lemma SplitNext(r: seq<nat>, k: nat)
    requires k <= |r|
    ensures k < |r| ==> r[k..] != [] && r[k..][0] == r[k] && r[k..][1..] == r[k + 1..] && r[..k] + [r[k]] == r[..k + 1]
    ensures k == |r| ==> r[k..] == []
  {}

  // One more buffer of the ring is given back.
  lemma GiveBackNext(r: seq<nat>, k: nat, h: multiset<nat>, before: multiset<nat>, after: multiset<nat>)
    requires NoDup(r) && k < |r| && before + multiset(r[..k]) == h && before[r[k]] == 1
    requires after == before - multiset{r[k]}
    ensures after + multiset(r[..k + 1]) == h && forall i :: k < i < |r| ==> after[r[i]] == before[r[i]]
  {
    assert r[..k + 1] == r[..k] + [r[k]];
  }

  // alloc_ptr as an array of slots and as a map from threads.
  ghost predicate SlotsAgree(m: map<nat, nat>, slots: seq<int>) {
    && (forall t :: t in m ==> t < |slots|)
    && (forall t: nat :: t < |slots| ==> (slots[t] >= 0 <==> t in m))
    && (forall t: nat :: t < |slots| && t in m ==> slots[t] == m[t])
  }

  lemma SlotSet(m: map<nat, nat>, slots: seq<int>, t: nat, b: nat)
    requires SlotsAgree(m, slots) && t < |slots|
    ensures SlotsAgree(m[t := b], slots[t := b])
  {}

  lemma SlotCleared(m: map<nat, nat>, slots: seq<int>, t: nat)
    requires SlotsAgree(m, slots) && t < |slots|
    ensures SlotsAgree(m - {t}, slots[t := -1])
  {}

  class Queue {
    const pool: Pool
    const allocPtr: array<int>     // -1 for NULL
    var ring: seq<nat>
    const cap: nat
    const threads: nat             // JBPF_IO_MAX_NUM_THREADS
    const elemSize: nat
    ghost var st: C.State          // the channel as a whole: contents, receivers, history

    ghost predicate Separate()
      reads this, pool
    {
      pool.refs as object != allocPtr && allocPtr.Length == threads
    }

    // The queue is open and its fields are those of the channel.
    ghost predicate Open()
      reads this, allocPtr, pool, pool.refs
    {
      && Separate() && SlotsAgree(st.allocPtr, allocPtr[..]) && st.stale == map[]
      && pool.Valid() && st.pool == pool.View() && st.ring == ring && st.cap == cap && st.threads == threads
      && st.elemSize == elemSize
      && C.Reachable(st)
    }

    constructor (p: Pool, maxEntries: nat, threads: nat, elemSize: nat, ghost content: map<nat, C.Bytes>)
      requires maxEntries + threads < 0x4000_0000
      requires p.Valid() && p.n == NumElems(maxEntries + threads) && p.View() == Mempool.Init(p.n)
      ensures Open() && pool == p && fresh(allocPtr) && st == C.Init(maxEntries, threads, elemSize, content)
    {
      C.PoolFits(maxEntries + threads);
      C.ReachableInit(maxEntries, threads, elemSize, content);
      pool := p;
      this.threads, this.elemSize := threads, elemSize;
      allocPtr := new int[threads](_ => -1);
      ring := [];
      cap := C.RingCapacity(p.n);
      st := C.Init(maxEntries, threads, elemSize, content);
    }

    /** jbpf_io_queue_reserve: the thread's reserved buffer, a new one if it has none; -1 only if
        the pool has no free buffer. */
    method Reserve(t: nat) returns (b: int)
      requires Open() && t < threads
      modifies this`st, allocPtr, pool, pool.refs
      ensures Open() && st == C.Do(old(st), C.Reserve(t))
      ensures b == if t in st.allocPtr then st.allocPtr[t] else -1
    {
      C.ReachableStep(st, C.Reserve(t));
      if allocPtr[t] >= 0 {
        return allocPtr[t];
      }
      ghost var s := st;
      ReserveFields(s, t);
      b := pool.Alloc();
      st := C.Do(s, C.Reserve(t));
      if b >= 0 {
        SlotSet(s.allocPtr, allocPtr[..], t, b);
        ghost var slots := allocPtr[..];
        allocPtr[t] := b;
        assert allocPtr[..] == slots[t := b];
      }
    }

    /** jbpf_io_queue_enqueue */
    method Enqueue(t: nat) returns (res: int)
      requires Open() && t < threads
      modifies this, allocPtr
      ensures Open() && st == C.Submitted(old(st), t)
      ensures res == if t !in old(st).allocPtr then -2 else if |old(ring)| >= cap then -1 else 0
    {
      C.SubmittedWhole(st, t);
      if allocPtr[t] < 0 {
        return -2;
      }
      if |ring| >= cap {
        return -1;
      }
      ghost var s := st;
      ring := ring + [allocPtr[t]];
      SlotCleared(s.allocPtr, allocPtr[..], t);
      ghost var slots := allocPtr[..];
      allocPtr[t] := -1;
      assert allocPtr[..] == slots[t := -1];
      st := C.Submitted(s, t);
      res := 0;
    }

    // The end of jbpf_io_channel_send_data: memcpy into the reserved buffer, and submit.
    method FillAndSend(t: nat, data: C.Bytes)
      requires Open() && t in st.allocPtr && t < threads && |data| <= elemSize
      modifies this, allocPtr
      ensures Open() && |st.sent| == |old(st).sent| + 1 && st.sent[..|old(st).sent|] == old(st).sent
      ensures data <= st.sent[|old(st).sent|]
    {
      C.ReachableStep(st, C.Write(t, data));
      C.WriteMeaning(st, t, data);
      st := C.Do(st, C.Write(t, data));
      C.SubmitNeverFindsRingFull(st, t);
      var _ := Enqueue(t);
    }

    /** jbpf_io_channel_send_data: refused exactly when the data is too long or no buffer is free; otherwise a message
        that starts with the data is sent last */
    method SendData(t: nat, data: C.Bytes) returns (res: int)
      requires Open() && t < threads
      modifies this, allocPtr, pool, pool.refs
      ensures Open() && res in {0, -1}
      ensures res == 0 <==> |data| <= elemSize && (t in old(st).allocPtr || old(st).pool.ring != [])
      ensures res == -1 ==> st == old(st)
      ensures res == 0 ==>
                var n := |old(st).sent|;
                |st.sent| == n + 1 && st.sent[..n] == old(st).sent && data <= st.sent[n]
    {
      OpenFields(st);
      if |data| > elemSize {
        return -1;
      }
      var b := Reserve(t);
      if b < 0 {
        return -1;
      }
      FillAndSend(t, data);
      res := 0;
    }

    /** jbpf_io_queue_dequeue */
    method Dequeue() returns (b: int)
      requires Open()
      modifies this
      ensures Open() && st == C.Do(old(st), C.Receive)
      ensures old(ring) == [] ==> b == -1 && ring == [] && st == old(st)
      ensures old(ring) != [] ==> b == old(ring[0]) && ring == old(ring)[1..] && st.content == old(st.content)
                                  && st.got == old(st.got) + [C.At(st.content, b)]
    {
      C.ReachableStep(st, C.Receive);
      if ring == [] {
        return -1;
      }
      b := ring[0];
      ring := ring[1..];
      st := C.Do(st, C.Receive);
    }

    // Dequeue, as the loop of recv_data sees it.
    method Next() returns (b: int)
      requires Open()
      modifies this
      ensures Open()
      ensures old(ring) == [] ==> b == -1 && ring == [] && st == old(st)
      ensures old(ring) != [] ==> b == old(ring[0]) && ring == old(ring)[1..] && st.content == old(st.content)
                                  && st.got == old(st.got) + [C.At(st.content, b)]
    {
      b := Dequeue();
    }

    /** jbpf_io_channel_recv_data: up to `batch` buffers, oldest first. */
    method ReceiveBatch(batch: nat) returns (bufs: seq<nat>)
      requires Open()
      modifies this
      ensures Open() && |bufs| == if |old(ring)| < batch then |old(ring)| else batch
      ensures bufs == old(ring)[..|bufs|] && ring == old(ring)[|bufs|..]
      ensures st.got == old(st.got) + C.Contents(old(st.content), bufs)
    {
      bufs := [];
      ghost var r := ring;
      while |bufs| < batch
        invariant Open() && |bufs| <= batch && |bufs| <= |r|
        invariant bufs == r[..|bufs|] && ring == r[|bufs|..]
        invariant st.content == old(st.content) && st.got == old(st.got) + C.Contents(old(st.content), bufs)
      {
        SplitNext(r, |bufs|);
        var b := Next();
        if b < 0 {
          return;
        }
        C.ContentsAppend(old(st.content), bufs, b);
        bufs := bufs + [b];
      }
    }

    // The body of the loop of release_all.
    method ReleaseSlot(t: nat)
      requires Separate() && pool.Valid() && t < threads && (allocPtr[t] >= 0 ==> allocPtr[t] in pool.holds)
      modifies allocPtr, pool, pool.refs
      ensures Separate() && pool.Valid() && pool.allocMain == old(pool.allocMain) && pool.marked == old(pool.marked)
      ensures allocPtr[t] < 0 && forall u :: 0 <= u < threads && u != t ==> allocPtr[u] == old(allocPtr[u])
      ensures pool.holds ==
                if old(allocPtr[t]) >= 0 then old(pool.holds) - multiset{old(allocPtr[t])} else old(pool.holds)
    {
      if allocPtr[t] >= 0 {
        pool.Free(allocPtr[t]);
        allocPtr[t] := -1;
      }
    }

    /** jbpf_io_queue_release_all: gives back the reservation of every thread. */
    method ReleaseAll()
      requires Open() && !pool.marked
      modifies allocPtr, pool, pool.refs
      ensures Separate() && pool.Valid() && pool.allocMain && !pool.marked
      ensures forall t :: 0 <= t < threads ==> allocPtr[t] < 0
      ensures forall b :: pool.holds[b] == if Holder(st, b).Reserved? then 0 else st.pool.holds[b]
    {
      OpenFields(st);
      for t := 0 to threads
        invariant Separate() && pool.Valid() && pool.allocMain && !pool.marked
        invariant forall u :: 0 <= u < t ==> allocPtr[u] < 0
        invariant forall u :: t <= u < threads ==> allocPtr[u] == old(allocPtr[u])
        invariant forall b :: pool.holds[b] == Left(st, t, b)
      {
        SlotLeft(st, t);
        ReleaseSlot(t);
      }
      AllLeft(st);
    }
  
    // The body of the loop of free.
    method FreeHead()
      requires Separate() && pool.Valid() && ring != [] && ring[0] in pool.holds
      modifies this`ring, pool, pool.refs
      ensures pool.Valid() && ring == old(ring)[1..] && pool.holds == old(pool.holds) - multiset{old(ring[0])}
      ensures pool.allocMain == old(pool.allocMain) && pool.marked == old(pool.marked)
    {
      var b := ring[0];
      ring := ring[1..];
      pool.Free(b);
    }

    // The loop of free.
    method Drain()
      requires Separate() && pool.Valid() && pool.allocMain && !pool.marked
      requires NoDup(ring) && forall b :: b in ring ==> pool.holds[b] == 1
      modifies this`ring, pool, pool.refs
      ensures pool.Valid() && pool.allocMain && !pool.marked && ring == []
      ensures old(pool.holds) == pool.holds + multiset(old(ring))
    {
      ghost var r, h, k := ring, pool.holds, 0;
      while ring != []
        invariant pool.Valid() && pool.allocMain && !pool.marked
        invariant k <= |r| && ring == r[k..]
        invariant forall i :: k <= i < |r| ==> pool.holds[r[i]] == 1
        invariant pool.holds + multiset(r[..k]) == h
        decreases |ring|
      {
        SplitNext(r, k);
        ghost var before := pool.holds;
        FreeHead();
        GiveBackNext(r, k, h, before, pool.holds);
        k := k + 1;
      }
      assert r[..k] == r;
    }

    /** jbpf_io_queue_free: drains the ring and destroys the pool. The pool memory goes back at
        once exactly when the ring held the only references left. */
    method Free()
      requires Separate() && pool.Valid() && pool.allocMain && !pool.marked
      requires NoDup(ring) && forall b :: b in ring ==> pool.holds[b] == 1
      modifies this`ring, pool, pool.refs
      ensures pool.Valid() && pool.marked && ring == [] && old(pool.holds) == pool.holds + multiset(old(ring))
      ensures pool.released == 1 <==> old(pool.holds) == multiset(old(ring))
    {
      Drain();
      pool.Destroy();
    }

    /** Closing a channel: with release_all first as jbpf_io_destroy_channel does it, or without,
        as when the channels of a peer that went away are removed. The pool memory goes back at
        once exactly when no receiver holds a buffer and, without release_all, no thread had one
        reserved; the references that remain are those of receivers and of reservations not released. */
    method Close(releaseFirst: bool)
      requires Open() && !pool.marked
      modifies this`ring, allocPtr, pool, pool.refs
      ensures pool.Valid() && pool.marked && ring == []
      ensures pool.released == 1 <==> st.received == multiset{} && (releaseFirst || st.allocPtr == map[])
      ensures forall b :: pool.holds[b] == Remaining(st, releaseFirst, b)
    {
      OpenRing(st);
      if releaseFirst {
        ReleaseAll();
      }
      assert pool.holds == multiset(ring) <==> st.received == multiset{} && (releaseFirst || st.allocPtr == map[]) by {
        OnlyRingLeft(st, pool.holds, releaseFirst);
      }
      RingGone(st, pool.holds, releaseFirst);
      Free();
    }
  }
}
