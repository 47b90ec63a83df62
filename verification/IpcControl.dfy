/**
 The primary's control thread: it registers secondary processes, answers their negotiation and removes them.

 One thread serves all peers. It enters an epoch section on its record of the peer list, and waits at a barrier
 for every open section, its own included, before it lets a context go. What the kernel and the allocator answer
 is part of a message.
 */
module IpcControl {
  import opened Collections

  const MAX_TRIES: nat := 10
  const MAX_PEERS: nat := 64

  datatype Status = RegInit | NegMmap | RegSucc | RegFail

  datatype Response = Response(status: Status, base: nat)

  // The context of a peer: attempts is num_reg_attempts, info mmap_info.addr, heap that mem_ctx is set and owns info,
  // and tmp holds the entries of tmp_mmap that were filled.
  datatype Context = Context(attempts: nat, info: nat, heap: bool, tmp: seq<nat>)

  // Whether there is memory for a context, whether its tables and its place in the epoll set can be had, and whether
  // it can be listed once a region is mapped.
  datatype Setup = Setup(memory: bool, ready: bool, listed: bool)

  // offer: the address at which a region is mapped, if one can be.
  datatype Message =
    | Hello(fd: nat, setup: Setup, offer: Option<nat>)                   // REG_INIT on a connection just accepted
    | Reply(fd: nat, attached: bool, offer: Option<nat>, heapOk: bool)   // NEG_MMAP_SUCC or NEG_MMAP_FAIL
    | Leave(fd: nat)                                                     // a deregistration, or the connection is down

  // The peers by socket, the regions the primary has mapped, and (history) those whose context is gone.
  datatype Regs = Regs(peers: map<nat, Context>, mapped: set<nat>, left: set<nat>)

  // depth: the open sections of the thread; stuck: it waits at a barrier that cannot end.
  datatype State = State(regs: Regs, depth: nat, stuck: bool)

  function Init(): State {
    State(Regs(map[], {}, {}), 0, false)
  }

  // ---------- what a message does ----------

  predicate Room(r: Regs, setup: Setup) {
    |r.peers| < MAX_PEERS && setup.memory
  }

  predicate Opens(r: Regs, setup: Setup, offer: Option<nat>) {
    Room(r, setup) && setup.ready && offer.Some? && setup.listed
  }

  // A region is mapped for a context that then cannot be listed.
  predicate Orphans(r: Regs, setup: Setup, offer: Option<nat>) {
    Room(r, setup) && setup.ready && offer.Some? && !setup.listed
  }

  // Another region is proposed.
  predicate Proposes(c: Context, attached: bool, offer: Option<nat>) {
    !attached && c.attempts < MAX_TRIES && offer.Some?
  }

  // The message makes the thread remove a peer that is not listed.
  predicate Refused(r: Regs, m: Message) {
    match m
    case Hello(fd, setup, offer) => !Opens(r, setup, offer)
    case Reply(fd, attached, offer, heapOk) => false
    case Leave(fd) => fd !in r.peers
  }

  // The message brings the thread to a barrier.
  predicate Waits(r: Regs, m: Message) {
    match m
    case Hello(fd, setup, offer) => Room(r, setup)
    case Reply(fd, attached, offer, heapOk) =>
      fd in r.peers && !(attached && heapOk) && !Proposes(r.peers[fd], attached, offer)
    case Leave(fd) => fd in r.peers
  }

  function Answered(r: Regs, fd: nat, attached: bool, offer: Option<nat>, heapOk: bool): Regs {
    if fd !in r.peers then r
    else
      var c := r.peers[fd];
      if attached && heapOk then
        r.(peers := r.peers[fd := c.(heap := true)], mapped := r.mapped - SetOf(c.tmp) + {c.info})
      else if Proposes(c, attached, offer) then
        r.(peers := r.peers[fd := Context(c.attempts + 1, offer.value, false, c.tmp + [offer.value])],
           mapped := r.mapped + {offer.value})
      else r.(peers := r.peers - {fd}, mapped := r.mapped - SetOf(c.tmp))
  }

  // A message that is served to its end.
  function Effect(r: Regs, m: Message): Regs {
    match m
    case Hello(fd, setup, offer) =>
      if Opens(r, setup, offer) then
        r.(peers := r.peers[fd := Context(1, offer.value, false, [offer.value])], mapped := r.mapped + {offer.value})
      else if Orphans(r, setup, offer) then r.(mapped := r.mapped + {offer.value}, left := r.left + {offer.value})
      else r
    case Reply(fd, attached, offer, heapOk) => Answered(r, fd, attached, offer, heapOk)
    case Leave(fd) =>
      if fd !in r.peers then r
      else if r.peers[fd].heap then r.(peers := r.peers - {fd}, mapped := r.mapped - {r.peers[fd].info})
      else r.(peers := r.peers - {fd}, left := r.left + SetOf(r.peers[fd].tmp) * r.mapped)
  }

  // A message that ends at a barrier: a context is not destroyed, and its heap keeps its region.
  function Halted(r: Regs, m: Message): Regs {
    if m.Leave? && m.fd in r.peers && r.peers[m.fd].heap then r.(peers := r.peers - {m.fd}) else Effect(r, m)
  }

  /** The control thread on one message. The removal of a peer that is not listed enters a section and does not leave
      it; a barrier ends exactly when no section is open. */
  function Handle(s: State, m: Message): State {
    if s.stuck then s
    else if Waits(s.regs, m) && s.depth > 0 then State(Halted(s.regs, m), s.depth, true)
    else State(Effect(s.regs, m), s.depth + (if Refused(s.regs, m) then 1 else 0), false)
  }

  // ---------- runs ----------

  function Run(ms: seq<Message>): State {
    if ms == [] then Init() else Handle(Run(ms[..|ms| - 1]), ms[|ms| - 1])
  }

  // The registrations if every message were served to its end.
  function Ideal(ms: seq<Message>): Regs {
    if ms == [] then Init().regs else Effect(Ideal(ms[..|ms| - 1]), ms[|ms| - 1])
  }

  predicate RefusedAt(ms: seq<Message>, i: nat)
    requires i < |ms|
  {
    Refused(Ideal(ms[..i]), ms[i])
  }

  predicate WaitsAt(ms: seq<Message>, i: nat)
    requires i < |ms|
  {
    Waits(Ideal(ms[..i]), ms[i])
  }

  ghost predicate SomeRefused(ms: seq<Message>) {
    exists i :: 0 <= i < |ms| && RefusedAt(ms, i)
  }

  // Some message that has to wait comes after one that was refused.
  ghost predicate Blocked(ms: seq<Message>) {
    exists i, j :: 0 <= i < j < |ms| && RefusedAt(ms, i) && WaitsAt(ms, j)
  }

  lemma Prefix(ms: seq<Message>, i: nat)
    requires 0 <= i < |ms|
    ensures var before := ms[..|ms| - 1];
            i < |before| ==> before[i] == ms[i] && before[..i] == ms[..i]
                             && (RefusedAt(before, i) <==> RefusedAt(ms, i)) && (WaitsAt(before, i) <==> WaitsAt(ms, i))
  {
    if i < |ms| - 1 { assert ms[..|ms| - 1][..i] == ms[..i]; }
  }

  lemma RefusedPrefix(ms: seq<Message>)
    requires ms != []
    ensures SomeRefused(ms) <==> SomeRefused(ms[..|ms| - 1]) || Refused(Ideal(ms[..|ms| - 1]), ms[|ms| - 1])
  {
    var before, n := ms[..|ms| - 1], |ms| - 1;
    assert RefusedAt(ms, n) <==> Refused(Ideal(before), ms[n]);
    if i :| 0 <= i < n && RefusedAt(before, i) {
      Prefix(ms, i);
      assert RefusedAt(ms, i);
    }
    if i :| 0 <= i < n && RefusedAt(ms, i) {
      Prefix(ms, i);
      assert RefusedAt(before, i);
    }
  }

  lemma StaysBlocked(ms: seq<Message>)
    requires ms != []
    ensures Blocked(ms[..|ms| - 1]) ==> Blocked(ms)
    ensures SomeRefused(ms[..|ms| - 1]) && WaitsAt(ms, |ms| - 1) ==> Blocked(ms)
  {
    var before, n := ms[..|ms| - 1], |ms| - 1;
    if Blocked(before) {
      var i, j :| 0 <= i < j < n && RefusedAt(before, i) && WaitsAt(before, j);
      Prefix(ms, i);
      Prefix(ms, j);
      assert RefusedAt(ms, i) && WaitsAt(ms, j);
    }
    if i :| 0 <= i < n && RefusedAt(before, i) {
      Prefix(ms, i);
      assert RefusedAt(ms, i);
    }
  }

  lemma WasBlocked(ms: seq<Message>)
    requires Blocked(ms)
    ensures ms != [] && (Blocked(ms[..|ms| - 1]) || (SomeRefused(ms[..|ms| - 1]) && WaitsAt(ms, |ms| - 1)))
  {
    var i, j :| 0 <= i < j < |ms| && RefusedAt(ms, i) && WaitsAt(ms, j);
    Prefix(ms, i);
    Prefix(ms, j);
    assert RefusedAt(ms[..|ms| - 1], i);
    assert j < |ms| - 1 ==> WaitsAt(ms[..|ms| - 1], j);
  }

  /** Whatever messages the control thread gets, it is stuck exactly when one that has to wait came after one that was
      refused; until then the registrations are as if every message had been served to its end. */
  lemma {:induction false} StuckIff(ms: seq<Message>)
    ensures Run(ms).stuck <==> Blocked(ms)
    ensures !Run(ms).stuck ==> Run(ms).regs == Ideal(ms) && (Run(ms).depth > 0 <==> SomeRefused(ms))
  {
    if ms != [] {
      StuckIff(ms[..|ms| - 1]);
      RefusedPrefix(ms);
      StaysBlocked(ms);
      if Blocked(ms) { WasBlocked(ms); }
    }
  }

  // The thread has come to the end of the last message.
  ghost predicate Ends(ms: seq<Message>) {
    !Run(ms).stuck
  }

  /** While the thread has served all messages so far, it serves the next one to its end exactly when none of them was
      refused or the next one has not to wait. */
  lemma EndsIff(ms: seq<Message>, m: Message)
    requires Ends(ms)
    ensures Ends(ms + [m]) <==> !SomeRefused(ms) || !Waits(Ideal(ms), m)
  {
    assert (ms + [m])[..|ms|] == ms;
    StuckIff(ms);
  }

  /** A peer that is refused, whatever the reason, keeps every later peer from registering and from leaving: the next
      registration for which there is room, and the next removal of a listed peer, do not end. */
  lemma RefusedBlocksNext(ms: seq<Message>, fd: nat, setup: Setup, offer: Option<nat>, next: Message)
    requires Ends(ms) && !SomeRefused(ms) && !Opens(Ideal(ms), setup, offer)
    requires Waits(Effect(Ideal(ms), Hello(fd, setup, offer)), next)
    ensures Ends(ms + [Hello(fd, setup, offer)]) && !Ends(ms + [Hello(fd, setup, offer)] + [next])
  {
    var m := Hello(fd, setup, offer);
    EndsIff(ms, m);
    assert (ms + [m])[..|ms|] == ms && (ms + [m] + [next])[..|ms| + 1] == ms + [m];
    StuckIff(ms);
  }

  /** Two peers: the first mapping for A fails and A is refused; B, for which everything is there, is never answered. */
  lemma SecondPeerWaits(good: Setup, region: nat)
    requires good == Setup(true, true, true)
    ensures Ends([Hello(1, good, None)]) && !Ends([Hello(1, good, None)] + [Hello(2, good, Some(region))])
    ensures Ends([Hello(2, good, Some(region))]) && 2 in Run([Hello(2, good, Some(region))]).regs.peers
  {
    var a, b := Hello(1, good, None), Hello(2, good, Some(region));
    assert Run([]) == Init() && Ideal([]) == Init().regs;
    RefusedBlocksNext([], 1, good, None, b);
    assert [] + [a] == [a];
    assert [b][..0] == [];
  }

  /** A message at which the thread gets stuck has listed and unlisted the same peers as if it had been served to its
      end, but the region of a registered peer that leaves stays mapped. */
  lemma StuckLeaves(ms: seq<Message>, m: Message)
    requires Ends(ms) && !Ends(ms + [m])
    ensures var r, r' := Ideal(ms), Run(ms + [m]).regs;
            && r'.peers == Effect(r, m).peers
            && r'.mapped == if m.Leave? && m.fd in r.peers && r.peers[m.fd].heap then r.mapped else Effect(r, m).mapped
  {
    assert (ms + [m])[..|ms|] == ms;
    StuckIff(ms);
  }

  // ---------- who is listed ----------

  lemma {:induction false} FewPeers(ms: seq<Message>)
    ensures |Ideal(ms).peers| <= 64
  {
    if ms != [] {
      var r, m := Ideal(ms[..|ms| - 1]), ms[|ms| - 1];
      FewPeers(ms[..|ms| - 1]);
      EffectPeers(r, m);
      SubsetSize(Effect(r, m).peers.Keys, r.peers.Keys + {m.fd});
      SubsetSize(r.peers.Keys - {m.fd}, r.peers.Keys);
      if m.fd in r.peers {
        assert r.peers.Keys + {m.fd} == r.peers.Keys;
      } else if m.fd !in Effect(r, m).peers {
        SubsetSize(Effect(r, m).peers.Keys, r.peers.Keys);
      }
    }
  }

  // A message lists or removes no peer but its sender, and lists one only while there are fewer than 64.
  lemma EffectPeers(r: Regs, m: Message)
    ensures Effect(r, m).peers.Keys <= r.peers.Keys + {m.fd} && r.peers.Keys - {m.fd} <= Effect(r, m).peers.Keys
    ensures m.fd in Effect(r, m).peers && m.fd !in r.peers ==> |r.peers| < 64
  {}

  /** After whatever messages, at most 64 peers are listed. A new peer is listed exactly when fewer are, there is memory
      for its context, its tables can be had, a region can be mapped and the context can be listed; it is then asked to
      map that region, as its first attempt. The region of a peer that only could not be listed stays mapped. */
  lemma ListedIff(ms: seq<Message>, fd: nat, setup: Setup, offer: Option<nat>)
    requires fd !in Ideal(ms).peers
    ensures |Ideal(ms).peers| <= 64
    ensures var r, r' := Ideal(ms), Ideal(ms + [Hello(fd, setup, offer)]);
            && (fd in r'.peers <==>
                  |r.peers| < 64 && setup.memory && setup.ready && offer.Some? && setup.listed)
            && (fd in r'.peers ==> r'.peers == r.peers[fd := Context(1, offer.value, false, [offer.value])])
            && (fd !in r'.peers ==> r'.peers == r.peers)
            && (if |r.peers| < 64 && setup.memory && setup.ready && offer.Some?
                then r'.mapped == r.mapped + {offer.value}
                     && r'.left == if setup.listed then r.left else r.left + {offer.value}
                else r'.mapped == r.mapped && r'.left == r.left)
  {
    FewPeers(ms);
    assert (ms + [Hello(fd, setup, offer)])[..|ms|] == ms;
  }

  /** A peer that negotiates is registered exactly when it could map the region and the heap was made there; it is asked
      again exactly when it could not map it, was asked fewer than ten times and another region can be mapped;
      otherwise it is no longer listed. No other peer is touched. */
  lemma AnsweredIff(ms: seq<Message>, fd: nat, attached: bool, offer: Option<nat>, heapOk: bool)
    requires fd in Ideal(ms).peers && !Ideal(ms).peers[fd].heap
    ensures var r, r' := Ideal(ms), Ideal(ms + [Reply(fd, attached, offer, heapOk)]);
            var c := r.peers[fd];
            && (fd in r'.peers && r'.peers[fd].heap <==> attached && heapOk)
            && (fd in r'.peers && !r'.peers[fd].heap <==> !attached && c.attempts < 10 && offer.Some?)
            && (fd in r'.peers && !r'.peers[fd].heap ==>
                  r'.peers[fd].attempts == c.attempts + 1 && r'.peers[fd].info == offer.value)
            && r'.peers - {fd} == r.peers - {fd}
  {
    assert (ms + [Reply(fd, attached, offer, heapOk)])[..|ms|] == ms;
  }

  /** The thread comes to a barrier exactly when a listed peer stops being listed, or a new one comes while there are
      fewer than 64 and there is memory for its context. It opens a section and leaves it open exactly when a new peer
      does not come to be listed, or a peer leaves that is not listed. */
  lemma WaitsIff(r: Regs, m: Message)
    requires m.Hello? ==> m.fd !in r.peers
    ensures Waits(r, m) <==>
              if m.Hello? then |r.peers| < 64 && m.setup.memory else m.fd in r.peers && m.fd !in Effect(r, m).peers
    ensures Refused(r, m) <==> (m.Hello? && m.fd !in Effect(r, m).peers) || (m.Leave? && m.fd !in r.peers)
    ensures m.Leave? ==> Effect(r, m).peers == r.peers - {m.fd}
  {}

  // ---------- what stays mapped ----------

  function Regions(c: Context): set<nat> {
    if c.heap then {c.info} else SetOf(c.tmp)
  }

  // What peers send: a new connection has a new socket, only a negotiating peer replies, and the kernel returns no
  // address at which a region is still mapped.
  predicate Legal(r: Regs, m: Message) {
    match m
    case Hello(fd, setup, offer) => fd !in r.peers && (offer.Some? ==> offer.value !in r.mapped)
    case Reply(fd, attached, offer, heapOk) =>
      fd in r.peers && !r.peers[fd].heap && (offer.Some? ==> offer.value !in r.mapped)
    case Leave(fd) => true
  }

  ghost predicate LegalRun(ms: seq<Message>) {
    forall i :: 0 <= i < |ms| ==> Legal(Ideal(ms[..i]), ms[i])
  }

  predicate ContextOk(c: Context) {
    c.heap || (1 <= c.attempts <= MAX_TRIES && |c.tmp| == c.attempts && c.tmp[c.attempts - 1] == c.info
      && c.info !in c.tmp[..c.attempts - 1])
  }

  predicate Owns(r: Regs, fd: nat, a: nat) {
    fd in r.peers && a in Regions(r.peers[fd])
  }

  // Every mapped region belongs to one listed peer or was left behind.
  ghost predicate Inv(r: Regs) {
    && (forall fd :: fd in r.peers ==> ContextOk(r.peers[fd]))
    && (forall a :: a in r.mapped <==> a in r.left || exists fd :: Owns(r, fd, a))
    && (forall a, fd :: Owns(r, fd, a) ==> a !in r.left)
    && (forall a, fd, fd2 :: Owns(r, fd, a) && Owns(r, fd2, a) ==> fd == fd2)
  }

  lemma OneMore(r: Regs, r': Regs, fd: nat, a: nat, c: Context)
    requires Inv(r) && a !in r.mapped && ContextOk(c)
             && Regions(c) == (if fd in r.peers then Regions(r.peers[fd]) else {}) + {a}
    requires r' == r.(peers := r.peers[fd := c], mapped := r.mapped + {a})
    ensures Inv(r')
  {
    forall b, f ensures Owns(r', f, b) <==> Owns(r, f, b) || (f == fd && b == a) {}
    assert Owns(r', fd, a);
    forall b ensures b in r'.mapped <==> b in r'.left || exists f :: Owns(r', f, b) {
      if b in r.mapped && b !in r.left {
        var f :| Owns(r, f, b);
        assert Owns(r', f, b);
      }
    }
  }

  // A peer gives up some of its regions, perhaps all of them with its context.
  lemma Fewer(r: Regs, r': Regs, fd: nat, gone: set<nat>)
    requires Inv(r) && fd in r.peers && gone <= Regions(r.peers[fd]) && r'.left == r.left
             && r'.mapped == r.mapped - gone
    requires r'.peers == r.peers - {fd} ==> gone == Regions(r.peers[fd])
    requires r'.peers == r.peers - {fd} ||
             (fd in r'.peers && r'.peers == r.peers[fd := r'.peers[fd]] && ContextOk(r'.peers[fd])
               && Regions(r'.peers[fd]) == Regions(r.peers[fd]) - gone)
    ensures Inv(r')
  {
    forall b, f ensures Owns(r', f, b) <==> Owns(r, f, b) && !(f == fd && b in gone) {}
    forall b ensures b in r'.mapped <==> b in r'.left || exists f :: Owns(r', f, b) {
      if b in gone { assert Owns(r, fd, b); }
      if b in r.mapped && b !in r.left && b !in gone {
        var f :| Owns(r, f, b);
        assert Owns(r', f, b);
      }
    }
  }

  // The context of a peer goes and its regions stay.
  lemma Abandoned(r: Regs, r': Regs, fd: nat)
    requires Inv(r) && fd in r.peers && r' == r.(peers := r.peers - {fd}, left := r.left + Regions(r.peers[fd]))
    ensures Inv(r')
  {
    forall b, f ensures Owns(r', f, b) <==> Owns(r, f, b) && f != fd {}
    forall b, f | Owns(r', f, b) ensures b !in r'.left {
      assert b in Regions(r.peers[fd]) ==> Owns(r, fd, b);
    }
    forall b ensures b in r'.mapped <==> b in r'.left || exists f :: Owns(r', f, b) {
      if b in r.mapped && b !in r.left {
        var f :| Owns(r, f, b);
        assert f == fd || Owns(r', f, b);
      }
      if b in Regions(r.peers[fd]) { assert Owns(r, fd, b); }
    }
  }

  lemma Orphaned(r: Regs, r': Regs, a: nat)
    requires Inv(r) && a !in r.mapped && r' == r.(mapped := r.mapped + {a}, left := r.left + {a})
    ensures Inv(r')
  {
    forall b, f ensures Owns(r', f, b) <==> Owns(r, f, b) {}
    forall b ensures b in r'.mapped <==> b in r'.left || exists f :: Owns(r', f, b) {
      if b in r.mapped && b !in r.left {
        var f :| Owns(r, f, b);
        assert Owns(r', f, b);
      }
    }
  }

  lemma HelloKeeps(r: Regs, fd: nat, setup: Setup, offer: Option<nat>)
    requires Inv(r) && Legal(r, Hello(fd, setup, offer))
    ensures Inv(Effect(r, Hello(fd, setup, offer)))
  {
    var r' := Effect(r, Hello(fd, setup, offer));
    if Opens(r, setup, offer) {
      assert SetOf([offer.value]) == {offer.value};
      OneMore(r, r', fd, offer.value, Context(1, offer.value, false, [offer.value]));
    } else if Orphans(r, setup, offer) {
      Orphaned(r, r', offer.value);
    }
  }

  lemma LastRegion(c: Context)
    requires ContextOk(c) && !c.heap
    ensures c.info in SetOf(c.tmp)
  {}

  lemma TryAgain(c: Context, a: nat)
    requires ContextOk(c) && !c.heap && c.attempts < MAX_TRIES && a !in SetOf(c.tmp)
    ensures ContextOk(Context(c.attempts + 1, a, false, c.tmp + [a])) && SetOf(c.tmp + [a]) == SetOf(c.tmp) + {a}
  {
    assert (c.tmp + [a])[..c.attempts] == c.tmp;
    SetOfAppend(c.tmp, a);
  }

  lemma ReplyKeeps(r: Regs, fd: nat, attached: bool, offer: Option<nat>, heapOk: bool)
    requires Inv(r) && Legal(r, Reply(fd, attached, offer, heapOk))
    ensures Inv(Effect(r, Reply(fd, attached, offer, heapOk)))
  {
    var r', c := Effect(r, Reply(fd, attached, offer, heapOk)), r.peers[fd];
    LastRegion(c);
    if attached && heapOk {
      assert Owns(r, fd, c.info);
      assert r'.mapped == r.mapped - (SetOf(c.tmp) - {c.info});
      Fewer(r, r', fd, SetOf(c.tmp) - {c.info});
    } else if Proposes(c, attached, offer) {
      assert forall a :: a in SetOf(c.tmp) ==> Owns(r, fd, a);
      TryAgain(c, offer.value);
      OneMore(r, r', fd, offer.value, Context(c.attempts + 1, offer.value, false, c.tmp + [offer.value]));
    } else {
      Fewer(r, r', fd, SetOf(c.tmp));
    }
  }

  lemma OwnMapped(r: Regs, fd: nat)
    requires Inv(r) && fd in r.peers
    ensures Regions(r.peers[fd]) <= r.mapped
  {
    forall a | a in Regions(r.peers[fd]) ensures a in r.mapped {
      assert Owns(r, fd, a);
    }
  }

  lemma EffectKeeps(r: Regs, m: Message)
    requires Inv(r) && Legal(r, m)
    ensures Inv(Effect(r, m))
  {
    match m
    case Hello(fd, setup, offer) => HelloKeeps(r, fd, setup, offer);
    case Reply(fd, attached, offer, heapOk) => ReplyKeeps(r, fd, attached, offer, heapOk);
    case Leave(fd) =>
      if fd in r.peers {
        if r.peers[fd].heap {
          Fewer(r, Effect(r, m), fd, {r.peers[fd].info});
        } else {
          OwnMapped(r, fd);
          assert SetOf(r.peers[fd].tmp) * r.mapped == SetOf(r.peers[fd].tmp);
          Abandoned(r, Effect(r, m), fd);
        }
      }
  }

  // The message leaves a region mapped without a context.
  predicate Abandons(r: Regs, m: Message) {
    match m
    case Hello(fd, setup, offer) => Orphans(r, setup, offer)
    case Reply(fd, attached, offer, heapOk) => false
    case Leave(fd) => fd in r.peers && !r.peers[fd].heap
  }

  predicate AbandonsAt(ms: seq<Message>, i: nat)
    requires i < |ms|
  {
    Abandons(Ideal(ms[..i]), ms[i])
  }

  ghost predicate SomeAbandoned(ms: seq<Message>) {
    exists i :: 0 <= i < |ms| && AbandonsAt(ms, i)
  }

  lemma AbandonedPrefix(ms: seq<Message>)
    requires ms != []
    ensures var before, n := ms[..|ms| - 1], |ms| - 1;
            && (SomeAbandoned(ms) <==> SomeAbandoned(before) || Abandons(Ideal(before), ms[n]))
            && (LegalRun(ms) ==> LegalRun(before) && Legal(Ideal(before), ms[n]))
  {
    var before, n := ms[..|ms| - 1], |ms| - 1;
    forall i: nat | i < n ensures before[i] == ms[i] && before[..i] == ms[..i] {
      Prefix(ms, i);
    }
    assert forall i: nat :: i < n ==> (AbandonsAt(before, i) <==> AbandonsAt(ms, i));
    assert AbandonsAt(ms, n) <==> Abandons(Ideal(before), ms[n]);
  }

  lemma AbandonsLeaves(r: Regs, m: Message)
    requires Inv(r)
    ensures Effect(r, m).left == {} <==> r.left == {} && !Abandons(r, m)
    ensures r.left <= Effect(r, m).left
  {
    if m.Leave? && m.fd in r.peers && !r.peers[m.fd].heap {
      LastRegion(r.peers[m.fd]);
      assert Owns(r, m.fd, r.peers[m.fd].info);
    }
  }

  lemma {:induction false} LeftIff(ms: seq<Message>)
    requires LegalRun(ms)
    ensures Inv(Ideal(ms)) && (Ideal(ms).left == {} <==> !SomeAbandoned(ms))
  {
    if ms != [] {
      var before, m := ms[..|ms| - 1], ms[|ms| - 1];
      AbandonedPrefix(ms);
      LeftIff(before);
      EffectKeeps(Ideal(before), m);
      AbandonsLeaves(Ideal(before), m);
    }
  }

  /** After any messages that were all served, every region the primary has mapped belongs to exactly one listed peer,
      and no two peers share one, exactly when no peer went down in mid-negotiation and no context could not be listed;
      the regions of those stay mapped. */
  lemma EveryRegionHasAPeerIff(ms: seq<Message>)
    requires LegalRun(ms) && Ends(ms)
    ensures (forall a :: a in Run(ms).regs.mapped ==> exists fd :: Owns(Run(ms).regs, fd, a)) <==> !SomeAbandoned(ms)
    ensures forall a, fd :: Owns(Run(ms).regs, fd, a) ==> a in Run(ms).regs.mapped
    ensures forall a, fd, fd2 :: Owns(Run(ms).regs, fd, a) && Owns(Run(ms).regs, fd2, a) ==> fd == fd2
  {
    StuckIff(ms);
    LeftIff(ms);
    var r := Run(ms).regs;
    if a :| a in r.left {
      assert a in r.mapped && !exists fd :: Owns(r, fd, a);
    }
  }

  /** A peer that is removed leaves its regions mapped exactly when it was negotiating, and then all of them. */
  lemma RemovalLeaves(r: Regs, fd: nat)
    requires Inv(r) && fd in r.peers
    ensures Effect(r, Leave(fd)).mapped == r.mapped - (if r.peers[fd].heap then Regions(r.peers[fd]) else {})
    ensures Regions(r.peers[fd]) * Effect(r, Leave(fd)).mapped ==
              if r.peers[fd].heap then {} else SetOf(r.peers[fd].tmp)
    ensures SetOf(r.peers[fd].tmp) != {} || r.peers[fd].heap
  {
    assert forall a :: a in Regions(r.peers[fd]) ==> Owns(r, fd, a);
    if !r.peers[fd].heap { LastRegion(r.peers[fd]); }
  }

  // ---------- the thread ----------

  lemma OnlyLast(q: seq<nat>)
    requires q != [] && q[|q| - 1] !in q[..|q| - 1]
    ensures SetOf(q) - SetOf(q[..|q| - 1]) == {q[|q| - 1]}
  {
    assert q == q[..|q| - 1] + [q[|q| - 1]];
    SetOfAppend(q[..|q| - 1], q[|q| - 1]);
  }

  // Only the last of the regions of a peer stays mapped.
  lemma KeepLast(mapped: set<nat>, c: Context)
    requires ContextOk(c) && !c.heap && SetOf(c.tmp) <= mapped
    ensures mapped - SetOf(c.tmp[..c.attempts - 1]) == mapped - SetOf(c.tmp) + {c.info}
  {
    OnlyLast(c.tmp);
    LastRegion(c);
    assert forall a :: a in SetOf(c.tmp[..c.attempts - 1]) ==> a in SetOf(c.tmp);
  }

  class Primary {
    var peers: map<nat, Context>
    var mapped: set<nat>
    ghost var left: set<nat>
    var depth: nat
    var stuck: bool

    ghost function View(): State reads this {
      State(Regs(peers, mapped, left), depth, stuck)
    }

    constructor ()
      ensures View() == Init()
    {
      peers, mapped, left, depth, stuck := map[], {}, {}, 0, false;
    }

    // ck_epoch_barrier: false when it does not return.
    method Barrier() returns (passed: bool)
      requires !stuck
      modifies this`stuck
      ensures passed == (depth == 0) && stuck == !passed
    {
      passed := depth == 0;
      stuck := !passed;
    }

    /** jbpf_io_ipc_remove_peer: when the peer is not listed, the section stays open */
    method RemovePeer(fd: nat)
      requires !stuck
      modifies this
      ensures View() == Handle(old(View()), Leave(fd))
    {
      depth := depth + 1;
      if fd !in peers {
        return;
      }
      var c := peers[fd];
      peers := peers - {fd};
      depth := depth - 1;
      if !c.heap {
        left := left + SetOf(c.tmp) * mapped;
      }
      var passed := Barrier();
      if passed && c.heap {
        mapped := mapped - {c.info};
      }
    }

    /** jbpf_io_ipc_reg_init: the sections are closed on every path, and a barrier follows unless there is no room; a
        context that cannot be listed is destroyed, and its region stays mapped */
    method Start(fd: nat, setup: Setup, offer: Option<nat>) returns (res: int, resp: Response, returned: bool)
      requires !stuck && fd !in peers
      modifies this
      ensures View().regs == Effect(old(View().regs), Hello(fd, setup, offer)) && depth == old(depth)
      ensures stuck == !returned && (returned <==> depth == 0 || !Room(old(View().regs), setup))
      ensures Opens(old(View().regs), setup, offer) ==> res == 1 && resp == Response(NegMmap, offer.value)
      ensures !Opens(old(View().regs), setup, offer) ==> res == -1 && resp.status in {RegInit, RegFail}
    {
      depth := depth + 1;
      if |peers| >= MAX_PEERS || !setup.memory {
        depth := depth - 1;
        return -1, Response(RegInit, 0), true;
      }
      var base := 0;
      if setup.ready && offer.Some? {
        base := offer.value;
        mapped := mapped + {base};
        if setup.listed {
          peers := peers[fd := Context(1, base, false, [base])];
          depth := depth - 1;
          returned := Barrier();
          return 1, Response(NegMmap, base), returned;
        }
        left := left + {base};
      }
      depth := depth - 1;
      returned := Barrier();
      res, resp := -1, Response(RegFail, base);
    }

    /** jbpf_io_ipc_handle_reg_req for a new connection: no answer is sent when the thread does not get past the
        barrier; a peer that is refused is then removed, although it was never listed */
    method HandleInit(fd: nat, setup: Setup, offer: Option<nat>) returns (answer: Option<Response>)
      requires !stuck && fd !in peers
      modifies this
      ensures View() == Handle(old(View()), Hello(fd, setup, offer))
      ensures answer.Some? <==> old(depth) == 0 || !Room(old(View().regs), setup)
      ensures answer.Some? && Opens(old(View().regs), setup, offer) ==> answer.value == Response(NegMmap, offer.value)
      ensures answer.Some? && !Opens(old(View().regs), setup, offer) ==> answer.value.status in {RegInit, RegFail}
    {
      var res, resp, returned := Start(fd, setup, offer);
      if !returned {
        return None;
      }
      answer := Some(resp);
      if res < 0 {
        RemovePeer(fd);
      }
    }

    // The unmapping loop at the end of jbpf_io_ipc_reg_neg.
    method FreeUnused(tmp: seq<nat>, n: nat)
      requires n <= |tmp|
      modifies this`mapped
      ensures mapped == old(mapped) - SetOf(tmp[..n])
    {
      for i := 0 to n
        invariant mapped == old(mapped) - SetOf(tmp[..i])
      {
        assert tmp[..i + 1] == tmp[..i] + [tmp[i]];
        mapped := mapped - {tmp[i]};
      }
    }

    // The answer to a secondary that could map: a heap is made in the region and the others go.
    method Accept(fd: nat, heapOk: bool) returns (res: int, resp: Response)
      requires fd in peers && ContextOk(peers[fd]) && !peers[fd].heap && SetOf(peers[fd].tmp) <= mapped
      modifies this`peers, this`mapped
      ensures var c := old(peers[fd]);
              if heapOk then
                && res == 1 && resp == Response(RegSucc, c.info)
                && peers == old(peers)[fd := c.(heap := true)] && mapped == old(mapped) - SetOf(c.tmp) + {c.info}
              else
                res == -1 && resp.status == RegFail && peers == old(peers) && mapped == old(mapped) - SetOf(c.tmp)
    {
      var c := peers[fd];
      if heapOk {
        peers := peers[fd := c.(heap := true)];
        FreeUnused(c.tmp, c.attempts - 1);
        KeepLast(old(mapped), c);
        res, resp := 1, Response(RegSucc, c.info);
      } else {
        mapped := mapped - {c.info};
        FreeUnused(c.tmp, c.attempts);
        LastRegion(c);
        assert c.tmp[..c.attempts] == c.tmp;
        res, resp := -1, Response(RegFail, c.info);
      }
    }

    // The answer to a secondary that could not: another region, or none after the last attempt.
    method Retry(fd: nat, offer: Option<nat>) returns (res: int, resp: Response)
      requires fd in peers && ContextOk(peers[fd]) && !peers[fd].heap
      modifies this`peers, this`mapped
      ensures var c := old(peers[fd]);
              if Proposes(c, false, offer) then
                && res == 1 && resp == Response(NegMmap, offer.value)
                && peers == old(peers)[fd := Context(c.attempts + 1, offer.value, false, c.tmp + [offer.value])]
                && mapped == old(mapped) + {offer.value}
              else
                && res == -1 && resp.status in {RegInit, RegFail}
                && fd in peers && !peers[fd].heap && peers[fd].tmp == c.tmp && peers - {fd} == old(peers) - {fd}
                && mapped == old(mapped) - SetOf(c.tmp)
    {
      var c := peers[fd];
      var attempts := c.attempts + 1;
      peers := peers[fd := c.(attempts := attempts)];
      if attempts > MAX_TRIES {
        assert c.tmp[..MAX_TRIES] == c.tmp;
        FreeUnused(c.tmp, MAX_TRIES);
        return -1, Response(RegFail, 0);
      }
      match offer
      case None =>
        assert c.tmp[..attempts - 1] == c.tmp;
        FreeUnused(c.tmp, attempts - 1);
        return -1, Response(RegInit, 0);
      case Some(addr) =>
        mapped := mapped + {addr};
        peers := peers[fd := Context(attempts, addr, false, c.tmp + [addr])];
        return 1, Response(NegMmap, addr);
    }

    /** jbpf_io_ipc_handle_reg_req for an answer of a secondary: the secondary is told, and then removed when the
        negotiation has failed */
    method HandleReply(fd: nat, attached: bool, offer: Option<nat>, heapOk: bool) returns (answer: Response)
      requires !stuck && fd in peers && ContextOk(peers[fd]) && !peers[fd].heap && SetOf(peers[fd].tmp) <= mapped
      modifies this
      ensures View() == Handle(old(View()), Reply(fd, attached, offer, heapOk))
      ensures attached && heapOk ==> answer == Response(RegSucc, old(peers[fd]).info)
      ensures Proposes(old(peers[fd]), attached, offer) ==> answer == Response(NegMmap, offer.value)
      ensures !(attached && heapOk) && !Proposes(old(peers[fd]), attached, offer) ==>
                answer.status in {RegInit, RegFail}
    {
      var res;
      if attached {
        res, answer := Accept(fd, heapOk);
      } else {
        res, answer := Retry(fd, offer);
      }
      if res < 0 {
        ghost var tmp := peers[fd].tmp;
        assert SetOf(tmp) * mapped == {} && left + SetOf(tmp) * mapped == left;
        RemovePeer(fd);
      }
    }
  }

  lemma {:induction false} StuckStays(ms: seq<Message>, n: nat)
    requires n <= |ms| && Run(ms[..n]).stuck
    ensures Run(ms) == Run(ms[..n])
  {
    if n < |ms| {
      assert ms[..|ms| - 1][..n] == ms[..n];
      StuckStays(ms[..|ms| - 1], n);
    } else {
      assert ms[..n] == ms;
    }
  }

  // What the handlers demand of the registrations holds whenever the thread takes a message.
  lemma ReadyFor(ms: seq<Message>, n: nat)
    requires n < |ms| && LegalRun(ms) && Ends(ms[..n])
    ensures var r := Run(ms[..n]).regs;
            && (ms[n].Hello? ==> ms[n].fd !in r.peers)
            && (ms[n].Reply? ==> ms[n].fd in r.peers && ContextOk(r.peers[ms[n].fd]) && !r.peers[ms[n].fd].heap
                                 && SetOf(r.peers[ms[n].fd].tmp) <= r.mapped)
  {
    assert forall i :: 0 <= i < n ==> ms[..n][..i] == ms[..i];
    StuckIff(ms[..n]);
    LeftIff(ms[..n]);
    assert Legal(Ideal(ms[..n]), ms[n]);
    if ms[n].Reply? { OwnMapped(Ideal(ms[..n]), ms[n].fd); }
  }

  /** dipc_ctrl_thread: the thread, working in place, does what the run says, up to the message it does not get past */
  method Serve(ms: seq<Message>) returns (p: Primary)
    requires LegalRun(ms)
    ensures p.View() == Run(ms)
  {
    p := new Primary();
    for i := 0 to |ms|
      invariant p.View() == Run(ms[..i])
    {
      assert ms[..i + 1][..i] == ms[..i];
      if p.stuck {
        StuckStays(ms, i);
        return;
      }
      ReadyFor(ms, i);
      match ms[i]
      case Hello(fd, setup, offer) => var _ := p.HandleInit(fd, setup, offer);
      case Reply(fd, attached, offer, heapOk) => var _ := p.HandleReply(fd, attached, offer, heapOk);
      case Leave(fd) => p.RemovePeer(fd);
    }
    assert ms[..|ms|] == ms;
  }
}
