/**
 Registration of a secondary process: the two processes look for an address at which both can map
 the shared region.

 The primary maps a region and proposes its address; the secondary tries to map there and answers.
 After a refusal the primary maps another region before giving the old one up, since otherwise the
 kernel would return the same address. What the kernel answers on either side is a parameter.
 */
module IpcRegistration {
  import opened Collections
  import opened IpcControl

  type Offers = seq<Option<nat>>

  ghost predicate Distinct(offers: Offers) {
    forall i, j :: 0 <= i < j < |offers| && offers[i].Some? && offers[j].Some? ==> offers[i] != offers[j]
  }

  // What the kernel returns when the primary maps a region for the k-th time. Regions mapped
  // earlier are still mapped, so no address of one of them is returned.
  ghost predicate KernelOffers(offers: Offers, mapped: set<nat>) {
    && |offers| == MAX_TRIES
    && (forall i :: 0 <= i < |offers| && offers[i].Some? ==> offers[i].value !in mapped)
    && Distinct(offers)
  }

  // The secondary was offered an address n times and could map none.
  predicate TurnedDown(offers: Offers, attaches: seq<bool>, n: nat)
    requires |offers| == |attaches| == MAX_TRIES && n <= MAX_TRIES
  {
    n == 0 || (TurnedDown(offers, attaches, n - 1) && offers[n - 1].Some? && !attaches[n - 1])
  }

  // The k-th address is the first the secondary could map, and no mapping failed before it.
  predicate Settles(offers: Offers, attaches: seq<bool>, k: nat)
    requires |offers| == |attaches| == MAX_TRIES
  {
    k < MAX_TRIES && TurnedDown(offers, attaches, k) && offers[k].Some? && attaches[k]
  }

  ghost predicate CanSettle(offers: Offers, attaches: seq<bool>)
    requires |offers| == |attaches| == MAX_TRIES
  {
    exists k :: Settles(offers, attaches, k)
  }

  lemma {:induction false} TurnedDownBefore(offers: Offers, attaches: seq<bool>, k: nat, n: nat)
    requires |offers| == |attaches| == MAX_TRIES && k < n <= MAX_TRIES && TurnedDown(offers, attaches, n)
    ensures TurnedDown(offers, attaches, k) && offers[k].Some? && !attaches[k]
  {
    if k + 1 < n { TurnedDownBefore(offers, attaches, k, n - 1); }
  }

  /** Once the offers have run out, nothing settles. */
  lemma NeverSettles(offers: Offers, attaches: seq<bool>, n: nat)
    requires |offers| == |attaches| == MAX_TRIES && n <= MAX_TRIES && TurnedDown(offers, attaches, n)
    requires n < MAX_TRIES ==> offers[n].None?
    ensures !CanSettle(offers, attaches)
  {
    forall k: nat ensures !Settles(offers, attaches, k) {
      if k < n {
        TurnedDownBefore(offers, attaches, k, n);
      } else if n < k < MAX_TRIES && TurnedDown(offers, attaches, k) {
        TurnedDownBefore(offers, attaches, n, k);
      }
    }
  }

  // The first n addresses proposed.
  function Proposed(offers: Offers, n: nat): (q: seq<nat>)
    requires n <= |offers|
    ensures |q| == n
  {
    if n == 0 then [] else Proposed(offers, n - 1) + [if offers[n - 1].Some? then offers[n - 1].value else 0]
  }

  lemma {:induction false} NextIsNew(offers: Offers, attaches: seq<bool>, n: nat, k: nat)
    requires |offers| == |attaches| == MAX_TRIES && n <= k < MAX_TRIES && Distinct(offers)
    requires TurnedDown(offers, attaches, n) && offers[k].Some?
    ensures offers[k].value !in Proposed(offers, n)
  {
    if n > 0 {
      NextIsNew(offers, attaches, n - 1, k);
      assert offers[n - 1] != offers[k];
    }
  }

  // The context after the k-th proposal, with the regions proposed before still mapped.
  function Asking(offers: Offers, n: nat): Context
    requires 1 <= n <= |offers| && offers[n - 1].Some?
  {
    Context(n, offers[n - 1].value, false, Proposed(offers, n))
  }

  lemma AskingOk(offers: Offers, attaches: seq<bool>, n: nat)
    requires |offers| == |attaches| == MAX_TRIES && Distinct(offers) && 1 <= n <= MAX_TRIES
    requires TurnedDown(offers, attaches, n - 1) && offers[n - 1].Some?
    ensures ContextOk(Asking(offers, n))
  {
    NextIsNew(offers, attaches, n - 1, n - 1);
    assert Proposed(offers, n)[..n - 1] == Proposed(offers, n - 1);
  }

  lemma {:induction false} ProposedNew(offers: Offers, attaches: seq<bool>, n: nat, others: set<nat>)
    requires KernelOffers(offers, others) && |attaches| == MAX_TRIES && 1 <= n <= MAX_TRIES
    requires TurnedDown(offers, attaches, n - 1) && offers[n - 1].Some?
    ensures SetOf(Proposed(offers, n)) !! others
  {
    if n > 1 { ProposedNew(offers, attaches, n - 1, others); }
    SetOfAppend(Proposed(offers, n - 1), offers[n - 1].value);
  }

  // The registrations while one peer negotiates: the regions of the others and of this one are mapped.
  ghost function With(peers: map<nat, Context>, fd: nat, c: Context, others: set<nat>, left: set<nat>): Regs {
    Regs(peers[fd := c], others + Regions(c), left)
  }

  // A reply from the peer that negotiates changes nothing of the others.
  lemma ReplyEffect(peers: map<nat, Context>, fd: nat, c: Context, others: set<nat>, left: set<nat>, reply: Message)
    requires reply.Reply? && reply.fd == fd && ContextOk(c) && !c.heap && SetOf(c.tmp) !! others
    ensures var r := Effect(With(peers, fd, c, others, left), reply);
            if reply.attached && reply.heapOk then r == With(peers, fd, c.(heap := true), others, left)
            else if Proposes(c, reply.attached, reply.offer) then
              var a := reply.offer.value;
              r == With(peers, fd, Context(c.attempts + 1, a, false, c.tmp + [a]), others, left)
            else r == Regs(peers - {fd}, others, left)
  {
    if Proposes(c, reply.attached, reply.offer) { SetOfAppend(c.tmp, reply.offer.value); }
  }

  lemma HelloEffect(r: Regs, fd: nat, setup: Setup, offers: Offers)
    requires offers != [] && Opens(r, setup, offers[0])
    ensures Effect(r, Hello(fd, setup, offers[0])) == With(r.peers, fd, Asking(offers, 1), r.mapped, r.left)
  {
    assert Proposed(offers, 1) == [offers[0].value] && SetOf([offers[0].value]) == {offers[0].value};
  }

  // One answer of the secondary and what the primary makes of it.
  method Ask(p: Primary, fd: nat, attached: bool, offer: Option<nat>, heapOk: bool,
      ghost peers: map<nat, Context>, ghost c: Context, ghost others: set<nat>, ghost left: set<nat>)
      returns (resp: Response)
    requires p.View() == State(With(peers, fd, c, others, left), 0, false)
    requires ContextOk(c) && !c.heap && SetOf(c.tmp) !! others
    modifies p
    ensures p.depth == 0 && !p.stuck
    ensures attached && heapOk ==>
              resp.status == RegSucc && p.View().regs == With(peers, fd, c.(heap := true), others, left)
    ensures Proposes(c, attached, offer) ==>
              && resp == Response(NegMmap, offer.value)
              && p.View().regs == With(peers, fd, Context(c.attempts + 1, offer.value, false, c.tmp + [offer.value]),
                   others, left)
    ensures !(attached && heapOk) && !Proposes(c, attached, offer) ==>
              resp.status in {RegInit, RegFail} && p.View().regs == Regs(peers - {fd}, others, left)
  {
    ReplyEffect(peers, fd, c, others, left, Reply(fd, attached, offer, heapOk));
    resp := p.HandleReply(fd, attached, offer, heapOk);
  }

  // The peer is registered with the n-th region, and of its regions no other is mapped.
  ghost predicate Agreed(s: State, peers: map<nat, Context>, fd: nat, offers: Offers, n: nat, others: set<nat>,
      left: set<nat>)
  {
    && 1 <= n <= |offers| && offers[n - 1].Some?
    && s == State(With(peers, fd, Asking(offers, n).(heap := true), others, left), 0, false)
  }

  // How a negotiation ends.
  ghost predicate Settled(s': State, s: State, fd: nat, offers: Offers, attaches: seq<bool>, heapOk: bool,
      ok: bool, attached: set<nat>, tries: nat)
    requires |offers| == |attaches| == MAX_TRIES
  {
    && tries <= MAX_TRIES && (ok <==> heapOk && CanSettle(offers, attaches))
    && (ok ==> tries > 0 && Settles(offers, attaches, tries - 1) && attached == {offers[tries - 1].value})
    && (ok ==> Agreed(s', s.regs.peers, fd, offers, tries, s.regs.mapped, s.regs.left))
    && (!ok ==> s' == State(Regs(s.regs.peers - {fd}, s.regs.mapped, s.regs.left), 0, false))
    && (!ok ==> (attached == {} <==> !CanSettle(offers, attaches)))
  }

  // The loop of jbpf_io_ipc_register, after the first region has been proposed.
  method Negotiate(p: Primary, fd: nat, offers: Offers, attaches: seq<bool>, heapOk: bool, ghost s: State)
      returns (ok: bool, attached: set<nat>, tries: nat)
    requires KernelOffers(offers, s.regs.mapped) && |attaches| == MAX_TRIES && offers[0].Some?
    requires p.View() == State(With(s.regs.peers, fd, Asking(offers, 1), s.regs.mapped, s.regs.left), 0, false)
    modifies p
    ensures Settled(p.View(), s, fd, offers, attaches, heapOk, ok, attached, tries)
  {
    ghost var peers, others, left := s.regs.peers, s.regs.mapped, s.regs.left;
    attached, tries := {}, 0;
    var resp := Response(NegMmap, offers[0].value);
    while resp.status == NegMmap && tries < MAX_TRIES
      invariant tries <= MAX_TRIES && attached == {} && TurnedDown(offers, attaches, tries)
      invariant resp.status == NegMmap ==>
                  && tries < MAX_TRIES && offers[tries] == Some(resp.base)
                  && p.View() == State(With(peers, fd, Asking(offers, tries + 1), others, left), 0, false)
      invariant resp.status != NegMmap ==>
                  && p.View() == State(Regs(peers - {fd}, others, left), 0, false)
                  && (tries < MAX_TRIES ==> offers[tries].None?)
      decreases MAX_TRIES - tries
    {
      var addr := resp.base;
      var mappedHere := attaches[tries];
      tries := tries + 1;
      var next := if !mappedHere && tries < MAX_TRIES then offers[tries] else None;
      AskingOk(offers, attaches, tries);
      ProposedNew(offers, attaches, tries, others);
      resp := Ask(p, fd, mappedHere, next, heapOk, peers, Asking(offers, tries), others, left);
      if mappedHere {
        assert Settles(offers, attaches, tries - 1);
        return resp.status == RegSucc, {addr}, tries;
      }
    }
    NeverSettles(offers, attaches, tries);
    ok := false;
  }

  /** jbpf_io_ipc_register: the primary's control thread comes to the end of the registration exactly when no section is
      open or there is no room. Then registration succeeds exactly when the primary can take the peer, within ten
      attempts the secondary can map an offered region, no mapping failed before it and the heap can be made. The two
      processes share that region and the primary keeps no other. After a failure the primary does not know the peer,
      and keeps a region exactly when it could not list the peer's context. The secondary is left with a mapping of its
      own exactly when it was the heap that failed. A peer refused before it was listed leaves a section open. */
  method Register(p: Primary, fd: nat, setup: Setup, offers: Offers, attaches: seq<bool>, heapOk: bool)
      returns (ended: bool, ok: bool, attached: set<nat>, tries: nat)
    requires KernelOffers(offers, p.mapped) && |attaches| == MAX_TRIES && !p.stuck && fd !in p.peers
    modifies p
    ensures ended <==> old(p.depth) == 0 || !Room(old(p.View().regs), setup)
    ensures !ended ==> p.stuck && !ok && attached == {}
    ensures ended && !Opens(old(p.View().regs), setup, offers[0]) ==>
              && !p.stuck && p.depth == old(p.depth) + 1 && !ok && attached == {} && p.peers == old(p.peers)
              && p.mapped ==
                   old(p.mapped) + if Orphans(old(p.View().regs), setup, offers[0]) then {offers[0].value} else {}
    ensures ended && Opens(old(p.View().regs), setup, offers[0]) ==>
              Settled(p.View(), old(p.View()), fd, offers, attaches, heapOk, ok, attached, tries)
  {
    ghost var before := p.View();
    var answer := p.HandleInit(fd, setup, offers[0]);
    match answer
    case None =>
      ended, ok, attached, tries := false, false, {}, 0;
    case Some(resp) =>
      ended := true;
      if resp.status == NegMmap {
        HelloEffect(before.regs, fd, setup, offers);
        ok, attached, tries := Negotiate(p, fd, offers, attaches, heapOk, before);
      } else {
        ok, attached, tries := false, {}, 0;
      }
  }
}
