/**
 What lazy reliable broadcast guarantees. Agreement is conditional, because a message that arrives
 after its originator's crash was reported is not sent on; `LazyRbExact` says exactly when it holds.
 */
module LazyRbTheorems {
  import opened Ranks
  import opened Messages
  import opened LazyRbSpec
  import opened LazyRbSystem

  /** Every message between live peers has been handled. */
  ghost predicate Quiescent(s: Sys) {
    forall k :: k in s.sent && k.src !in s.crashed && k.dst !in s.crashed ==> k in s.handled
  }

  /** Every crash has been reported to every live peer. */
  ghost predicate AllReported(n: nat, s: Sys) {
    forall p, q :: p in Alive(n, s) && p in s.log && q in s.crashed ==> Reported(q) in s.log[p]
  }

  /**
   A message a live peer sent to itself reaches every live peer. A peer takes its own messages from
   itself only, so its originator, if it is the one to be reached, must be the sender.
   */
  lemma LiveSenderSpreads(n: nat, s: Sys, q: Rank, r: Rank, m: Msg)
    requires Inv(n, s) && Quiescent(s) && q in Alive(n, s) && r in Alive(n, s)
    requires Packet(q, q, m) in s.sent && (m.origin == r ==> q == r)
    ensures Delivered(m) in s.log[r]
  {
    assert Packet(q, r, m) in s.handled;
    assert PeerLogged(r, s.peers[r], s.log[r], s.handled, s.registry);
  }

  /**
   Agreement: in every reachable quiescent state where all crashes have been reported, a message some
   live peer delivered before its own report of the originator's crash - in particular any message of
   a live originator - has been delivered by every live peer, even if its originator crashed part-way.
   */
  lemma Agreement(n: nat, s: Sys, p: Rank, m: Msg)
    requires Reachable(n, s) && Quiescent(s) && AllReported(n, s)
    requires p in Alive(n, s) && p in s.log && Early(s.log[p], m)
    ensures forall r :: r in Alive(n, s) ==> r in s.log && Delivered(m) in s.log[r]
  {
    ReachableInv(n, s);
    var q := LiveSender(n, s, p, m);
    forall r | r in Alive(n, s)
      ensures Delivered(m) in s.log[r]
    {
      LiveSenderSpreads(n, s, q, r, m);
    }
  }

  /** Either the originator is live, or the peer that delivered early has sent the message on. */
  lemma LiveSender(n: nat, s: Sys, p: Rank, m: Msg) returns (q: Rank)
    requires Inv(n, s) && AllReported(n, s) && p in Alive(n, s) && Early(s.log[p], m)
    ensures q in Alive(n, s) && Packet(q, q, m) in s.sent
    ensures m.origin in Alive(n, s) ==> q == m.origin
  {
    assert PeerLogged(p, s.peers[p], s.log[p], s.handled, s.registry);
    assert m.id in s.registry && s.registry[m.id] == m;
    if m.origin in s.crashed {
      assert Relays(s.sent, p, true, s.log[p]);
      q := p;
    } else {
      q := m.origin;
    }
  }

  /** A live peer sends on another's message exactly if it delivered it early and the crash was reported to it. */
  lemma RelaysExactly(n: nat, s: Sys, p: Rank, m: Msg)
    requires Reachable(n, s) && p in Alive(n, s) && m.origin != p
    ensures p in s.log
    ensures (forall d :: d in All(n) ==> Packet(p, d, m) in s.sent)
       <==> Early(s.log[p], m) && Reported(m.origin) in s.log[p]
  {
    ReachableInv(n, s);
    assert Relays(s.sent, p, true, s.log[p]);
    if Packet(p, p, m) in s.sent {
      forall d | d in All(n)
        ensures Packet(p, d, m) in s.sent
      {
      }
    }
  }

  /** Validity: what a live peer broadcast, every live peer has delivered in every quiescent state. */
  lemma Validity(n: nat, s: Sys, m: Msg)
    requires Reachable(n, s) && Quiescent(s)
    requires m.id in s.registry && s.registry[m.id] == m && m.origin in Alive(n, s)
    ensures forall r :: r in Alive(n, s) ==> r in s.log && Delivered(m) in s.log[r]
  {
    ReachableInv(n, s);
    forall r | r in Alive(n, s)
      ensures Delivered(m) in s.log[r]
    {
      LiveSenderSpreads(n, s, m.origin, r, m);
    }
  }

  /** The messages sent on at a report have not been sent by that peer before: nothing is sent twice. */
  lemma ReportsSendAfresh(n: nat, s: Sys, p: Rank, q: Rank, reach: nat)
    requires Reachable(n, s) && Enabled(n, s, Report(p, q, reach))
    ensures p in s.peers && Loop(n, p, History(s.peers[p], q), reach) !! s.sent
  {
    ReachableInv(n, s);
    HistoryRegistered(s, p, q);
    assert Relays(s.sent, p, true, s.log[p]);
  }

  // ---------------------------------------------------------------- integrity

  ghost predicate Requested(es: seq<Event>, m: Msg) {
    exists reach :: Request(m.origin, m.id, m.body, reach) in es
  }

  lemma RegistryStep(n: nat, s: Sys, e: Event, s': Sys, id: Id)
    requires Step(n, s, e, s') && id in s'.registry && !(id in s.registry && s'.registry[id] == s.registry[id])
    ensures e.Request? && s'.registry[id] == Msg(e.peer, e.id, e.body)
  {
  }

  lemma {:induction false} RegistryWasRequested(n: nat, es: seq<Event>, s: Sys, id: Id)
    requires Run(n, es, s) && id in s.registry
    ensures Requested(es, s.registry[id])
  {
    if |es| > 0 {
      var init, last := es[..|es| - 1], es[|es| - 1];
      var prev :| Run(n, init, prev) && Step(n, prev, last, s);
      if id in prev.registry && s.registry[id] == prev.registry[id] {
        RegistryWasRequested(n, init, prev, id);
        var m := s.registry[id];
        var reach :| Request(m.origin, m.id, m.body, reach) in init;
        assert Request(m.origin, m.id, m.body, reach) in es;
      } else {
        RegistryStep(n, prev, last, s, id);
        assert last in es;
      }
    }
  }

  /**
   Integrity, including the special path for a peer's own messages: each id is delivered at most
   once by a peer, and only as its originator broadcast it, however it was relayed.
   */
  lemma Integrity(n: nat, es: seq<Event>, s: Sys, p: Rank)
    requires Run(n, es, s) && p in All(n)
    ensures p in s.log
    ensures forall i, j :: 0 <= i < j < |s.log[p]| && s.log[p][i].Delivered? && s.log[p][j].Delivered? ==>
              s.log[p][i].msg.id != s.log[p][j].msg.id
    ensures forall m :: Delivered(m) in s.log[p] ==> Requested(es, m)
  {
    InvRun(n, es, s);
    assert PeerLogged(p, s.peers[p], s.log[p], s.handled, s.registry);
    forall m | Delivered(m) in s.log[p]
      ensures Requested(es, m)
    {
      RegistryWasRequested(n, es, s, m.id);
    }
  }

  // ---------------------------------------------------------------- quiescence is reached

  ghost function Pending(s: Sys): set<Packet> {
    set k | k in s.sent && k !in s.handled && k.src !in s.crashed && k.dst !in s.crashed
  }

  /** Which live peers have yet to be told of which crashes. */
  ghost function Untold(n: nat, s: Sys): set<(Rank, Rank)> {
    set p, q | p in All(n) && p !in s.crashed && p in s.log && q in s.crashed && Reported(q) !in s.log[p] :: (p, q)
  }

  ghost predicate Grows(n: nat, s: Sys, s': Sys) {
    && s'.crashed == s.crashed && s'.registry == s.registry
    && s.log.Keys == s'.log.Keys == All(n) && forall p :: p in All(n) ==> s.log[p] <= s'.log[p]
  }

  ghost predicate Smaller(n: nat, next: Sys, s: Sys) {
    |Untold(n, next)| < |Untold(n, s)| || (Untold(n, next) == Untold(n, s) && |Pending(next)| < |Pending(s)|)
  }

  /** Without further crashes and requests, reporting and handling all that is pending comes to an end. */
  lemma {:induction false} Drain(n: nat, s: Sys) returns (s': Sys)
    requires Reachable(n, s)
    ensures Reachable(n, s') && Quiescent(s') && AllReported(n, s') && Grows(n, s, s')
    decreases |Untold(n, s)|, |Pending(s)|
  {
    assert Domains(n, s) && Genuine(n, s.sent, s.registry) by {
      ReachableInv(n, s);
    }
    if Untold(n, s) != {} {
      var pq :| pq in Untold(n, s);
      var next := DrainReport(n, s, pq.0, pq.1);
      s' := Drain(n, next);
    } else if Pending(s) != {} {
      var k :| k in Pending(s);
      var next := DrainArrival(n, s, k);
      s' := Drain(n, next);
    } else {
      Drained(n, s);
      s' := s;
    }
  }

  lemma Drained(n: nat, s: Sys)
    requires Domains(n, s) && Untold(n, s) == {} && Pending(s) == {}
    ensures Quiescent(s) && AllReported(n, s)
  {
    forall k | k in s.sent && k.src !in s.crashed && k.dst !in s.crashed
      ensures k in s.handled
    {
      assert k !in Pending(s);
    }
    forall p, q | p in Alive(n, s) && p in s.log && q in s.crashed
      ensures Reported(q) in s.log[p]
    {
      assert (p, q) !in Untold(n, s);
    }
  }

  lemma DrainReport(n: nat, s: Sys, p: Rank, q: Rank) returns (next: Sys)
    requires Reachable(n, s) && Domains(n, s) && (p, q) in Untold(n, s)
    ensures Reachable(n, next) && Grows(n, s, next) && Smaller(n, next, s)
  {
    var e := Report(p, q, Sends(n, History(s.peers[p], q)));
    next := Next(n, s, e);
    assert Step(n, s, e, next);
    Extend(n, s, e, next);
    assert next.crashed == s.crashed && next.registry == s.registry;
    Told(n, s, p, q, next);
    LogGrows(n, s, p, Reported(q), next);
  }

  lemma LogGrows(n: nat, s: Sys, p: Rank, x: Note, next: Sys)
    requires s.log.Keys == All(n) && p in s.log && next.log == s.log[p := s.log[p] + [x]]
    requires next.crashed == s.crashed && next.registry == s.registry
    ensures Grows(n, s, next)
  {
  }

  lemma Told(n: nat, s: Sys, p: Rank, q: Rank, next: Sys)
    requires (p, q) in Untold(n, s) && next.crashed == s.crashed
    requires p in s.log && next.log == s.log[p := s.log[p] + [Reported(q)]]
    ensures |Untold(n, next)| < |Untold(n, s)|
  {
    assert Untold(n, next) == Untold(n, s) - {(p, q)};
  }

  lemma DrainArrival(n: nat, s: Sys, k: Packet) returns (next: Sys)
    requires Reachable(n, s) && Domains(n, s) && Genuine(n, s.sent, s.registry) && k in Pending(s)
    ensures Reachable(n, next) && Grows(n, s, next) && Smaller(n, next, s)
  {
    var p := k.dst;
    var e := Arrival(p, k);
    next := Next(n, s, e);
    assert Step(n, s, e, next);
    Extend(n, s, e, next);
    var mine := next.log[p];
    assert next.log == s.log[p := mine] && next.crashed == s.crashed;
    NotedReports(s.log[p], OnDelivery(p, s.peers[p], k.src, k.msg), k.msg);
    SameUntold(n, s, p, next, mine);
    OnePending(s, next, k);
    ArrivalGrows(n, s, p, mine, next);
  }

  lemma ArrivalGrows(n: nat, s: Sys, p: Rank, mine: seq<Note>, next: Sys)
    requires s.log.Keys == All(n) && p in s.log && next.log == s.log[p := mine] && s.log[p] <= mine
    requires next.crashed == s.crashed && next.registry == s.registry
    ensures Grows(n, s, next)
  {
  }

  lemma NotedReports(log: seq<Note>, out: Outcome, m: Msg)
    ensures log <= Noted(log, out, m)
    ensures forall q :: Reported(q) in Noted(log, out, m) <==> Reported(q) in log
  {
  }

  lemma OnePending(s: Sys, next: Sys, k: Packet)
    requires k in Pending(s) && next.sent == s.sent && next.crashed == s.crashed && next.handled == s.handled + {k}
    ensures |Pending(next)| < |Pending(s)|
  {
    assert Pending(next) == Pending(s) - {k};
  }

  lemma SameUntold(n: nat, s: Sys, p: Rank, next: Sys, mine: seq<Note>)
    requires p in s.log && next.log == s.log[p := mine] && next.crashed == s.crashed
    requires forall q :: Reported(q) in mine <==> Reported(q) in s.log[p]
    ensures Untold(n, next) == Untold(n, s)
  {
  }
}
