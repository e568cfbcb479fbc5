/**
 What uniform reliable broadcast guarantees: agreement that binds even peers that crash after
 delivering, validity for live originators, and at-most-once delivery of what was broadcast.
 */
module UrbTheorems {
  import opened Ranks
  import opened Messages
  import opened UrbSpec
  import opened UrbSystem

  /** Every message between live peers has been handled. */
  ghost predicate Quiescent(s: Sys) {
    forall k :: k in s.sent && k.src !in s.crashed && k.dst !in s.crashed ==> k in s.handled
  }

  ghost predicate MajorityAlive(n: nat, s: Sys) {
    2 * |Alive(n, s)| > n
  }

  lemma LiveSenderReaches(n: nat, s: Sys, q: Rank, r: Rank, m: Msg)
    requires Inv(n, s) && Quiescent(s) && q in Alive(n, s) && r in Alive(n, s) && Packet(q, q, m) in s.sent
    ensures m.id in s.peers[r] && q in s.peers[r][m.id].acks && Packet(r, r, m) in s.sent
  {
    assert Packet(q, r, m) in s.handled;
  }

  /** A message a live peer sent to itself has been delivered by every live peer. */
  lemma LiveSenderSpreads(n: nat, s: Sys, q: Rank, r: Rank, m: Msg)
    requires Inv(n, s) && Quiescent(s) && MajorityAlive(n, s)
    requires q in Alive(n, s) && r in Alive(n, s) && Packet(q, q, m) in s.sent
    ensures m in s.log[r]
  {
    LiveSenderReaches(n, s, q, r, m);
    forall p | p in Alive(n, s)
      ensures p in s.peers[r][m.id].acks
    {
      LiveSenderReaches(n, s, q, p, m);
      LiveSenderReaches(n, s, p, r, m);
    }
    SubsetSize(Alive(n, s), s.peers[r][m.id].acks);
    assert PeerLogged(n, s.peers[r], s.log[r], s.registry);
  }

  /** A delivery, by anyone, was acked by a live peer that has sent the message to everybody. */
  lemma DeliveryHasLiveSender(n: nat, s: Sys, p: Rank, m: Msg) returns (q: Rank)
    requires Inv(n, s) && MajorityAlive(n, s) && p in All(n) && m in s.log[p]
    ensures q in Alive(n, s) && Packet(q, q, m) in s.sent
  {
    assert PeerLogged(n, s.peers[p], s.log[p], s.registry);
    var acks := s.peers[p][m.id].acks;
    forall a | a in acks
      ensures a in All(n)
    {
      assert Packet(a, p, m) in s.handled;
    }
    q := Overlap(acks, Alive(n, s), All(n));
    assert Packet(q, p, m) in s.handled;
  }

  /**
   Uniform agreement: with a majority of the peers alive, what any peer delivered - even one that
   crashed since - every live peer has delivered in every reachable quiescent state.
   */
  lemma UniformAgreement(n: nat, s: Sys, p: Rank, m: Msg)
    requires Reachable(n, s) && Quiescent(s) && MajorityAlive(n, s)
    requires p in s.log && m in s.log[p]
    ensures forall r :: r in Alive(n, s) ==> r in s.log && m in s.log[r]
  {
    ReachableInv(n, s);
    var q := DeliveryHasLiveSender(n, s, p, m);
    forall r | r in Alive(n, s)
      ensures m in s.log[r]
    {
      LiveSenderSpreads(n, s, q, r, m);
    }
  }

  /** Validity: what a live peer broadcast, every live peer has delivered in every quiescent state. */
  lemma Validity(n: nat, s: Sys, m: Msg)
    requires Reachable(n, s) && Quiescent(s) && MajorityAlive(n, s)
    requires m.id in s.registry && s.registry[m.id] == m && m.origin in Alive(n, s)
    ensures forall r :: r in Alive(n, s) ==> r in s.log && m in s.log[r]
  {
    ReachableInv(n, s);
    forall r | r in Alive(n, s)
      ensures m in s.log[r]
    {
      LiveSenderSpreads(n, s, m.origin, r, m);
    }
  }

  // ---------------------------------------------------------------- integrity

  ghost predicate Requested(es: seq<Event>, m: Msg) {
    exists reach :: Request(m.origin, m.id, m.body, reach) in es
  }

  lemma RegistryStep(n: nat, s: Sys, e: Event, s': Sys, id: Id)
    requires Step(n, s, e, s') && id in s'.registry && !(id in s.registry && s'.registry[id] == s.registry[id])
    ensures e.Request? && s'.registry[id] == Msg(e.peer, e.id, e.body)
  {
  }

  lemma {:induction false} RegistryWasRequested(n: nat, es: seq<Event>, s: Sys, id: Id)
    requires Run(n, es, s) && id in s.registry
    ensures Requested(es, s.registry[id])
  {
    if |es| > 0 {
      var init, last := es[..|es| - 1], es[|es| - 1];
      var prev :| Run(n, init, prev) && Step(n, prev, last, s);
      if id in prev.registry && s.registry[id] == prev.registry[id] {
        RegistryWasRequested(n, init, prev, id);
        var m := s.registry[id];
        var reach :| Request(m.origin, m.id, m.body, reach) in init;
        assert Request(m.origin, m.id, m.body, reach) in es;
      } else {
        RegistryStep(n, prev, last, s, id);
        assert last in es;
      }
    }
  }

  /**
   Integrity, for any number of crashes: a peer delivers each id at most once, and only a message
   its originator broadcast, unchanged by the relays.
   */
  lemma Integrity(n: nat, es: seq<Event>, s: Sys, p: Rank)
    requires Run(n, es, s) && p in All(n)
    ensures p in s.log
    ensures forall i, j :: 0 <= i < j < |s.log[p]| ==> s.log[p][i].id != s.log[p][j].id
    ensures forall m :: m in s.log[p] ==> Requested(es, m)
  {
    InvRun(n, es, s);
    assert PeerLogged(n, s.peers[p], s.log[p], s.registry);
    forall m | m in s.log[p]
      ensures Requested(es, m)
    {
      RegistryWasRequested(n, es, s, m.id);
    }
  }

  // ---------------------------------------------------------------- quiescence is reached

  ghost function Pending(s: Sys): set<Packet> {
    set k | k in s.sent && k !in s.handled && k.src !in s.crashed && k.dst !in s.crashed
  }

  /** Which peers have yet to see which ids. */
  ghost function Unseen(n: nat, s: Sys): set<(Rank, Id)> {
    set p, id | p in All(n) && p in s.peers && id in s.registry && id !in s.peers[p] :: (p, id)
  }

  /** Nobody crashed, nothing was requested, only packets between live peers were handled, deliveries stay. */
  ghost predicate Drained(n: nat, s: Sys, s': Sys) {
    && s'.crashed == s.crashed && s'.registry == s.registry
    && (forall k :: k in s'.handled && k !in s.handled ==> k.src !in s.crashed && k.dst !in s.crashed)
    && s.log.Keys == s'.log.Keys == All(n) && forall p :: p in All(n) ==> s.log[p] <= s'.log[p]
  }

  lemma DrainedTrans(n: nat, s1: Sys, s2: Sys, s3: Sys)
    requires Drained(n, s1, s2) && Drained(n, s2, s3)
    ensures Drained(n, s1, s3)
  {
    forall p | p in All(n)
      ensures s1.log[p] <= s3.log[p]
    {
      assert s1.log[p] <= s2.log[p] <= s3.log[p];
    }
  }

  /** Without further crashes and requests, handling what is pending reaches a quiescent state. */
  lemma {:induction false} Drain(n: nat, s: Sys) returns (s': Sys)
    requires Reachable(n, s)
    ensures Reachable(n, s') && Quiescent(s') && Drained(n, s, s')
    decreases |Unseen(n, s)|, |Pending(s)|
  {
    assert Domains(n, s) && Genuine(n, s.sent, s.registry) by {
      ReachableInv(n, s);
    }
    if Pending(s) == {} {
      NothingPending(s);
      s' := s;
    } else {
      var k :| k in Pending(s);
      var next := DrainStep(n, s, k);
      s' := Drain(n, next);
      DrainedTrans(n, s, next, s');
    }
  }

  lemma NothingPending(s: Sys)
    requires Pending(s) == {}
    ensures Quiescent(s)
  {
    forall k | k in s.sent && k.src !in s.crashed && k.dst !in s.crashed
      ensures k in s.handled
    {
      assert k !in Pending(s);
    }
  }

  /** What handling k to the end does, as far as draining goes. */
  ghost predicate HandledFully(s: Sys, k: Packet, next: Sys)
    requires k.dst in s.peers && k.dst in s.log
  {
    && next.crashed == s.crashed && next.registry == s.registry && next.handled == s.handled + {k}
    && next.peers.Keys == s.peers.Keys && next.log.Keys == s.log.Keys
    && (forall p :: p in s.peers && p != k.dst ==> next.peers[p] == s.peers[p])
    && next.peers[k.dst].Keys == s.peers[k.dst].Keys + {k.msg.id}
    && (k.msg.id in s.peers[k.dst] ==> next.sent == s.sent)
    && (forall p :: p in s.log ==> s.log[p] <= next.log[p])
  }

  lemma NextHandles(n: nat, s: Sys, k: Packet)
    requires k.dst in s.peers && k.dst in s.log
    ensures HandledFully(s, k, Next(n, s, Arrival(k.dst, k, n + 1)))
  {
    var out := On(n, k.dst, s.peers[k.dst], k.src, k.msg);
    assert out.peer.Keys == s.peers[k.dst].Keys + {k.msg.id};
  }

  lemma DrainStep(n: nat, s: Sys, k: Packet) returns (next: Sys)
    requires Reachable(n, s) && Domains(n, s) && Genuine(n, s.sent, s.registry) && k in Pending(s)
    ensures Reachable(n, next) && Drained(n, s, next)
    ensures || |Unseen(n, next)| < |Unseen(n, s)|
            || (|Unseen(n, next)| == |Unseen(n, s)| && |Pending(next)| < |Pending(s)|)
  {
    next := TakeStep(n, s, k);
    DrainMeasure(n, s, k, next);
  }

  lemma TakeStep(n: nat, s: Sys, k: Packet) returns (next: Sys)
    requires Reachable(n, s) && Domains(n, s) && Genuine(n, s.sent, s.registry) && k in Pending(s)
    ensures Reachable(n, next) && HandledFully(s, k, next)
  {
    var e := Arrival(k.dst, k, n + 1);
    NextHandles(n, s, k);
    next := Next(n, s, e);
    assert Step(n, s, e, next);
    Extend(n, s, e, next);
  }

  lemma DrainMeasure(n: nat, s: Sys, k: Packet, next: Sys)
    requires k.dst in s.peers && k.dst in s.log && k.dst in All(n) && k.msg.id in s.registry
    requires k in Pending(s) && HandledFully(s, k, next)
    ensures || |Unseen(n, next)| < |Unseen(n, s)|
            || (|Unseen(n, next)| == |Unseen(n, s)| && |Pending(next)| < |Pending(s)|)
  {
    if k.msg.id in s.peers[k.dst] {
      UnseenKept(n, s, k, next);
      assert Pending(next) == Pending(s) - {k};
    } else {
      UnseenShrinks(n, s, k, next);
    }
  }

  lemma UnseenKept(n: nat, s: Sys, k: Packet, next: Sys)
    requires k.dst in s.peers && k.dst in s.log && HandledFully(s, k, next) && k.msg.id in s.peers[k.dst]
    ensures Unseen(n, next) == Unseen(n, s)
  {
  }

  lemma UnseenShrinks(n: nat, s: Sys, k: Packet, next: Sys)
    requires k.dst in s.peers && k.dst in s.log && k.dst in All(n) && k.msg.id in s.registry
    requires HandledFully(s, k, next) && k.msg.id !in s.peers[k.dst]
    ensures |Unseen(n, next)| < |Unseen(n, s)|
  {
    assert (k.dst, k.msg.id) in Unseen(n, s);
    assert Unseen(n, next) == Unseen(n, s) - {(k.dst, k.msg.id)};
  }
}
