/**
 Runs of uniform reliable broadcast among peers that may crash, also in the middle of a send loop.
 Links deliver each message at most once, in any order; message ids are never reused.
 */
module UrbSystem {
  import opened Ranks
  import opened Messages
  import opened UrbSpec

  datatype Packet = Packet(src: Rank, dst: Rank, msg: Msg)

  /** `registry` holds originator and body of every id a client has broadcast. */
  datatype Sys = Sys(
    peers: map<Rank, Peer>, crashed: set<Rank>, sent: set<Packet>, handled: set<Packet>,
    log: map<Rank, seq<Msg>>, registry: map<Id, Msg>)

  /**
   `reach` is how many ranks a send loop serves; fewer than all means the peer crashes there. A relay
   that serves all n may still be the last thing a peer does; `reach` is n + 1 if its handler goes on.
   */
  datatype Event =
    | Request(peer: Rank, id: Id, body: Body, reach: nat)
    | Arrival(peer: Rank, packet: Packet, reach: nat)
    | Crash(peer: Rank)

  ghost function Init(n: nat): Sys {
    Sys(map p | p in All(n) :: map[], {}, {}, {}, map p | p in All(n) :: [], map[])
  }

  ghost predicate Enabled(n: nat, s: Sys, e: Event) {
    && e.peer in All(n) && e.peer !in s.crashed
    && (e.Request? ==> e.id !in s.registry && e.reach <= n)
    && (e.Arrival? ==> e.packet in s.sent && e.packet !in s.handled && e.packet.dst == e.peer && e.reach <= n + 1)
  }

  /** The packets a send loop of `src` emits when it serves the ranks 1..reach. */
  ghost function Loop(src: Rank, m: Msg, reach: nat): set<Packet> {
    set dst | dst in All(reach) :: Packet(src, dst, m)
  }

  ghost function Delivered(log: seq<Msg>, out: Outcome, m: Msg): seq<Msg> {
    if out.deliver then log + [m] else log
  }

  /** The peer's handler ran to its end, what it relayed being sent. */
  ghost function Finished(s: Sys, p: Rank, k: Packet, out: Outcome): Sys
    requires p in s.log
  {
    s.(peers := s.peers[p := out.peer],
       handled := s.handled + {k},
       log := s.log[p := Delivered(s.log[p], out, k.msg)])
  }

  ghost function Next(n: nat, s: Sys, e: Event): Sys
    requires e.peer in s.peers && e.peer in s.log
  {
    match e
    case Request(p, id, body, reach) =>
      var m := Msg(p, id, body);
      s.(sent := s.sent + Loop(p, m, reach),
         registry := s.registry[id := m],
         crashed := if reach < n then s.crashed + {p} else s.crashed)
    case Arrival(p, k, reach) =>
      var out := On(n, p, s.peers[p], k.src, k.msg);
      if !out.relay then Finished(s, p, k, out)
      else if reach <= n then s.(sent := s.sent + Loop(p, k.msg, reach), crashed := s.crashed + {p})
      else Finished(s.(sent := s.sent + Loop(p, k.msg, n)), p, k, out)
    case Crash(p) => s.(crashed := s.crashed + {p})
  }

  ghost predicate Step(n: nat, s: Sys, e: Event, s': Sys) {
    && e.peer in s.peers && e.peer in s.log
    && Enabled(n, s, e)
    && s' == Next(n, s, e)
  }

  ghost predicate Run(n: nat, es: seq<Event>, s: Sys) {
    if |es| == 0 then s == Init(n)
    else
      var init, last := es[..|es| - 1], es[|es| - 1];
      exists prev :: Run(n, init, prev) && Step(n, prev, last, s)
  }

  ghost predicate Reachable(n: nat, s: Sys) {
    exists es :: Run(n, es, s)
  }

  ghost function Alive(n: nat, s: Sys): set<Rank> {
    All(n) - s.crashed
  }

  // ---------------------------------------------------------------- invariants

  ghost predicate Domains(n: nat, s: Sys) {
    && s.peers.Keys == All(n) == s.log.Keys
    && s.crashed <= All(n)
    && s.handled <= s.sent
    && (forall id :: id in s.registry ==> s.registry[id].id == id && s.registry[id].origin in All(n))
  }

  /** Only registered messages travel. */
  ghost predicate Genuine(n: nat, sent: set<Packet>, registry: map<Id, Msg>) {
    forall k :: k in sent ==>
      k.src in All(n) && k.dst in All(n) && k.msg.id in registry && registry[k.msg.id] == k.msg
  }

  /** A live peer that sent a message to anyone has sent it to everyone. */
  ghost predicate Complete(n: nat, crashed: set<Rank>, sent: set<Packet>) {
    forall k, dst :: k in sent && k.src !in crashed && dst in All(n) ==> Packet(k.src, dst, k.msg) in sent
  }

  /** A live peer has itself sent every message it knows or originated. */
  ghost predicate Relayed(peers: map<Rank, Peer>, crashed: set<Rank>, sent: set<Packet>, registry: map<Id, Msg>) {
    && (forall p, id :: p in peers && p !in crashed && id in peers[p] && id in registry ==>
          Packet(p, p, registry[id]) in sent)
    && (forall id :: id in registry && registry[id].origin !in crashed ==>
          Packet(registry[id].origin, registry[id].origin, registry[id]) in sent)
  }

  /** The acks of a message are the senders it was handled from. */
  ghost predicate Acked(peers: map<Rank, Peer>, handled: set<Packet>, registry: map<Id, Msg>) {
    && (forall p, id :: p in peers && id in peers[p] ==> id in registry)
    && (forall p, id, q :: p in peers && id in peers[p] && id in registry && q in peers[p][id].acks ==>
          Packet(q, p, registry[id]) in handled)
    && (forall k :: k in handled && k.dst in peers ==>
          k.msg.id in peers[k.dst] && k.src in peers[k.dst][k.msg.id].acks)
  }

  /** Delivered exactly when acked by a majority, logged once, and as registered. */
  ghost predicate PeerLogged(n: nat, p: Peer, log: seq<Msg>, registry: map<Id, Msg>) {
    && (forall id :: id in p ==> (p[id].delivered <==> 2 * |p[id].acks| > n))
    && (forall id :: id in p && p[id].delivered ==> id in registry && registry[id] in log)
    && (forall i :: 0 <= i < |log| ==>
          log[i].id in p && p[log[i].id].delivered && log[i].id in registry && registry[log[i].id] == log[i])
    && (forall i, j :: 0 <= i < j < |log| ==> log[i].id != log[j].id)
  }

  ghost predicate Logged(n: nat, peers: map<Rank, Peer>, log: map<Rank, seq<Msg>>, registry: map<Id, Msg>) {
    forall p :: p in peers && p in log ==> PeerLogged(n, peers[p], log[p], registry)
  }

  ghost predicate Inv(n: nat, s: Sys) {
    && Domains(n, s)
    && Genuine(n, s.sent, s.registry)
    && Complete(n, s.crashed, s.sent)
    && Relayed(s.peers, s.crashed, s.sent, s.registry)
    && Acked(s.peers, s.handled, s.registry)
    && Logged(n, s.peers, s.log, s.registry)
  }

  // ---------------------------------------------------------------- preservation

  lemma LoopGenuine(n: nat, sent: set<Packet>, registry: map<Id, Msg>, p: Rank, m: Msg, reach: nat)
    requires Genuine(n, sent, registry) && p in All(n) && reach <= n && m.id in registry && registry[m.id] == m
    ensures Genuine(n, sent + Loop(p, m, reach), registry)
  {
  }

  lemma LoopComplete(n: nat, crashed: set<Rank>, sent: set<Packet>, p: Rank, m: Msg, reach: nat)
    requires Complete(n, crashed, sent) && reach <= n
    ensures Complete(n, if reach < n then crashed + {p} else crashed, sent + Loop(p, m, reach))
    ensures Complete(n, crashed + {p}, sent + Loop(p, m, reach))
  {
  }

  lemma RelayedGrows(peers: map<Rank, Peer>, crashed: set<Rank>, crashed': set<Rank>,
                     sent: set<Packet>, sent': set<Packet>, registry: map<Id, Msg>)
    requires Relayed(peers, crashed, sent, registry) && crashed <= crashed' && sent <= sent'
    ensures Relayed(peers, crashed', sent', registry)
  {
  }

  /** Registering a fresh id does not touch what is known of the others. */
  lemma RegisterKeeps(n: nat, s: Sys, m: Msg)
    requires m.id !in s.registry
    requires Genuine(n, s.sent, s.registry) && Acked(s.peers, s.handled, s.registry)
    ensures Genuine(n, s.sent, s.registry[m.id := m]) && Acked(s.peers, s.handled, s.registry[m.id := m])
  {
  }

  lemma RegisterLogged(n: nat, p: Peer, log: seq<Msg>, registry: map<Id, Msg>, m: Msg)
    requires PeerLogged(n, p, log, registry) && m.id !in registry
    ensures PeerLogged(n, p, log, registry[m.id := m])
  {
  }

  lemma RequestRelayed(peers: map<Rank, Peer>, crashed: set<Rank>, sent: set<Packet>, handled: set<Packet>,
                       registry: map<Id, Msg>, m: Msg)
    requires Relayed(peers, crashed, sent, registry) && Acked(peers, handled, registry) && m.id !in registry
    requires m.origin !in crashed ==> Packet(m.origin, m.origin, m) in sent
    ensures Relayed(peers, crashed, sent, registry[m.id := m])
  {
  }

  lemma InvRequest(n: nat, s: Sys, p: Rank, id: Id, body: Body, reach: nat)
    requires Inv(n, s) && Enabled(n, s, Request(p, id, body, reach))
    ensures p in s.peers && p in s.log && Inv(n, Next(n, s, Request(p, id, body, reach)))
  {
    var m := Msg(p, id, body);
    var s' := Next(n, s, Request(p, id, body, reach));
    RegisterKeeps(n, s, m);
    forall q | q in s.peers && q in s.log
      ensures PeerLogged(n, s.peers[q], s.log[q], s'.registry)
    {
      RegisterLogged(n, s.peers[q], s.log[q], s.registry, m);
    }
    LoopGenuine(n, s.sent, s'.registry, p, m, reach);
    LoopComplete(n, s.crashed, s.sent, p, m, reach);
    RelayedGrows(s.peers, s.crashed, s'.crashed, s.sent, s'.sent, s.registry);
    RequestRelayed(s.peers, s'.crashed, s'.sent, s.handled, s.registry, m);
  }

  lemma InvCrash(n: nat, s: Sys, p: Rank)
    requires Inv(n, s) && p in All(n)
    ensures Inv(n, s.(crashed := s.crashed + {p}))
  {
    RelayedGrows(s.peers, s.crashed, s.crashed + {p}, s.sent, s.sent, s.registry);
  }

  /** A relay cut short leaves a crashed peer and some of its packets. */
  lemma InvCutShort(n: nat, s: Sys, p: Rank, m: Msg, reach: nat)
    requires Inv(n, s) && p in All(n) && reach <= n && m.id in s.registry && s.registry[m.id] == m
    ensures Inv(n, s.(sent := s.sent + Loop(p, m, reach), crashed := s.crashed + {p}))
  {
    LoopGenuine(n, s.sent, s.registry, p, m, reach);
    LoopComplete(n, s.crashed, s.sent, p, m, reach);
    RelayedGrows(s.peers, s.crashed, s.crashed + {p}, s.sent, s.sent + Loop(p, m, reach), s.registry);
  }

  /** Sending a known message in full, before anything else changes. */
  lemma InvFullLoop(n: nat, s: Sys, p: Rank, m: Msg)
    requires Inv(n, s) && p in All(n) && m.id in s.registry && s.registry[m.id] == m
    ensures Inv(n, s.(sent := s.sent + Loop(p, m, n)))
  {
    LoopGenuine(n, s.sent, s.registry, p, m, n);
    LoopComplete(n, s.crashed, s.sent, p, m, n);
    RelayedGrows(s.peers, s.crashed, s.crashed, s.sent, s.sent + Loop(p, m, n), s.registry);
  }

  lemma OnLogged(n: nat, self: Rank, p: Peer, log: seq<Msg>, registry: map<Id, Msg>, sender: Rank, m: Msg)
    requires PeerLogged(n, p, log, registry) && m.id in registry && registry[m.id] == m
    ensures var out := On(n, self, p, sender, m); PeerLogged(n, out.peer, Delivered(log, out, m), registry)
  {
    var saved := Known(p, m.id);
    SubsetSize(saved.acks, saved.acks + {sender});
  }

  /** Handling a packet adds its sender to the acks of its message and leaves other messages alone. */
  ghost predicate AckAdded(p: Peer, p': Peer, k: Packet) {
    && p'.Keys == p.Keys + {k.msg.id}
    && (forall id :: id in p && id != k.msg.id ==> p'[id] == p[id])
    && p'[k.msg.id].acks == Known(p, k.msg.id).acks + {k.src}
  }

  lemma FinishedAcked(s: Sys, p: Rank, k: Packet, peer: Peer)
    requires Acked(s.peers, s.handled, s.registry) && p in s.peers && k.dst == p && AckAdded(s.peers[p], peer, k)
    requires k.msg.id in s.registry && s.registry[k.msg.id] == k.msg
    ensures Acked(s.peers[p := peer], s.handled + {k}, s.registry)
  {
  }

  lemma FinishedRelayed(s: Sys, p: Rank, k: Packet, peer: Peer)
    requires Relayed(s.peers, s.crashed, s.sent, s.registry) && p in s.peers && AckAdded(s.peers[p], peer, k)
    requires k.msg.id in s.registry && Packet(p, p, s.registry[k.msg.id]) in s.sent
    ensures Relayed(s.peers[p := peer], s.crashed, s.sent, s.registry)
  {
  }

  lemma FinishedLogged(n: nat, s: Sys, p: Rank, peer: Peer, log: seq<Msg>)
    requires Logged(n, s.peers, s.log, s.registry) && PeerLogged(n, peer, log, s.registry)
    ensures Logged(n, s.peers[p := peer], s.log[p := log], s.registry)
  {
  }

  lemma FinishedDomains(n: nat, s: Sys, p: Rank, k: Packet, out: Outcome)
    requires Domains(n, s) && p in s.peers && p in s.log && k in s.sent
    ensures Domains(n, Finished(s, p, k, out))
  {
  }

  lemma FinishedOutcome(n: nat, s: Sys, p: Rank, k: Packet, out: Outcome)
    requires Inv(n, s) && p in s.peers && p in s.log && k in s.sent && k.dst == p
    requires Packet(p, p, k.msg) in s.sent && AckAdded(s.peers[p], out.peer, k)
    requires PeerLogged(n, out.peer, Delivered(s.log[p], out, k.msg), s.registry)
    ensures Inv(n, Finished(s, p, k, out))
  {
    FinishedDomains(n, s, p, k, out);
    FinishedAcked(s, p, k, out.peer);
    FinishedRelayed(s, p, k, out.peer);
    FinishedLogged(n, s, p, out.peer, Delivered(s.log[p], out, k.msg));
  }

  /** A handler that runs to its end, its relay already sent. */
  lemma InvFinished(n: nat, s: Sys, p: Rank, k: Packet)
    requires Inv(n, s) && p in s.peers && p in s.log && k in s.sent && k.dst == p
    requires Packet(p, p, k.msg) in s.sent
    ensures Inv(n, Finished(s, p, k, On(n, p, s.peers[p], k.src, k.msg)))
  {
    var out := On(n, p, s.peers[p], k.src, k.msg);
    OnLogged(n, p, s.peers[p], s.log[p], s.registry, k.src, k.msg);
    assert AckAdded(s.peers[p], out.peer, k);
    FinishedOutcome(n, s, p, k, out);
  }

  lemma InvArrival(n: nat, s: Sys, p: Rank, k: Packet, reach: nat)
    requires Inv(n, s) && Enabled(n, s, Arrival(p, k, reach))
    ensures p in s.peers && p in s.log && Inv(n, Next(n, s, Arrival(p, k, reach)))
  {
    assert p in s.peers && p in s.log;
    if k.msg.id !in s.peers[p] && k.msg.origin != p {
      InvRelaying(n, s, p, k, reach);
    } else {
      InvKnown(n, s, p, k, reach);
    }
  }

  /** A new message of another peer is relayed first, and the peer may crash meanwhile. */
  lemma InvRelaying(n: nat, s: Sys, p: Rank, k: Packet, reach: nat)
    requires Inv(n, s) && Enabled(n, s, Arrival(p, k, reach)) && p in s.peers && p in s.log
    requires k.msg.id !in s.peers[p] && k.msg.origin != p
    ensures Inv(n, Next(n, s, Arrival(p, k, reach)))
  {
    if reach <= n {
      InvCutShort(n, s, p, k.msg, reach);
    } else {
      InvFullLoop(n, s, p, k.msg);
      InvFinished(n, s.(sent := s.sent + Loop(p, k.msg, n)), p, k);
    }
  }

  lemma InvKnown(n: nat, s: Sys, p: Rank, k: Packet, reach: nat)
    requires Inv(n, s) && Enabled(n, s, Arrival(p, k, reach)) && p in s.peers && p in s.log
    requires k.msg.id in s.peers[p] || k.msg.origin == p
    ensures Inv(n, Next(n, s, Arrival(p, k, reach)))
  {
    OwnCopySent(n, s, p, k);
    InvFinished(n, s, p, k);
  }

  lemma OwnCopySent(n: nat, s: Sys, p: Rank, k: Packet)
    requires Genuine(n, s.sent, s.registry) && Relayed(s.peers, s.crashed, s.sent, s.registry)
    requires p in s.peers && p !in s.crashed && k in s.sent
    requires k.msg.id in s.peers[p] || k.msg.origin == p
    ensures Packet(p, p, k.msg) in s.sent
  {
  }

  lemma {:induction false} InvRun(n: nat, es: seq<Event>, s: Sys)
    requires Run(n, es, s)
    ensures Inv(n, s)
  {
    if |es| > 0 {
      var init, last := es[..|es| - 1], es[|es| - 1];
      var prev :| Run(n, init, prev) && Step(n, prev, last, s);
      InvRun(n, init, prev);
      match last
      case Request(p, id, body, reach) => InvRequest(n, prev, p, id, body, reach);
      case Arrival(p, k, reach) => InvArrival(n, prev, p, k, reach);
      case Crash(p) => InvCrash(n, prev, p);
    }
  }

  /** Every reachable state satisfies the invariant. */
  lemma ReachableInv(n: nat, s: Sys)
    requires Reachable(n, s)
    ensures Inv(n, s)
  {
    var es :| Run(n, es, s);
    InvRun(n, es, s);
  }

  lemma Extend(n: nat, s: Sys, e: Event, s': Sys)
    requires Reachable(n, s) && Step(n, s, e, s')
    ensures Reachable(n, s')
  {
    var es :| Run(n, es, s);
    var longer := es + [e];
    assert longer[..|longer| - 1] == es && longer[|longer| - 1] == e;
    assert Run(n, longer, s');
  }
}
