/**
 Runs of lazy reliable broadcast: peers may crash, also in the middle of a send loop, and a perfect
 failure detector reports crashes, each at most once to each peer and at any later time.
 */
module LazyRbSystem {
  import opened Ranks
  import opened Messages
  import opened LazyRbSpec

  datatype Packet = Packet(src: Rank, dst: Rank, msg: Msg)

  /** What a peer experienced, in order. */
  datatype Note = Delivered(msg: Msg) | Reported(peer: Rank)

  datatype Sys = Sys(
    peers: map<Rank, Peer>, crashed: set<Rank>, sent: set<Packet>, handled: set<Packet>,
    log: map<Rank, seq<Note>>, registry: map<Id, Msg>)

  /** `reach` is how many sends of a loop are made; fewer than all means the peer crashes there. */
  datatype Event =
    | Request(peer: Rank, id: Id, body: Body, reach: nat)
    | Arrival(peer: Rank, packet: Packet)
    | Report(peer: Rank, of: Rank, reach: nat)
    | Crash(peer: Rank)

  ghost function Init(n: nat): Sys {
    Sys(map p | p in All(n) :: NoHistory(n, p), {}, {}, {}, map p | p in All(n) :: [], map[])
  }

  ghost predicate Enabled(n: nat, s: Sys, e: Event) {
    && e.peer in All(n) && e.peer !in s.crashed
    && (e.Request? ==> e.id !in s.registry && e.reach <= n)
    && (e.Arrival? ==> e.packet in s.sent && e.packet !in s.handled && e.packet.dst == e.peer)
    && (e.Report? ==> e.of in s.crashed && e.peer in s.log && Reported(e.of) !in s.log[e.peer])
  }

  /** The position of a send when messages go out one after the other, each to the ranks 1..n. */
  function Position(n: nat, i: nat, dst: Rank): nat {
    i * n + dst
  }

  function Sends(n: nat, msgs: seq<Msg>): nat {
    |msgs| * n
  }

  lemma PositionBound(n: nat, i: nat, dst: Rank, k: nat)
    requires i < k && dst <= n
    ensures Position(n, i, dst) <= k * n
  {
    assert k * n == (i + 1) * n + (k - i - 1) * n;
  }

  /** The packets of the first `reach` sends. */
  ghost function Loop(n: nat, src: Rank, msgs: seq<Msg>, reach: nat): set<Packet> {
    set i, dst | 0 <= i < |msgs| && dst in All(n) && Position(n, i, dst) <= reach :: Packet(src, dst, msgs[i])
  }

  ghost function Next(n: nat, s: Sys, e: Event): Sys
    requires e.peer in s.peers && e.peer in s.log
  {
    match e
    case Request(p, id, body, reach) =>
      var m := Msg(p, id, body);
      s.(sent := s.sent + Loop(n, p, [m], reach),
         registry := s.registry[id := m],
         crashed := if reach < n then s.crashed + {p} else s.crashed)
    case Arrival(p, k) =>
      var out := OnDelivery(p, s.peers[p], k.src, k.msg);
      s.(peers := s.peers[p := out.peer],
         handled := s.handled + {k},
         log := s.log[p := Noted(s.log[p], out, k.msg)])
    case Report(p, q, reach) =>
      var msgs := History(s.peers[p], q);
      s.(sent := s.sent + Loop(n, p, msgs, reach),
         log := s.log[p := s.log[p] + [Reported(q)]],
         crashed := if reach < Sends(n, msgs) then s.crashed + {p} else s.crashed)
    case Crash(p) => s.(crashed := s.crashed + {p})
  }

  ghost predicate Step(n: nat, s: Sys, e: Event, s': Sys) {
    && e.peer in s.peers && e.peer in s.log
    && Enabled(n, s, e)
    && s' == Next(n, s, e)
  }

  ghost predicate Run(n: nat, es: seq<Event>, s: Sys) {
    if |es| == 0 then s == Init(n)
    else
      var init, last := es[..|es| - 1], es[|es| - 1];
      exists prev :: Run(n, init, prev) && Step(n, prev, last, s)
  }

  ghost predicate Reachable(n: nat, s: Sys) {
    exists es :: Run(n, es, s)
  }

  lemma Extend(n: nat, s: Sys, e: Event, s': Sys)
    requires Reachable(n, s) && Step(n, s, e, s')
    ensures Reachable(n, s')
  {
    var es :| Run(n, es, s);
    var longer := es + [e];
    assert longer[..|longer| - 1] == es && longer[|longer| - 1] == e;
    assert Run(n, longer, s');
  }

  ghost function Alive(n: nat, s: Sys): set<Rank> {
    All(n) - s.crashed
  }

  /** A loop that is not cut short serves every rank with every message. */
  lemma LoopComplete(n: nat, src: Rank, msgs: seq<Msg>, reach: nat, m: Msg, dst: Rank)
    requires reach >= Sends(n, msgs) && m in msgs && dst in All(n)
    ensures Packet(src, dst, m) in Loop(n, src, msgs, reach)
  {
    var i :| 0 <= i < |msgs| && msgs[i] == m;
    PositionBound(n, i, dst, |msgs|);
  }

  /** A single message is fully sent when the loop reaches n. */
  lemma OneMessage(n: nat, m: Msg)
    ensures Sends(n, [m]) == n
  {
  }

  // ---------------------------------------------------------------- invariants

  /** Delivered before any report of its originator's crash. */
  ghost predicate Early(log: seq<Note>, m: Msg) {
    exists i :: 0 <= i < |log| && log[i] == Delivered(m) && Reported(m.origin) !in log[..i]
  }

  ghost predicate Domains(n: nat, s: Sys) {
    && s.peers.Keys == All(n) == s.log.Keys
    && s.crashed <= All(n)
    && s.handled <= s.sent
    && (forall id :: id in s.registry ==> s.registry[id].id == id && s.registry[id].origin in All(n))
  }

  ghost predicate Genuine(n: nat, sent: set<Packet>, registry: map<Id, Msg>) {
    forall k :: k in sent ==>
      k.src in All(n) && k.dst in All(n) && k.msg.id in registry && registry[k.msg.id] == k.msg
  }

  /** A live peer that sent a message to anyone has sent it to everyone. */
  ghost predicate Complete(n: nat, crashed: set<Rank>, sent: set<Packet>) {
    forall k, dst :: k in sent && k.src !in crashed && dst in All(n) ==> Packet(k.src, dst, k.msg) in sent
  }

  /** A live originator has sent what it broadcast. */
  ghost predicate Originated(crashed: set<Rank>, sent: set<Packet>, registry: map<Id, Msg>) {
    forall id :: id in registry && registry[id].origin !in crashed ==>
      Packet(registry[id].origin, registry[id].origin, registry[id]) in sent
  }

  /**
   A live peer has sent on exactly the messages of others it delivered early and whose originator
   was reported to it.
   */
  ghost predicate Relays(sent: set<Packet>, p: Rank, live: bool, log: seq<Note>) {
    && (forall m, d :: Packet(p, d, m) in sent && m.origin != p ==> Early(log, m) && Reported(m.origin) in log)
    && (live ==> forall m: Msg ::
          m.origin != p && Early(log, m) && Reported(m.origin) in log ==> Packet(p, p, m) in sent)
  }

  /** What is kept of other peers has been delivered. */
  ghost predicate KeptLogged(self: Rank, p: Peer, log: seq<Note>) {
    forall o, m :: m in History(p, o) ==> m.origin == o && o != self && Delivered(m) in log
  }

  /** What was delivered was broadcast, and is kept unless it is the peer's own. */
  ghost predicate LoggedKept(self: Rank, p: Peer, log: seq<Note>, handled: set<Packet>, registry: map<Id, Msg>) {
    forall m :: Delivered(m) in log ==>
      && m.id in registry && registry[m.id] == m
      && if m.origin == self then Packet(self, self, m) in handled else m in History(p, m.origin)
  }

  ghost predicate LoggedOnce(log: seq<Note>) {
    forall i, j :: 0 <= i < j < |log| && log[i].Delivered? && log[j].Delivered? ==> log[i].msg.id != log[j].msg.id
  }

  /** What was handled has been delivered. */
  ghost predicate HandledLogged(self: Rank, log: seq<Note>, handled: set<Packet>) {
    forall k :: k in handled && k.dst == self && (k.msg.origin != self || k.src == self) ==> Delivered(k.msg) in log
  }

  /** History and log agree, nothing is delivered twice, and what was handled has been delivered. */
  ghost predicate PeerLogged(self: Rank, p: Peer, log: seq<Note>, handled: set<Packet>, registry: map<Id, Msg>) {
    && KeptLogged(self, p, log)
    && LoggedKept(self, p, log, handled, registry)
    && LoggedOnce(log)
    && HandledLogged(self, log, handled)
  }

  ghost predicate Inv(n: nat, s: Sys) {
    && Domains(n, s)
    && Genuine(n, s.sent, s.registry)
    && Complete(n, s.crashed, s.sent)
    && Originated(s.crashed, s.sent, s.registry)
    && AllRelay(s.sent, s.crashed, s.log)
    && AllLogged(s.peers, s.log, s.handled, s.registry)
  }

  ghost predicate AllRelay(sent: set<Packet>, crashed: set<Rank>, log: map<Rank, seq<Note>>) {
    forall p :: p in log ==> Relays(sent, p, p !in crashed, log[p])
  }

  ghost predicate AllLogged(peers: map<Rank, Peer>, log: map<Rank, seq<Note>>, handled: set<Packet>,
                            registry: map<Id, Msg>) {
    forall p :: p in peers && p in log ==> PeerLogged(p, peers[p], log[p], handled, registry)
  }

  // ---------------------------------------------------------------- logs

  lemma EarlySnoc(log: seq<Note>, x: Note, m: Msg)
    ensures Early(log + [x], m) <==> Early(log, m) || (x == Delivered(m) && Reported(m.origin) !in log)
  {
    var longer := log + [x];
    if Early(log, m) {
      var i :| 0 <= i < |log| && log[i] == Delivered(m) && Reported(m.origin) !in log[..i];
      assert longer[i] == Delivered(m) && longer[..i] == log[..i];
    }
    if x == Delivered(m) && Reported(m.origin) !in log {
      assert longer[|log|] == x && longer[..|log|] == log;
    }
    if Early(longer, m) {
      var i :| 0 <= i < |longer| && longer[i] == Delivered(m) && Reported(m.origin) !in longer[..i];
      if i < |log| {
        assert log[i] == Delivered(m) && log[..i] == longer[..i];
      } else {
        assert longer[..i] == log;
      }
    }
  }

  lemma DeliveredIsEarly(log: seq<Note>, m: Msg)
    requires Delivered(m) in log && Reported(m.origin) !in log
    ensures Early(log, m)
  {
    var i :| 0 <= i < |log| && log[i] == Delivered(m);
    assert Reported(m.origin) !in log[..i];
  }

  // ---------------------------------------------------------------- preservation

  lemma SendsGenuine(n: nat, sent: set<Packet>, registry: map<Id, Msg>, p: Rank, msgs: seq<Msg>, reach: nat)
    requires Genuine(n, sent, registry) && p in All(n)
    requires forall m :: m in msgs ==> m.id in registry && registry[m.id] == m
    ensures Genuine(n, sent + Loop(n, p, msgs, reach), registry)
  {
  }

  lemma SendsComplete(n: nat, crashed: set<Rank>, sent: set<Packet>, p: Rank, msgs: seq<Msg>, reach: nat)
    requires Complete(n, crashed, sent)
    ensures Complete(n, if reach < Sends(n, msgs) then crashed + {p} else crashed, sent + Loop(n, p, msgs, reach))
  {
    var crashed' := if reach < Sends(n, msgs) then crashed + {p} else crashed;
    var sent' := sent + Loop(n, p, msgs, reach);
    forall k, dst | k in sent' && k.src !in crashed' && dst in All(n)
      ensures Packet(k.src, dst, k.msg) in sent'
    {
      if k !in sent {
        LoopComplete(n, p, msgs, reach, k.msg, dst);
      }
    }
  }

  /** Loops of other peers, or of the peer's own messages, do not matter to what it relays. */
  lemma RelaysKept(n: nat, sent: set<Packet>, q: Rank, live: bool, log: seq<Note>, p: Rank, msgs: seq<Msg>, reach: nat)
    requires Relays(sent, q, live, log) && (q != p || forall m :: m in msgs ==> m.origin == p)
    ensures Relays(sent + Loop(n, p, msgs, reach), q, live, log)
    ensures Relays(sent + Loop(n, p, msgs, reach), q, false, log)
  {
  }

  lemma InvRequest(n: nat, s: Sys, p: Rank, id: Id, body: Body, reach: nat)
    requires Inv(n, s) && Enabled(n, s, Request(p, id, body, reach))
    ensures p in s.peers && p in s.log && Inv(n, Next(n, s, Request(p, id, body, reach)))
  {
    var m := Msg(p, id, body);
    var s' := Next(n, s, Request(p, id, body, reach));
    OneMessage(n, m);
    RegisterGenuine(n, s.sent, s.registry, m);
    SendsGenuine(n, s.sent, s'.registry, p, [m], reach);
    SendsComplete(n, s.crashed, s.sent, p, [m], reach);
    RequestOriginated(n, s.crashed, s.sent, s.registry, m, reach);
    RequestAllRelay(n, s.sent, s.crashed, s.log, m, reach);
    RegisterAllLogged(s.peers, s.log, s.handled, s.registry, m);
    RequestDomains(n, s, m, s'.sent, s'.crashed);
  }

  lemma RequestDomains(n: nat, s: Sys, m: Msg, sent: set<Packet>, crashed: set<Rank>)
    requires Domains(n, s) && m.origin in All(n) && s.sent <= sent && crashed <= s.crashed + {m.origin}
    ensures Domains(n, s.(sent := sent, registry := s.registry[m.id := m], crashed := crashed))
  {
  }

  lemma RequestAllRelay(n: nat, sent: set<Packet>, crashed: set<Rank>, log: map<Rank, seq<Note>>, m: Msg, reach: nat)
    requires AllRelay(sent, crashed, log)
    ensures AllRelay(sent + Loop(n, m.origin, [m], reach), if reach < n then crashed + {m.origin} else crashed, log)
  {
    forall q | q in log
      ensures var more := sent + Loop(n, m.origin, [m], reach);
              Relays(more, q, q !in crashed, log[q]) && Relays(more, q, false, log[q])
    {
      RelaysKept(n, sent, q, q !in crashed, log[q], m.origin, [m], reach);
    }
  }

  lemma RegisterAllLogged(peers: map<Rank, Peer>, log: map<Rank, seq<Note>>, handled: set<Packet>,
                          registry: map<Id, Msg>, m: Msg)
    requires AllLogged(peers, log, handled, registry) && m.id !in registry
    ensures AllLogged(peers, log, handled, registry[m.id := m])
  {
    forall q | q in peers && q in log
      ensures PeerLogged(q, peers[q], log[q], handled, registry[m.id := m])
    {
      RegisterLogged(q, peers[q], log[q], handled, registry, m);
    }
  }

  lemma RegisterGenuine(n: nat, sent: set<Packet>, registry: map<Id, Msg>, m: Msg)
    requires Genuine(n, sent, registry) && m.id !in registry
    ensures Genuine(n, sent, registry[m.id := m])
  {
  }

  lemma RequestOriginated(n: nat, crashed: set<Rank>, sent: set<Packet>, registry: map<Id, Msg>, m: Msg, reach: nat)
    requires Originated(crashed, sent, registry) && m.id !in registry && m.origin in All(n)
    ensures Originated(if reach < n then crashed + {m.origin} else crashed,
                       sent + Loop(n, m.origin, [m], reach), registry[m.id := m])
  {
    if reach >= n {
      LoopComplete(n, m.origin, [m], reach, m, m.origin);
    }
  }

  lemma RegisterLogged(self: Rank, p: Peer, log: seq<Note>, handled: set<Packet>, registry: map<Id, Msg>, m: Msg)
    requires PeerLogged(self, p, log, handled, registry) && m.id !in registry
    ensures PeerLogged(self, p, log, handled, registry[m.id := m])
  {
    forall x: Msg | Delivered(x) in log
      ensures x.id in registry[m.id := m] && registry[m.id := m][x.id] == x
    {
      assert x.id != m.id;
    }
  }

  lemma InvCrash(n: nat, s: Sys, p: Rank)
    requires Inv(n, s) && p in All(n)
    ensures Inv(n, s.(crashed := s.crashed + {p}))
  {
  }

  lemma InvReport(n: nat, s: Sys, p: Rank, q: Rank, reach: nat)
    requires Inv(n, s) && Enabled(n, s, Report(p, q, reach))
    ensures p in s.peers && p in s.log && Inv(n, Next(n, s, Report(p, q, reach)))
  {
    var msgs := History(s.peers[p], q);
    var s' := Next(n, s, Report(p, q, reach));
    HistoryRegistered(s, p, q);
    SendsGenuine(n, s.sent, s.registry, p, msgs, reach);
    SendsComplete(n, s.crashed, s.sent, p, msgs, reach);
    ReportDomains(n, s, p, s'.sent, s'.crashed, s.log[p] + [Reported(q)]);
    OriginatedGrows(s.crashed, s'.crashed, s.sent, s'.sent, s.registry);
    ReportAllRelay(n, s, p, q, reach);
    ReportAllLogged(s.peers, s.log, s.handled, s.registry, p, q);
  }

  lemma ReportDomains(n: nat, s: Sys, p: Rank, sent: set<Packet>, crashed: set<Rank>, mine: seq<Note>)
    requires Domains(n, s) && p in s.log && s.sent <= sent && crashed <= s.crashed + {p}
    ensures Domains(n, s.(sent := sent, log := s.log[p := mine], crashed := crashed))
  {
  }

  lemma OriginatedGrows(crashed: set<Rank>, crashed': set<Rank>, sent: set<Packet>, sent': set<Packet>,
                        registry: map<Id, Msg>)
    requires Originated(crashed, sent, registry) && crashed <= crashed' && sent <= sent'
    ensures Originated(crashed', sent', registry)
  {
  }

  lemma ReportAllLogged(peers: map<Rank, Peer>, log: map<Rank, seq<Note>>, handled: set<Packet>,
                        registry: map<Id, Msg>, p: Rank, q: Rank)
    requires AllLogged(peers, log, handled, registry) && p in peers && p in log
    ensures AllLogged(peers, log[p := log[p] + [Reported(q)]], handled, registry)
  {
    ReportLogged(p, peers[p], log[p], handled, registry, q);
  }

  lemma ReportAllRelay(n: nat, s: Sys, p: Rank, q: Rank, reach: nat)
    requires AllRelay(s.sent, s.crashed, s.log)
    requires p in s.peers && p in s.log && p in All(n) && p !in s.crashed && Reported(q) !in s.log[p]
    requires PeerLogged(p, s.peers[p], s.log[p], s.handled, s.registry)
    ensures var msgs := History(s.peers[p], q);
            AllRelay(s.sent + Loop(n, p, msgs, reach),
                     if reach < Sends(n, msgs) then s.crashed + {p} else s.crashed,
                     s.log[p := s.log[p] + [Reported(q)]])
  {
    var msgs := History(s.peers[p], q);
    forall r | r in s.log && r != p
      ensures Relays(s.sent + Loop(n, p, msgs, reach), r, r !in s.crashed, s.log[r])
    {
      RelaysKept(n, s.sent, r, r !in s.crashed, s.log[r], p, msgs, reach);
    }
    ReportRelays(n, s, p, q, reach);
  }

  lemma HistoryRegistered(s: Sys, p: Rank, q: Rank)
    requires p in s.peers && p in s.log && PeerLogged(p, s.peers[p], s.log[p], s.handled, s.registry)
    ensures forall m :: m in History(s.peers[p], q) ==>
              m.origin == q != p && Delivered(m) in s.log[p] && m.id in s.registry && s.registry[m.id] == m
  {
  }

  /** On a report the peer sends on exactly what it has delivered from the reported peer. */
  lemma ReportRelays(n: nat, s: Sys, p: Rank, q: Rank, reach: nat)
    requires p in s.peers && p in s.log && p in All(n) && Reported(q) !in s.log[p]
    requires Relays(s.sent, p, true, s.log[p])
    requires PeerLogged(p, s.peers[p], s.log[p], s.handled, s.registry)
    ensures var msgs := History(s.peers[p], q);
            Relays(s.sent + Loop(n, p, msgs, reach), p, reach >= Sends(n, msgs), s.log[p] + [Reported(q)])
  {
    var msgs, log := History(s.peers[p], q), s.log[p];
    var sent', log' := s.sent + Loop(n, p, msgs, reach), log + [Reported(q)];
    HistoryRegistered(s, p, q);
    forall m, d | Packet(p, d, m) in sent' && m.origin != p
      ensures Early(log', m) && Reported(m.origin) in log'
    {
      EarlySnoc(log, Reported(q), m);
      if Packet(p, d, m) !in s.sent {
        DeliveredIsEarly(log, m);
      }
    }
    forall m: Msg | reach >= Sends(n, msgs) && m.origin != p && Early(log', m) && Reported(m.origin) in log'
      ensures Packet(p, p, m) in sent'
    {
      EarlySnoc(log, Reported(q), m);
      if m.origin == q {
        assert Delivered(m) in log;
        LoopComplete(n, p, msgs, reach, m, p);
      }
    }
  }

  lemma ReportLogged(self: Rank, p: Peer, log: seq<Note>, handled: set<Packet>, registry: map<Id, Msg>, q: Rank)
    requires PeerLogged(self, p, log, handled, registry)
    ensures PeerLogged(self, p, log + [Reported(q)], handled, registry)
  {
    KeptGrows(self, p, log, Reported(q));
    HandledGrows(self, log, handled, Reported(q));
    forall m: Msg | Delivered(m) in log + [Reported(q)]
      ensures Delivered(m) in log
    {
      InSnoc(log, Reported(q), Delivered(m));
    }
  }

  lemma InSnoc<T>(s: seq<T>, x: T, y: T)
    ensures y in s + [x] <==> y in s || y == x
  {
  }

  lemma KeptGrows(self: Rank, p: Peer, log: seq<Note>, x: Note)
    requires KeptLogged(self, p, log)
    ensures KeptLogged(self, p, log + [x])
  {
    forall o: Rank, m: Msg | m in History(p, o)
      ensures m.origin == o && o != self && Delivered(m) in log + [x]
    {
      InSnoc(log, x, Delivered(m));
    }
  }

  lemma HandledGrows(self: Rank, log: seq<Note>, handled: set<Packet>, x: Note)
    requires HandledLogged(self, log, handled)
    ensures HandledLogged(self, log + [x], handled)
  {
    forall k: Packet | k in handled && k.dst == self && (k.msg.origin != self || k.src == self)
      ensures Delivered(k.msg) in log + [x]
    {
      InSnoc(log, x, Delivered(k.msg));
    }
  }

  ghost function Noted(log: seq<Note>, out: Outcome, m: Msg): seq<Note> {
    if out.deliver then log + [Delivered(m)] else log
  }

  lemma ArrivalRelays(sent: set<Packet>, p: Rank, log: seq<Note>, m: Msg)
    requires Relays(sent, p, true, log)
    ensures Relays(sent, p, true, log + [Delivered(m)])
  {
    forall x: Msg
      ensures Early(log + [Delivered(m)], x) <==> Early(log, x) || (x == m && Reported(m.origin) !in log)
    {
      EarlySnoc(log, Delivered(m), x);
    }
  }

  /** A message not delivered yet can be noted: its id has not been delivered either. */
  lemma NoteOnce(log: seq<Note>, registry: map<Id, Msg>, m: Msg)
    requires LoggedOnce(log) && m.id in registry && registry[m.id] == m && Delivered(m) !in log
    requires forall x :: Delivered(x) in log ==> x.id in registry && registry[x.id] == x
    ensures LoggedOnce(log + [Delivered(m)])
  {
    forall i | 0 <= i < |log| && log[i].Delivered?
      ensures log[i].msg.id != m.id
    {
      assert Delivered(log[i].msg) in log;
    }
  }

  lemma NoteHandled(self: Rank, log: seq<Note>, handled: set<Packet>, k: Packet)
    requires HandledLogged(self, log, handled)
    ensures HandledLogged(self, log + [Delivered(k.msg)], handled + {k})
  {
    HandledGrows(self, log, handled, Delivered(k.msg));
    InSnoc(log, Delivered(k.msg), Delivered(k.msg));
  }

  lemma NoteOwn(self: Rank, p: Peer, log: seq<Note>, handled: set<Packet>, registry: map<Id, Msg>, k: Packet)
    requires PeerLogged(self, p, log, handled, registry) && k.dst == self == k.src == k.msg.origin
    requires k.msg.id in registry && registry[k.msg.id] == k.msg && Delivered(k.msg) !in log
    ensures PeerLogged(self, p, log + [Delivered(k.msg)], handled + {k}, registry)
  {
    NoteOnce(log, registry, k.msg);
    NoteHandled(self, log, handled, k);
    KeptGrows(self, p, log, Delivered(k.msg));
    LoggedOwn(self, p, log, handled, registry, k);
  }

  lemma LoggedOwn(self: Rank, p: Peer, log: seq<Note>, handled: set<Packet>, registry: map<Id, Msg>, k: Packet)
    requires LoggedKept(self, p, log, handled, registry) && k.dst == self == k.src == k.msg.origin
    requires k.msg.id in registry && registry[k.msg.id] == k.msg
    ensures LoggedKept(self, p, log + [Delivered(k.msg)], handled + {k}, registry)
  {
    assert k == Packet(self, self, k.msg);
    forall m: Msg | Delivered(m) in log + [Delivered(k.msg)]
      ensures Delivered(m) in log || m == k.msg
    {
      InSnoc(log, Delivered(k.msg), Delivered(m));
    }
  }

  lemma NoteOther(self: Rank, p: Peer, log: seq<Note>, handled: set<Packet>, registry: map<Id, Msg>, k: Packet)
    requires PeerLogged(self, p, log, handled, registry) && k.dst == self != k.msg.origin
    requires k.msg.id in registry && registry[k.msg.id] == k.msg && Delivered(k.msg) !in log
    ensures PeerLogged(self, p[k.msg.origin := History(p, k.msg.origin) + [k.msg]],
                       log + [Delivered(k.msg)], handled + {k}, registry)
  {
    NoteOnce(log, registry, k.msg);
    NoteHandled(self, log, handled, k);
    NoteKept(self, p, log, k.msg);
    NoteLogged(self, p, log, handled, registry, k);
  }

  lemma NoteKept(self: Rank, p: Peer, log: seq<Note>, m: Msg)
    requires KeptLogged(self, p, log) && m.origin != self
    ensures KeptLogged(self, p[m.origin := History(p, m.origin) + [m]], log + [Delivered(m)])
  {
    var o := m.origin;
    var p' := p[o := History(p, o) + [m]];
    forall x: Rank, y: Msg | y in History(p', x)
      ensures y.origin == x && x != self && Delivered(y) in log + [Delivered(m)]
    {
      InSnoc(log, Delivered(m), Delivered(y));
      InSnoc(History(p, o), m, y);
      assert History(p', x) == if x == o then History(p, o) + [m] else History(p, x);
      assert y == m || y in History(p, x);
    }
  }

  lemma NoteLogged(self: Rank, p: Peer, log: seq<Note>, handled: set<Packet>, registry: map<Id, Msg>, k: Packet)
    requires LoggedKept(self, p, log, handled, registry) && k.msg.origin != self
    requires k.msg.id in registry && registry[k.msg.id] == k.msg
    ensures LoggedKept(self, p[k.msg.origin := History(p, k.msg.origin) + [k.msg]],
                       log + [Delivered(k.msg)], handled + {k}, registry)
  {
    var o := k.msg.origin;
    var p' := p[o := History(p, o) + [k.msg]];
    forall m: Msg | Delivered(m) in log + [Delivered(k.msg)]
      ensures m.id in registry && registry[m.id] == m
      ensures if m.origin == self then Packet(self, self, m) in handled else m in History(p', m.origin)
    {
      InSnoc(log, Delivered(k.msg), Delivered(m));
      InSnoc(History(p, o), k.msg, m);
    }
  }

  lemma ArrivalLogged(self: Rank, p: Peer, log: seq<Note>, handled: set<Packet>, registry: map<Id, Msg>, k: Packet)
    requires PeerLogged(self, p, log, handled, registry) && k.dst == self && k !in handled
    requires k.msg.id in registry && registry[k.msg.id] == k.msg
    ensures var out := OnDelivery(self, p, k.src, k.msg);
            PeerLogged(self, out.peer, Noted(log, out, k.msg), handled + {k}, registry)
  {
    var m := k.msg;
    var out := OnDelivery(self, p, k.src, m);
    if out.deliver {
      assert Delivered(m) !in log;
      if m.origin == self {
        NoteOwn(self, p, log, handled, registry, k);
      } else {
        NoteOther(self, p, log, handled, registry, k);
      }
    } else if m.origin != self {
      var i :| 0 <= i < |History(p, m.origin)| && History(p, m.origin)[i].id == m.id;
      var known := History(p, m.origin)[i];
      assert known in History(p, m.origin);
      assert Delivered(known) in log;
      assert known == m;
      IgnoredLogged(self, p, log, handled, registry, k);
    } else {
      IgnoredLogged(self, p, log, handled, registry, k);
    }
  }

  lemma IgnoredLogged(self: Rank, p: Peer, log: seq<Note>, handled: set<Packet>, registry: map<Id, Msg>, k: Packet)
    requires PeerLogged(self, p, log, handled, registry)
    requires Delivered(k.msg) in log || (k.msg.origin == self && k.src != self)
    ensures PeerLogged(self, p, log, handled + {k}, registry)
  {
  }

  lemma HandledElsewhere(q: Rank, p: Peer, log: seq<Note>, handled: set<Packet>, registry: map<Id, Msg>, k: Packet)
    requires PeerLogged(q, p, log, handled, registry) && k.dst != q
    ensures PeerLogged(q, p, log, handled + {k}, registry)
  {
  }

  lemma InvArrival(n: nat, s: Sys, p: Rank, k: Packet)
    requires Inv(n, s) && Enabled(n, s, Arrival(p, k))
    ensures p in s.peers && p in s.log && Inv(n, Next(n, s, Arrival(p, k)))
  {
    var s' := Next(n, s, Arrival(p, k));
    var out := OnDelivery(p, s.peers[p], k.src, k.msg);
    ArrivalLogged(p, s.peers[p], s.log[p], s.handled, s.registry, k);
    ArrivalRelays(s.sent, p, s.log[p], k.msg);
    ArrivalAssembled(n, s, p, k, out, s');
  }

  lemma ArrivalAssembled(n: nat, s: Sys, p: Rank, k: Packet, out: Outcome, s': Sys)
    requires Inv(n, s) && p in s.peers && p in s.log && k in s.sent && k.dst == p
    requires s' == s.(peers := s.peers[p := out.peer], handled := s.handled + {k},
                      log := s.log[p := Noted(s.log[p], out, k.msg)])
    requires PeerLogged(p, out.peer, s'.log[p], s'.handled, s.registry)
    requires Relays(s.sent, p, p !in s.crashed, s'.log[p])
    ensures Inv(n, s')
  {
    ArrivalDomains(n, s, p, k, s');
    ArrivalAllRelay(s.sent, s.crashed, s.log, p, s'.log[p]);
    ArrivalAllLogged(s.peers, s.log, s.handled, s.registry, p, k, out.peer, s'.log[p]);
    SamePackets(n, s, s');
  }

  lemma SamePackets(n: nat, s: Sys, s': Sys)
    requires Genuine(n, s.sent, s.registry) && Complete(n, s.crashed, s.sent)
    requires Originated(s.crashed, s.sent, s.registry)
    requires s'.sent == s.sent && s'.registry == s.registry && s'.crashed == s.crashed
    ensures Genuine(n, s'.sent, s'.registry) && Complete(n, s'.crashed, s'.sent)
    ensures Originated(s'.crashed, s'.sent, s'.registry)
  {
  }

  lemma ArrivalDomains(n: nat, s: Sys, p: Rank, k: Packet, s': Sys)
    requires Domains(n, s) && k in s.sent && s'.peers.Keys == s.peers.Keys && s'.log.Keys == s.log.Keys
    requires s'.handled == s.handled + {k}
    requires s'.sent == s.sent && s'.registry == s.registry && s'.crashed == s.crashed
    ensures Domains(n, s')
  {
  }

  lemma ArrivalAllRelay(sent: set<Packet>, crashed: set<Rank>, log: map<Rank, seq<Note>>, p: Rank, mine: seq<Note>)
    requires AllRelay(sent, crashed, log) && Relays(sent, p, p !in crashed, mine)
    ensures AllRelay(sent, crashed, log[p := mine])
  {
  }

  lemma ArrivalAllLogged(peers: map<Rank, Peer>, log: map<Rank, seq<Note>>, handled: set<Packet>,
                         registry: map<Id, Msg>, p: Rank, k: Packet, peer: Peer, mine: seq<Note>)
    requires AllLogged(peers, log, handled, registry) && k.dst == p
    requires PeerLogged(p, peer, mine, handled + {k}, registry)
    ensures AllLogged(peers[p := peer], log[p := mine], handled + {k}, registry)
  {
    forall q | q in peers && q in log && q != p
      ensures PeerLogged(q, peers[q], log[q], handled + {k}, registry)
    {
      HandledElsewhere(q, peers[q], log[q], handled, registry, k);
    }
  }

  lemma InvStep(n: nat, s: Sys, e: Event)
    requires Inv(n, s) && Enabled(n, s, e)
    ensures e.peer in s.peers && e.peer in s.log && Inv(n, Next(n, s, e))
  {
    match e
    case Request(p, id, body, reach) => InvRequest(n, s, p, id, body, reach);
    case Arrival(p, k) => InvArrival(n, s, p, k);
    case Report(p, q, reach) => InvReport(n, s, p, q, reach);
    case Crash(p) => InvCrash(n, s, p);
  }

  lemma {:induction false} InvRun(n: nat, es: seq<Event>, s: Sys)
    requires Run(n, es, s)
    ensures Inv(n, s)
  {
    if |es| > 0 {
      var init, last := es[..|es| - 1], es[|es| - 1];
      var prev :| Run(n, init, prev) && Step(n, prev, last, s);
      InvRun(n, init, prev);
      InvStep(n, prev, last);
    } else {
      InitInv(n);
    }
  }

  lemma InitInv(n: nat)
    ensures Inv(n, Init(n))
  {
    var s := Init(n);
    forall p | p in s.log
      ensures PeerLogged(p, s.peers[p], s.log[p], s.handled, s.registry)
      ensures Relays(s.sent, p, p !in s.crashed, s.log[p])
    {
      FreshLogged(n, p);
    }
  }

  lemma FreshLogged(n: nat, p: Rank)
    ensures PeerLogged(p, NoHistory(n, p), [], {}, map[]) && Relays({}, p, true, [])
  {
  }

  /** Every reachable state satisfies the invariant. */
  lemma ReachableInv(n: nat, s: Sys)
    requires Reachable(n, s)
    ensures Inv(n, s)
  {
    var es :| Run(n, es, s);
    InvRun(n, es, s);
  }
}
