/**
 When agreement of lazy reliable broadcast holds, exactly: for each message in a settled state, and
 for groups of each size. A message can arrive at a peer after its originator's crash was reported
 there; it is then delivered but never sent on.
 */
module LazyRbExact {
  import opened Ranks
  import opened Messages
  import opened LazyRbSpec
  import opened LazyRbSystem
  import opened LazyRbTheorems

  // ---------------------------------------------------------------- what is behind each note

  ghost predicate HandledCopy(handled: set<Packet>, p: Rank, m: Msg) {
    exists k :: k in handled && k.dst == p && k.msg == m
  }

  /** A delivery was of a message handled, and a report was of a crash that happened. */
  ghost predicate Backed(handled: set<Packet>, crashed: set<Rank>, p: Rank, log: seq<Note>) {
    forall x :: x in log ==> if x.Delivered? then HandledCopy(handled, p, x.msg) else x.peer in crashed
  }

  ghost predicate AllBacked(handled: set<Packet>, crashed: set<Rank>, log: map<Rank, seq<Note>>) {
    forall p :: p in log ==> Backed(handled, crashed, p, log[p])
  }

  lemma BackedGrows(handled: set<Packet>, handled': set<Packet>, crashed: set<Rank>, crashed': set<Rank>,
                    p: Rank, log: seq<Note>, log': seq<Note>)
    requires Backed(handled, crashed, p, log) && handled <= handled' && crashed <= crashed' && log <= log'
    requires forall i :: |log| <= i < |log'| ==>
               if log'[i].Delivered? then HandledCopy(handled', p, log'[i].msg) else log'[i].peer in crashed'
    ensures Backed(handled', crashed', p, log')
  {
    forall x | x in log'
      ensures if x.Delivered? then HandledCopy(handled', p, x.msg) else x.peer in crashed'
    {
      var i :| 0 <= i < |log'| && log'[i] == x;
      if i < |log| {
        assert x == log[i];
        if x.Delivered? {
          var k :| k in handled && k.dst == p && k.msg == x.msg;
          assert k in handled';
        }
      }
    }
  }

  lemma BackedStep(n: nat, s: Sys, e: Event, s': Sys)
    requires Step(n, s, e, s') && AllBacked(s.handled, s.crashed, s.log)
    ensures AllBacked(s'.handled, s'.crashed, s'.log)
  {
    if e.Arrival? {
      assert e.packet in s'.handled;
      assert HandledCopy(s'.handled, e.peer, e.packet.msg);
    }
    forall p | p in s'.log
      ensures Backed(s'.handled, s'.crashed, p, s'.log[p])
    {
      BackedGrows(s.handled, s'.handled, s.crashed, s'.crashed, p, s.log[p], s'.log[p]);
    }
  }

  lemma {:induction false} RunBacked(n: nat, es: seq<Event>, s: Sys)
    requires Run(n, es, s)
    ensures AllBacked(s.handled, s.crashed, s.log)
  {
    if |es| > 0 {
      var init, last := es[..|es| - 1], es[|es| - 1];
      var prev :| Run(n, init, prev) && Step(n, prev, last, s);
      RunBacked(n, init, prev);
      BackedStep(n, prev, last, s);
    }
  }

  lemma ReachableBacked(n: nat, s: Sys)
    requires Reachable(n, s)
    ensures AllBacked(s.handled, s.crashed, s.log)
  {
    var es :| Run(n, es, s);
    RunBacked(n, es, s);
  }

  // ---------------------------------------------------------------- one message

  /** All that is under way has been handled, and all crashes have been reported. */
  ghost predicate Settled(n: nat, s: Sys) {
    Reachable(n, s) && Quiescent(s) && AllReported(n, s)
  }

  /** A peer that has crashed since got a copy through to p. */
  ghost predicate HeardFromCrashed(s: Sys, p: Rank, m: Msg) {
    exists k :: k in s.handled && k.dst == p && k.msg == m && k.src in s.crashed
  }

  ghost predicate SomeEarly(n: nat, s: Sys, m: Msg) {
    exists p :: p in Alive(n, s) && p in s.log && Early(s.log[p], m)
  }

  /** A message no live peer delivered early ends up with exactly those who heard it from a crashed peer. */
  lemma LateDeliveries(n: nat, s: Sys, p: Rank, m: Msg)
    requires Settled(n, s) && p in Alive(n, s) && !SomeEarly(n, s, m)
    ensures p in s.log
    ensures Delivered(m) in s.log[p] <==> HeardFromCrashed(s, p, m)
  {
    ReachableInv(n, s);
    ReachableBacked(n, s);
    if Delivered(m) in s.log[p] {
      LateHeard(n, s, p, m);
    }
    if HeardFromCrashed(s, p, m) {
      var k :| k in s.handled && k.dst == p && k.msg == m && k.src in s.crashed;
      if m.origin == p {
        OwnIsEarly(n, s, k);
        assert false;
      }
      assert PeerLogged(p, s.peers[p], s.log[p], s.handled, s.registry);
    }
  }

  lemma LateHeard(n: nat, s: Sys, p: Rank, m: Msg)
    requires Inv(n, s) && AllBacked(s.handled, s.crashed, s.log)
    requires p in Alive(n, s) && !SomeEarly(n, s, m) && Delivered(m) in s.log[p]
    ensures HeardFromCrashed(s, p, m)
  {
    assert Backed(s.handled, s.crashed, p, s.log[p]);
    var k :| k in s.handled && k.dst == p && k.msg == m;
    assert !Early(s.log[p], m);
    if Reported(m.origin) !in s.log[p] {
      DeliveredIsEarly(s.log[p], m);
      assert false;
    }
    if k.src !in s.crashed {
      LiveRelayIsEarly(n, s, k);
      assert false;
    }
  }

  /** A live peer that sent on another's message had delivered it early. */
  lemma LiveRelayIsEarly(n: nat, s: Sys, k: Packet)
    requires Inv(n, s) && k in s.handled && k.src in Alive(n, s) && k.msg.origin != k.src
    ensures SomeEarly(n, s, k.msg)
  {
    assert Packet(k.src, k.dst, k.msg) in s.sent;
    assert Relays(s.sent, k.src, true, s.log[k.src]);
  }

  /** A live originator of a message under way has delivered it early itself. */
  lemma OwnIsEarly(n: nat, s: Sys, k: Packet)
    requires Inv(n, s) && AllBacked(s.handled, s.crashed, s.log) && Quiescent(s)
    requires k in s.handled && k.msg.origin in Alive(n, s)
    ensures SomeEarly(n, s, k.msg)
  {
    var m := k.msg;
    var o := m.origin;
    assert Packet(o, o, m) in s.handled;
    assert PeerLogged(o, s.peers[o], s.log[o], s.handled, s.registry);
    assert Backed(s.handled, s.crashed, o, s.log[o]);
    assert Reported(o) !in s.log[o];
    DeliveredIsEarly(s.log[o], m);
  }

  /**
   Agreement on a message holds in a settled state if and only if some live peer delivered it before
   its report of the originator's crash, or every live peer happened to hear it from a crashed peer.
   */
  lemma AgreementExact(n: nat, s: Sys, m: Msg)
    requires Settled(n, s)
    ensures (forall p :: p in Alive(n, s) ==> p in s.log && Delivered(m) in s.log[p])
       <==> SomeEarly(n, s, m) || forall p :: p in Alive(n, s) ==> HeardFromCrashed(s, p, m)
  {
    if SomeEarly(n, s, m) {
      var p :| p in Alive(n, s) && p in s.log && Early(s.log[p], m);
      Agreement(n, s, p, m);
    } else {
      forall p | p in Alive(n, s)
        ensures p in s.log
        ensures Delivered(m) in s.log[p] <==> HeardFromCrashed(s, p, m)
      {
        LateDeliveries(n, s, p, m);
      }
    }
  }

  // ---------------------------------------------------------------- groups of each size

  /** In every settled state, what one live peer delivered all live peers have delivered. */
  ghost predicate Agrees(n: nat) {
    forall s, p, r, m ::
      Settled(n, s) && p in Alive(n, s) && r in Alive(n, s) && p in s.log && Delivered(m) in s.log[p] ==>
        r in s.log && Delivered(m) in s.log[r]
  }

  /** Agreement without the condition holds in groups of one or two peers, and in no larger one. */
  lemma AgreementBoundExact(n: nat)
    ensures Agrees(n) <==> n <= 2
  {
    if n <= 2 {
      forall s, p, r, m | Settled(n, s) && p in Alive(n, s) && r in Alive(n, s)
                          && p in s.log && Delivered(m) in s.log[p]
        ensures r in s.log && Delivered(m) in s.log[r]
      {
        TwoAgree(n, s, p, r, m);
      }
    } else {
      var s := LateArrivalBreaksAgreement(n, Msg(n, "", ""));
      assert 1 in Alive(n, s) && 2 in Alive(n, s);
      assert !Agrees(n);
    }
  }

  /** If both peers of a group of two are live, so is every originator. */
  lemma TwoAgree(n: nat, s: Sys, p: Rank, r: Rank, m: Msg)
    requires n <= 2 && Settled(n, s) && p in Alive(n, s) && r in Alive(n, s) && p in s.log && Delivered(m) in s.log[p]
    ensures r in s.log && Delivered(m) in s.log[r]
  {
    if p != r {
      DeliveredIsRegistered(n, s, p, m);
      OneOfTwo(n, p, r, m.origin);
      Validity(n, s, m);
    }
  }

  lemma DeliveredIsRegistered(n: nat, s: Sys, p: Rank, m: Msg)
    requires Reachable(n, s) && p in s.log && Delivered(m) in s.log[p]
    ensures m.origin in All(n) && m.id in s.registry && s.registry[m.id] == m
  {
    ReachableInv(n, s);
    assert PeerLogged(p, s.peers[p], s.log[p], s.handled, s.registry);
  }

  lemma OneOfTwo(n: nat, p: Rank, r: Rank, o: Rank)
    requires n <= 2 && p in All(n) && r in All(n) && o in All(n) && p != r
    ensures o == p || o == r
  {
  }

  /**
   The highest rank crashes after sending to peer 1 alone; all live peers are told of the crash; only
   then does the message arrive at peer 1. It delivers the message, and nobody ever sends it to peer 2.
   */
  lemma LateArrivalBreaksAgreement(n: nat, m: Msg) returns (s: Sys)
    requires 2 < n == m.origin
    ensures Settled(n, s) && Alive(n, s) == All(n) - {n}
    ensures 1 in s.log && 2 in s.log
    ensures Delivered(m) in s.log[1] && Delivered(m) !in s.log[2]
  {
    var told := AllTold(n, m, n - 1);
    s := ArrivesLate(n, told, m);
    LateLogs(n, m, told, s);
    LateSettled(n, s, Packet(n, 1, m));
  }

  lemma LateLogs(n: nat, m: Msg, told: Sys, s: Sys)
    requires 2 < n == m.origin && Told(n, m, told, n - 1)
    requires s.log == told.log[1 := told.log[1] + [Delivered(m)]]
    ensures 1 in s.log && 2 in s.log && Delivered(m) in s.log[1] && Delivered(m) !in s.log[2]
    ensures forall p :: p in s.log && p < n ==> Reported(n) in s.log[p]
  {
    var mine := s.log[1];
    assert mine[1] == Delivered(m) && mine[0] == Reported(n);
    forall p | p in s.log && p < n
      ensures Reported(n) in s.log[p]
    {
      assert s.log[p][0] == Reported(n);
    }
  }

  lemma LateSettled(n: nat, s: Sys, k: Packet)
    requires Reachable(n, s) && s.crashed == {n} && s.sent == s.handled == {k}
    requires forall p :: p in s.log && p < n ==> Reported(n) in s.log[p]
    ensures Settled(n, s)
  {
  }

  /** The broadcast has been cut short, and the peers up to rank k have been told. */
  ghost predicate Told(n: nat, m: Msg, s: Sys, k: nat) {
    && s.crashed == {n} && s.sent == {Packet(n, 1, m)} && s.handled == {}
    && s.peers.Keys == All(n) == s.log.Keys
    && (forall p :: p in s.peers ==> History(s.peers[p], n) == [])
    && (forall p :: p in s.log ==> s.log[p] == if p <= k then [Reported(n)] else [])
  }

  lemma {:induction false} AllTold(n: nat, m: Msg, k: nat) returns (s: Sys)
    requires 1 < n == m.origin && k < n
    ensures Reachable(n, s) && Told(n, m, s, k)
  {
    if k == 0 {
      s := FirstBroadcastCut(n, m);
    } else {
      var before := AllTold(n, m, k - 1);
      s := TellNext(n, m, before, k);
    }
  }

  lemma TellNext(n: nat, m: Msg, before: Sys, k: nat) returns (s: Sys)
    requires 0 < k < n && Reachable(n, before) && Told(n, m, before, k - 1)
    ensures Reachable(n, s) && Told(n, m, s, k)
  {
    MayTell(n, m, before, k);
    s := ReportNothing(n, before, k, n);
    ToldOneMore(n, m, before, s, k);
  }

  lemma MayTell(n: nat, m: Msg, s: Sys, k: nat)
    requires 0 < k < n && Told(n, m, s, k - 1)
    ensures Enabled(n, s, Report(k, n, 0)) && k in s.peers && History(s.peers[k], n) == []
  {
    assert s.log[k] == [];
  }

  lemma ToldOneMore(n: nat, m: Msg, before: Sys, s: Sys, k: nat)
    requires 0 < k < n && Told(n, m, before, k - 1)
    requires s == before.(log := before.log[k := before.log[k] + [Reported(n)]])
    ensures Told(n, m, s, k)
  {
    assert before.log[k] == [];
    assert s.log[k] == [Reported(n)];
    assert forall p :: p in before.log && p != k ==> s.log[p] == before.log[p];
  }

  lemma ArrivesLate(n: nat, before: Sys, m: Msg) returns (s: Sys)
    requires Reachable(n, before) && 1 < m.origin <= n && 1 in before.peers && 1 in before.log && 1 !in before.crashed
    requires Packet(m.origin, 1, m) in before.sent && before.handled == {} && History(before.peers[1], m.origin) == []
    ensures Reachable(n, s) && s.sent == before.sent && s.crashed == before.crashed
    ensures s.handled == {Packet(m.origin, 1, m)}
    ensures s.log == before.log[1 := before.log[1] + [Delivered(m)]]
  {
    var e := Arrival(1, Packet(m.origin, 1, m));
    s := Next(n, before, e);
    assert Step(n, before, e, s);
    Extend(n, before, e, s);
  }

  /** A first broadcast that reaches rank 1 only. */
  lemma FirstBroadcastCut(n: nat, m: Msg) returns (s: Sys)
    requires m.origin in All(n) && 1 < n
    ensures Reachable(n, s) && s.crashed == {m.origin} && s.sent == {Packet(m.origin, 1, m)} && s.handled == {}
    ensures s.peers.Keys == All(n) == s.log.Keys
    ensures forall p :: p in All(n) ==> History(s.peers[p], m.origin) == [] && s.log[p] == []
  {
    var init, e := Init(n), Request(m.origin, m.id, m.body, 1);
    assert Run(n, [], init);
    FirstSend(n, m.origin, m);
    s := Next(n, init, e);
    assert s.sent == Loop(n, m.origin, [m], 1);
    assert Step(n, init, e, s);
    Extend(n, init, e, s);
  }

  lemma FirstSend(n: nat, src: Rank, m: Msg)
    requires 1 <= n
    ensures Loop(n, src, [m], 1) == {Packet(src, 1, m)}
  {
    var loop := Loop(n, src, [m], 1);
    assert Position(n, 0, 1) == 1 && [m][0] == m;
    assert Packet(src, 1, m) in loop;
    forall k | k in loop
      ensures k == Packet(src, 1, m)
    {
      var i, dst :| 0 <= i < |[m]| && dst in All(n) && Position(n, i, dst) <= 1 && k == Packet(src, dst, [m][i]);
    }
  }

  /** A report to a peer that has no history of the crashed peer sends nothing. */
  lemma ReportNothing(n: nat, s: Sys, p: Rank, q: Rank) returns (s': Sys)
    requires Reachable(n, s) && Enabled(n, s, Report(p, q, 0)) && p in s.peers && History(s.peers[p], q) == []
    ensures p in s.log && s' == s.(log := s.log[p := s.log[p] + [Reported(q)]])
    ensures Reachable(n, s')
  {
    var e := Report(p, q, 0);
    s' := Next(n, s, e);
    assert Loop(n, p, [], 0) == {};
    assert s.sent + {} == s.sent;
    assert Step(n, s, e, s');
    Extend(n, s, e, s');
  }
}
