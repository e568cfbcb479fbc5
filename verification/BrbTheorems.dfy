/**
 What Byzantine reliable broadcast guarantees in every reachable state: consistency, no duplication,
 integrity, and - once the messages of correct peers have all been handled - totality and validity.
 The theorems hold for the rule of one entry per sender and for the duplicate scans as the program
 has them. Integrity and validity need that faulty votes cannot trigger the amplification, consistency
 and totality also that echo quorums overlap. `BrbBounds` and `BrbLiteralScan` show that groups
 outside these conditions do fail.
 */
module BrbTheorems {
  import opened Ranks
  import opened Messages
  import opened BrbSpec
  import opened BrbSystem

  // ---------------------------------------------------------------- agreement

  /** No two correct peers send READY for different bodies. */
  lemma ReadyAgreement(env: Env, s: Sys, c: Cast, d: Cast)
    requires WellFormed(env) && Safe(env) && Reachable(env, s)
    requires c in s.sent && d in s.sent && c.code.Ready? && d.code.Ready?
    ensures c.body == d.body
  {
    ReachableInv(env, s);
    SupportIsUnique(env, s.peers, s.sent, c.body, d.body);
  }

  lemma SupportIsUnique(env: Env, peers: map<Rank, Peer>, sent: set<Cast>, m: Body, m': Body)
    requires Safe(env) && OneShot(peers, sent) && Supported(env, sent, m) && Supported(env, sent, m')
    ensures m == m'
  {
    var a, b := Senders(env, sent, Echo, m), Senders(env, sent, Echo, m');
    if m != m' {
      var r := Overlap(a, b, env.correct);
    }
  }

  /** A delivery rests on at least f + 1 READYs of correct peers, or on one when f is 0. */
  lemma DeliveryBacked(env: Env, s: Sys, p: Rank, m: Body)
    requires WellFormed(env) && Outvoted(env) && Inv(env, s) && p in env.correct && m in s.log[p]
    ensures |Senders(env, s.sent, Ready, m)| >= env.cfg.maxFaulty + 1
    ensures Supported(env, s.sent, m)
  {
    assert PeerThresholds(env.cfg, s.peers[p], s.log[p]);
    VotesBounded(env, s.handled, s.sent, p, Ready, s.peers[p].readys, m);
    var senders := Senders(env, s.sent, Ready, m);
    assert |senders| > 0;
    var q :| q in senders;
    assert Cast(q, Ready, m) in s.sent;
  }

  /** Consistency: no two correct peers deliver different bodies, in any reachable state. */
  lemma Consistency(env: Env, s: Sys, p: Rank, q: Rank, m: Body, m': Body)
    requires WellFormed(env) && Safe(env) && Reachable(env, s)
    requires p in env.correct && q in env.correct
    ensures p in s.log && q in s.log
    ensures m in s.log[p] && m' in s.log[q] ==> m == m'
  {
    ReachableInv(env, s);
    if m in s.log[p] && m' in s.log[q] {
      DeliveryBacked(env, s, p, m);
      DeliveryBacked(env, s, q, m');
      SupportIsUnique(env, s.peers, s.sent, m, m');
    }
  }

  /** No correct peer delivers twice, whatever the faulty peers do and however many they are. */
  lemma NoDuplication(env: Env, s: Sys, p: Rank)
    requires WellFormed(env) && Reachable(env, s) && p in env.correct
    ensures p in s.log && |s.log[p]| <= 1
  {
    ReachableInv(env, s);
    assert PeerThresholds(env.cfg, s.peers[p], s.log[p]);
  }

  /** With f >= 1, a peer that delivered has sent its own READY: the else-branch is never starved. */
  lemma DeliveredHasSentReady(env: Env, s: Sys, p: Rank)
    requires WellFormed(env) && Reachable(env, s) && p in env.correct && env.cfg.maxFaulty >= 1
    ensures p in s.log && p in s.peers
    ensures s.log[p] != [] ==> HasSent(s.sent, p, Ready)
  {
    ReachableInv(env, s);
    assert PeerThresholds(env.cfg, s.peers[p], s.log[p]);
    if s.log[p] != [] {
      assert s.log[p][0] in s.log[p];
    }
  }

  // ---------------------------------------------------------------- integrity

  lemma NewSend(env: Env, s: Sys, e: Event, s': Sys, c: Cast)
    requires Step(env, s, e, s') && c in s'.sent && c !in s.sent && c.code.Send?
    ensures e == Request(c.src, c.body)
  {
    if e.Arrival? {
      OnSummary(env.cfg, s.peers[e.peer], e.cast.src, e.cast.code, e.cast.body,
                On(env.cfg, s.peers[e.peer], e.cast.src, e.cast.code, e.cast.body));
    }
  }

  lemma {:induction false} SendsWereRequested(env: Env, es: seq<Event>, s: Sys, c: Cast)
    requires Run(env, es, s) && c in s.sent && c.code.Send?
    ensures Request(c.src, c.body) in es
  {
    if |es| > 0 {
      var init, last := es[..|es| - 1], es[|es| - 1];
      var prev :| Run(env, init, prev) && Step(env, prev, last, s);
      if c in prev.sent {
        SendsWereRequested(env, init, prev, c);
      } else {
        NewSend(env, prev, last, s, c);
        assert es[|es| - 1] == Request(c.src, c.body);
      }
    }
  }

  lemma {:induction false} RequestsAreSent(env: Env, es: seq<Event>, s: Sys, p: Rank, m: Body)
    requires Run(env, es, s) && Request(p, m) in es
    ensures Cast(p, Send, m) in s.sent
  {
    var init, last := es[..|es| - 1], es[|es| - 1];
    var prev :| Run(env, init, prev) && Step(env, prev, last, s);
    SentGrows(env, prev, last, s);
    var i :| 0 <= i < |es| && es[i] == Request(p, m);
    if i < |es| - 1 {
      assert init[i] == es[i];
      RequestsAreSent(env, init, prev, p, m);
    }
  }

  lemma SentGrows(env: Env, s: Sys, e: Event, s': Sys)
    requires Step(env, s, e, s')
    ensures s.sent <= s'.sent && (e.Request? ==> Cast(e.peer, Send, e.body) in s'.sent)
  {
  }

  /** Integrity: with a correct designated sender, a delivered body was passed to its broadcast operation. */
  lemma Integrity(env: Env, es: seq<Event>, s: Sys, p: Rank, m: Body)
    requires WellFormed(env) && Outvoted(env) && Run(env, es, s)
    requires env.cfg.senderRank in env.correct && p in env.correct
    ensures p in s.log
    ensures m in s.log[p] ==> Request(env.cfg.senderRank, m) in es
  {
    InvRun(env, es, s);
    if m in s.log[p] {
      DeliveryBacked(env, s, p, m);
      SupportedWasSent(env, s.sent, m);
      SendsWereRequested(env, es, s, Cast(env.cfg.senderRank, Send, m));
    }
  }

  /** Faulty votes cannot fill an echo quorum, so a supported body was echoed by a correct peer. */
  lemma SupportedWasEchoed(env: Env, sent: set<Cast>, m: Body) returns (q: Rank)
    requires WellFormed(env) && Outvoted(env) && env.correct != {} && Supported(env, sent, m)
    ensures q in env.correct && Cast(q, Echo, m) in sent
  {
    SubsetSize(env.correct, All(env.cfg.maxRank));
    assert |env.correct| > 0;
    var echoers := Senders(env, sent, Echo, m);
    assert |echoers| > 0;
    q :| q in echoers;
  }

  /** What a correct designated sender did not send cannot be supported. */
  lemma SupportedWasSent(env: Env, sent: set<Cast>, m: Body)
    requires WellFormed(env) && Outvoted(env) && Supported(env, sent, m)
    requires env.cfg.senderRank in env.correct && EchoesOriginate(env, sent)
    ensures Cast(env.cfg.senderRank, Send, m) in sent
  {
    var q := SupportedWasEchoed(env, sent, m);
    assert Cast(q, Echo, m) in sent;
  }

  // ---------------------------------------------------------------- quiescence

  /** Every message of a correct peer has been handled by every correct peer. */
  ghost predicate Quiescent(env: Env, s: Sys) {
    forall p, c :: p in env.correct && c in s.sent ==> (p, c) in s.handled
  }

  /** In a quiescent state a correct peer has counted the votes of all correct voters. */
  lemma AllCounted(env: Env, s: Sys, p: Rank, code: Code, list: seq<Entry>, m: Body)
    requires Quiescent(env, s) && p in env.correct && VotesOf(env, s.handled, p, code, list)
    ensures Count(list, m) >= |Senders(env, s.sent, code, m)|
  {
    forall r | r in Senders(env, s.sent, code, m)
      ensures Entry(r, m) in list
    {
      assert (p, Cast(r, code, m)) in s.handled;
    }
    CountCovers(list, Senders(env, s.sent, code, m), m);
  }

  /** No other body can be supported. */
  ghost predicate Only(env: Env, sent: set<Cast>, m: Body) {
    forall b :: Supported(env, sent, b) ==> b == m
  }

  /** A correct peer that sent READY sent it for the one supported body. */
  lemma ReadyIsFor(env: Env, s: Sys, q: Rank, m: Body)
    requires Outvoted(env) && Inv(env, s) && q in env.correct && s.peers[q].sentReady && Only(env, s.sent, m)
    ensures Cast(q, Ready, m) in s.sent
  {
    assert HasSent(s.sent, q, Ready);
    var m' :| Cast(q, Ready, m') in s.sent;
    assert Supported(env, s.sent, m');
  }

  /** An echo quorum of correct peers, or f + 1 of their READYs with f >= 1, makes a peer send READY. */
  lemma QuorumMakesReady(env: Env, s: Sys, q: Rank, m: Body)
    requires WellFormed(env) && Outvoted(env) && Reachable(env, s) && Quiescent(env, s) && q in env.correct
    requires Only(env, s.sent, m)
    requires || |Senders(env, s.sent, Echo, m)| > EchoThreshold(env.cfg)
             || |Senders(env, s.sent, Ready, m)| > env.cfg.maxFaulty > 0
    ensures Cast(q, Ready, m) in s.sent
  {
    ReachableInv(env, s);
    AllCounted(env, s, q, Echo, s.peers[q].echos, m);
    AllCounted(env, s, q, Ready, s.peers[q].readys, m);
    assert PeerThresholds(env.cfg, s.peers[q], s.log[q]);
    ReadyIsFor(env, s, q, m);
  }

  lemma PeerFacts(env: Env, s: Sys, q: Rank)
    requires WellFormed(env) && Reachable(env, s) && q in env.correct
    ensures q in s.peers && q in s.log && PeerThresholds(env.cfg, s.peers[q], s.log[q])
    ensures VotesOf(env, s.handled, q, Echo, s.peers[q].echos)
    ensures VotesOf(env, s.handled, q, Ready, s.peers[q].readys)
  {
    ReachableInv(env, s);
  }

  lemma QuorumMakesSomeDelivery(env: Env, s: Sys, q: Rank, m: Body) returns (m': Body)
    requires WellFormed(env) && Reachable(env, s) && Quiescent(env, s) && q in env.correct
    requires |Senders(env, s.sent, Ready, m)| > 2 * env.cfg.maxFaulty
    ensures q in s.log && s.log[q] == [m']
  {
    PeerFacts(env, s, q);
    AllCounted(env, s, q, Ready, s.peers[q].readys, m);
    m' := s.log[q][0];
  }

  /** More than 2f READYs of correct peers, none for another body, make a peer deliver that body alone. */
  lemma QuorumMakesDelivery(env: Env, s: Sys, q: Rank, m: Body)
    requires WellFormed(env) && Outvoted(env) && Reachable(env, s) && Quiescent(env, s) && q in env.correct
    requires Only(env, s.sent, m) && |Senders(env, s.sent, Ready, m)| > 2 * env.cfg.maxFaulty
    ensures q in s.log && s.log[q] == [m]
  {
    var m' := QuorumMakesSomeDelivery(env, s, q, m);
    DeliveryBackedReachable(env, s, q, m');
  }

  /** If enough correct peers sent READY for m to make amplification certain, all of them deliver m. */
  lemma ReadySpreads(env: Env, s: Sys, m: Body)
    requires WellFormed(env) && Outvoted(env) && Reachable(env, s) && Quiescent(env, s)
    requires |env.correct| > 2 * env.cfg.maxFaulty && Only(env, s.sent, m)
    requires |Senders(env, s.sent, Ready, m)| > env.cfg.maxFaulty
    ensures forall q :: q in env.correct ==> q in s.log && s.log[q] == [m]
  {
    if env.cfg.maxFaulty > 0 {
      forall q | q in env.correct
        ensures Cast(q, Ready, m) in s.sent
      {
        QuorumMakesReady(env, s, q, m);
      }
      assert Senders(env, s.sent, Ready, m) == env.correct;
    }
    forall q | q in env.correct
      ensures q in s.log && s.log[q] == [m]
    {
      QuorumMakesDelivery(env, s, q, m);
    }
  }

  /** Totality: in every reachable quiescent state, what one correct peer delivered all have delivered. */
  lemma Totality(env: Env, s: Sys, p: Rank, m: Body)
    requires WellFormed(env) && Safe(env) && Reachable(env, s) && Quiescent(env, s)
    requires |env.correct| > 2 * env.cfg.maxFaulty
    requires p in env.correct && p in s.log && m in s.log[p]
    ensures forall q :: q in env.correct ==> q in s.log && s.log[q] == [m]
  {
    DeliveryBackedReachable(env, s, p, m);
    SupportedIsOnly(env, s, m);
    ReadySpreads(env, s, m);
  }

  lemma SupportedIsOnly(env: Env, s: Sys, m: Body)
    requires WellFormed(env) && Safe(env) && Reachable(env, s) && Supported(env, s.sent, m)
    ensures Only(env, s.sent, m)
  {
    assert OneShot(s.peers, s.sent) && s.peers.Keys == env.correct by {
      ReachableInv(env, s);
    }
    forall b | Supported(env, s.sent, b)
      ensures b == m
    {
      SupportIsUnique(env, s.peers, s.sent, b, m);
    }
  }

  lemma DeliveryBackedReachable(env: Env, s: Sys, p: Rank, m: Body)
    requires WellFormed(env) && Outvoted(env) && Reachable(env, s) && p in env.correct && p in s.log && m in s.log[p]
    ensures |Senders(env, s.sent, Ready, m)| > env.cfg.maxFaulty && Supported(env, s.sent, m)
  {
    ReachableInv(env, s);
    DeliveryBacked(env, s, p, m);
  }

  /** The designated sender was asked to broadcast that body and no other. */
  ghost predicate SentExactly(env: Env, sent: set<Cast>, m: Body) {
    forall b :: Cast(env.cfg.senderRank, Send, b) in sent <==> b == m
  }

  /**
   Validity: if the designated sender is correct and broadcast exactly one body, then in every
   reachable quiescent state all correct peers have delivered it.
   */
  lemma Validity(env: Env, s: Sys, m: Body)
    requires WellFormed(env) && Outvoted(env) && Reachable(env, s) && Quiescent(env, s)
    requires |env.correct| > 2 * env.cfg.maxFaulty
    requires env.cfg.senderRank in env.correct && SentExactly(env, s.sent, m)
    ensures forall q :: q in env.correct ==> q in s.log && s.log[q] == [m]
  {
    SubsetSize(env.correct, All(env.cfg.maxRank));
    OnlyTheOne(env, s, m);
    forall q | q in env.correct
      ensures Cast(q, Echo, m) in s.sent
    {
      EchoesTheOne(env, s, q, m);
    }
    assert Senders(env, s.sent, Echo, m) == env.correct;
    forall q | q in env.correct
      ensures Cast(q, Ready, m) in s.sent
    {
      QuorumMakesReady(env, s, q, m);
    }
    assert Senders(env, s.sent, Ready, m) == env.correct;
    ReadySpreads(env, s, m);
  }

  lemma OnlyTheOne(env: Env, s: Sys, m: Body)
    requires WellFormed(env) && Outvoted(env) && Reachable(env, s)
    requires env.cfg.senderRank in env.correct && SentExactly(env, s.sent, m)
    ensures Only(env, s.sent, m)
  {
    assert EchoesOriginate(env, s.sent) by {
      ReachableInv(env, s);
    }
    forall b | Supported(env, s.sent, b)
      ensures b == m
    {
      SupportedWasSent(env, s.sent, b);
    }
  }

  lemma EchoesTheOne(env: Env, s: Sys, q: Rank, m: Body)
    requires WellFormed(env) && Reachable(env, s) && Quiescent(env, s)
    requires q in env.correct && env.cfg.senderRank in env.correct && SentExactly(env, s.sent, m)
    ensures Cast(q, Echo, m) in s.sent
  {
    ReachableInv(env, s);
    assert (q, Cast(env.cfg.senderRank, Send, m)) in s.handled;
    assert HasSent(s.sent, q, Echo);
    var b :| Cast(q, Echo, b) in s.sent;
    assert Cast(env.cfg.senderRank, Send, b) in s.sent;
  }

  ghost predicate Consistent(env: Env) {
    forall s, p, q, m, m' ::
      Reachable(env, s) && p in s.log && q in s.log && m in s.log[p] && m' in s.log[q] ==> m == m'
  }

  /** Only what a correct designated sender was asked to broadcast is ever delivered. */
  ghost predicate Honest(env: Env) {
    forall es, s, p, m :: Run(env, es, s) && p in s.log && m in s.log[p] && env.cfg.senderRank in env.correct ==>
      Request(env.cfg.senderRank, m) in es
  }

  /** Nothing is under way any more, and a correct designated sender broadcast m alone. */
  ghost predicate Owed(env: Env, s: Sys, m: Body) {
    Reachable(env, s) && Quiescent(env, s) && env.cfg.senderRank in env.correct && SentExactly(env, s.sent, m)
  }

  /** The one body a correct designated sender broadcast ends up delivered everywhere. */
  ghost predicate Valid(env: Env) {
    forall s, m, q :: Owed(env, s, m) && q in env.correct ==> q in s.log && s.log[q] == [m]
  }

  /** All correct peers end up with the same deliveries. */
  ghost predicate Total(env: Env) {
    forall s, p, q, m ::
      Reachable(env, s) && Quiescent(env, s) && p in s.log && q in s.log && m in s.log[p] ==> m in s.log[q]
  }

  lemma SafeIsConsistent(env: Env)
    requires WellFormed(env) && Safe(env)
    ensures Consistent(env)
  {
    forall s, p, q, m, m' | Reachable(env, s) && p in s.log && q in s.log && m in s.log[p] && m' in s.log[q]
      ensures m == m'
    {
      assert s.log.Keys == env.correct by {
        ReachableInv(env, s);
      }
      Consistency(env, s, p, q, m, m');
    }
  }

  lemma SafeIsTotal(env: Env)
    requires WellFormed(env) && Safe(env) && |env.correct| > 2 * env.cfg.maxFaulty
    ensures Total(env)
  {
    forall s, p, q, m | Reachable(env, s) && Quiescent(env, s) && p in s.log && q in s.log && m in s.log[p]
      ensures m in s.log[q]
    {
      assert s.log.Keys == env.correct by {
        ReachableInv(env, s);
      }
      Totality(env, s, p, m);
    }
  }

  lemma OutvotedIsHonest(env: Env)
    requires WellFormed(env) && Outvoted(env)
    ensures Honest(env)
  {
    forall es, s, p, m | Run(env, es, s) && p in s.log && m in s.log[p] && env.cfg.senderRank in env.correct
      ensures Request(env.cfg.senderRank, m) in es
    {
      assert s.log.Keys == env.correct by {
        InvRun(env, es, s);
      }
      Integrity(env, es, s, p, m);
    }
  }

  lemma OutvotedIsValid(env: Env)
    requires WellFormed(env) && Outvoted(env) && |env.correct| > 2 * env.cfg.maxFaulty
    ensures Valid(env)
  {
    forall s, m, q | Owed(env, s, m) && q in env.correct
      ensures q in s.log && s.log[q] == [m]
    {
      Validity(env, s, m);
    }
  }

  // ---------------------------------------------------------------- quiescence is reached

  ghost function Pending(env: Env, s: Sys): set<(Rank, Cast)> {
    (set p, c | p in env.correct && c in s.sent :: (p, c)) - s.handled
  }

  ghost function NoEcho(peers: map<Rank, Peer>): set<Rank> {
    set p | p in peers && !peers[p].sentEcho
  }

  ghost function NoReady(peers: map<Rank, Peer>): set<Rank> {
    set p | p in peers && !peers[p].sentReady
  }

  ghost function Unsent(s: Sys): nat {
    |NoEcho(s.peers)| + |NoReady(s.peers)|
  }

  /** Only messages of correct peers have been handled since, and nobody was asked to broadcast. */
  ghost predicate Settles(env: Env, s: Sys, s': Sys) {
    && (forall c: Cast :: c.code.Send? ==> (c in s.sent <==> c in s'.sent))
    && (forall p, c :: (p, c) in s'.handled && c.src !in env.correct ==> (p, c) in s.handled)
    && s.log.Keys == s.peers.Keys == env.correct == s'.log.Keys == s'.peers.Keys
    && (forall p :: p in env.correct ==> s.log[p] <= s'.log[p])
    && (forall p :: p in env.correct && OneEach(s.peers[p].readys) ==> OneEach(s'.peers[p].readys))
  }

  lemma SettlesTrans(env: Env, a: Sys, b: Sys, c: Sys)
    requires Settles(env, a, b) && Settles(env, b, c)
    ensures Settles(env, a, c)
  {
  }

  /**
   Handling the messages of correct peers, in any order, reaches a quiescent state: each step uses
   up a one-shot flag or a pending message. Deliveries made on the way are kept.
   */
  lemma {:induction false} Drain(env: Env, s: Sys) returns (s': Sys)
    requires WellFormed(env) && Reachable(env, s)
    ensures Reachable(env, s') && Quiescent(env, s') && Settles(env, s, s')
    decreases Unsent(s), |Pending(env, s)|
  {
    assert Domains(env, s) by {
      ReachableInv(env, s);
    }
    if Pending(env, s) == {} {
      NothingPending(env, s);
      s' := s;
    } else {
      var pc :| pc in Pending(env, s);
      var next := DrainStep(env, s, pc.0, pc.1);
      s' := Drain(env, next);
      SettlesTrans(env, s, next, s');
    }
  }

  /** A delivery made before is still the only one. */
  lemma StillDelivered(env: Env, before: Sys, s: Sys, p: Rank, m: Body)
    requires WellFormed(env) && Reachable(env, s) && Settles(env, before, s) && p in env.correct
    requires before.log[p] == [m]
    ensures s.log[p] == [m]
  {
    NoDuplication(env, s, p);
    assert before.log[p] <= s.log[p];
  }

  lemma NothingPending(env: Env, s: Sys)
    requires Domains(env, s) && Pending(env, s) == {}
    ensures Quiescent(env, s) && Settles(env, s, s)
  {
    forall p, c | p in env.correct && c in s.sent
      ensures (p, c) in s.handled
    {
      assert (p, c) !in Pending(env, s);
    }
  }

  lemma DrainStep(env: Env, s: Sys, p: Rank, c: Cast) returns (next: Sys)
    requires WellFormed(env) && Reachable(env, s) && Domains(env, s) && (p, c) in Pending(env, s)
    ensures Reachable(env, next) && Settles(env, s, next)
    ensures Unsent(next) < Unsent(s) || (Unsent(next) == Unsent(s) && |Pending(env, next)| < |Pending(env, s)|)
  {
    var out := On(env.cfg, s.peers[p], c.src, c.code, c.body);
    OnSummary(env.cfg, s.peers[p], c.src, c.code, c.body, out);
    next := Next(env, s, Arrival(p, c));
    assert Step(env, s, Arrival(p, c), next);
    Extend(env, s, Arrival(p, c), next);
    DrainMeasure(env, s, p, c, out);
    assert VotesOf(env, s.handled, p, Ready, s.peers[p].readys) && OneShot(s.peers, s.sent) by {
      ReachableInv(env, s);
    }
    FirstTimeOneEach(env, s, p, c, out.peer.readys);
    DrainSettles(env, s, p, c, out);
  }

  /** A vote handled for the first time is not in the list yet. */
  lemma FirstTimeOneEach(env: Env, s: Sys, p: Rank, c: Cast, readys: seq<Entry>)
    requires p in s.peers && c in s.sent && c.src in env.correct && (p, c) !in s.handled
    requires VotesOf(env, s.handled, p, Ready, s.peers[p].readys)
    requires HandledWereSent(env, s.handled, s.sent) && OneShot(s.peers, s.sent)
    requires ListFollows(s.peers[p].readys, readys, env.cfg.scanFrom, c.code.Ready?, Entry(c.src, c.body))
    ensures OneEach(s.peers[p].readys) ==> OneEach(readys)
  {
    if c.code.Ready? {
      RecordedIsThis(env, s, p, c, s.peers[p].readys);
    }
  }

  lemma DrainSettles(env: Env, s: Sys, p: Rank, c: Cast, out: Outcome)
    requires s.log.Keys == s.peers.Keys == env.correct && p in env.correct && c.src in env.correct
    requires FlagsFollow(s.peers[p], out)
    requires OneEach(s.peers[p].readys) ==> OneEach(out.peer.readys)
    ensures Settles(env, s, Apply(s, p, c, out))
  {
  }

  lemma DrainMeasure(env: Env, s: Sys, p: Rank, c: Cast, out: Outcome)
    requires s.peers.Keys == env.correct == s.log.Keys && p in env.correct && (p, c) in Pending(env, s)
    requires FlagsFollow(s.peers[p], out)
    ensures var s' := Apply(s, p, c, out);
            Unsent(s') < Unsent(s) || (Unsent(s') == Unsent(s) && |Pending(env, s')| < |Pending(env, s)|)
  {
    if out.effect.Broadcast? {
      FlagSets(s.peers, p, out.peer);
    } else {
      SameFlags(s.peers, p, out.peer);
      OneHandled(env, s, p, c, out);
    }
  }

  lemma SameFlags(peers: map<Rank, Peer>, p: Rank, q: Peer)
    requires p in peers && peers[p].sentEcho == q.sentEcho && peers[p].sentReady == q.sentReady
    ensures NoEcho(peers[p := q]) == NoEcho(peers) && NoReady(peers[p := q]) == NoReady(peers)
  {
  }

  lemma OneHandled(env: Env, s: Sys, p: Rank, c: Cast, out: Outcome)
    requires p in s.log && (p, c) in Pending(env, s) && !out.effect.Broadcast?
    ensures |Pending(env, Apply(s, p, c, out))| < |Pending(env, s)|
  {
    assert Pending(env, Apply(s, p, c, out)) == Pending(env, s) - {(p, c)};
  }

  lemma FlagSets(peers: map<Rank, Peer>, p: Rank, q: Peer)
    requires p in peers && (peers[p].sentEcho ==> q.sentEcho) && (peers[p].sentReady ==> q.sentReady)
    ensures NoEcho(peers[p := q]) == NoEcho(peers) - if q.sentEcho then {p} else {}
    ensures NoReady(peers[p := q]) == NoReady(peers) - if q.sentReady then {p} else {}
    ensures !peers[p].sentEcho ==> p in NoEcho(peers)
    ensures !peers[p].sentReady ==> p in NoReady(peers)
  {
  }
}
