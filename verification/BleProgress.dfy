/**
 When a round that f + 1 correct peers complained about is left, exactly. A complaint that arrives in
 another round than its own is dropped, so one that comes early is lost for good. Round 0 is the only
 round that no complaint can come too early for.
 */
module BleProgress {
  import opened Ranks
  import opened BleSpec
  import opened BleSystem
  import opened BleTheorems

  /** Every complaint of a correct peer has been handled by every other correct peer. */
  ghost predicate Quiescent(env: Env, s: Sys) {
    forall p, c :: p in env.correct && c in s.sent && c.src != p ==> (p, c) in s.handled
  }

  /** Everything is handled, and f + 1 correct peers have complained about the round. */
  ghost predicate Due(env: Env, s: Sys, r: nat) {
    Reachable(env, s) && Quiescent(env, s) && |Complainers(env, s.sent, r)| > env.cfg.maxFaulty
  }

  /** A round due to be left has been left by every correct peer. */
  ghost predicate Succeeds(env: Env, r: nat) {
    forall s, p :: Due(env, s, r) && p in env.correct && p in s.peers ==> s.peers[p].round > r
  }

  /**
   In a group the initialiser accepts, with at most f faulty peers: round 0 is left if and only if at
   least 2f + 2 peers are correct, and a later round only in the group of one, which never gets there.
   */
  lemma SuccessionExact(env: Env, r: nat)
    requires WellFormed(env) && env.cfg.maxRank > 3 * env.cfg.maxFaulty && Faulty(env) <= env.cfg.maxFaulty
    ensures Succeeds(env, r) <==> if r == 0 then |env.correct| >= 2 * env.cfg.maxFaulty + 2 else env.cfg.maxRank == 1
  {
    if r == 0 {
      if |env.correct| >= 2 * env.cfg.maxFaulty + 2 {
        FirstRoundLeft(env);
      } else {
        FirstRoundStays(env);
      }
    } else if env.cfg.maxRank == 1 {
      AloneSucceeds(env, r);
    } else {
      LaterRoundStays(env, r);
    }
  }

  // ---------------------------------------------------------------- round 0

  /** Thresholds have been acted on, rounds left were complained about, and in round 0 nothing is lost. */
  ghost predicate Heeds(env: Env, self: Rank, p: Peer, sent: set<Complaint>, handled: set<(Rank, Complaint)>) {
    && (|p.complains| > env.cfg.maxFaulty ==> p.complained)
    && (forall r: nat :: r < p.round ==> Complaint(self, r) in sent)
    && (p.round == 0 ==> forall c :: (self, c) in handled && c.round == 0 ==> c.src in p.complains)
  }

  ghost predicate AllHeed(env: Env, s: Sys) {
    forall p :: p in s.peers ==> Heeds(env, p, s.peers[p], s.sent, s.handled)
  }

  lemma HeedsComplaint(env: Env, self: Rank, p: Peer, sent: set<Complaint>, handled: set<(Rank, Complaint)>,
                       src: Rank, round: int)
    requires Heeds(env, self, p, sent, handled) && (p.complained ==> Complaint(self, p.round) in sent)
    ensures var out := OnComplaint(env.cfg, p, src, round);
            Heeds(env, self, out.peer, if out.sends then sent + {Complaint(self, p.round)} else sent,
                  if round >= 0 then handled + {(self, Complaint(src, round))} else handled)
  {
    var out := OnComplaint(env.cfg, p, src, round);
    if out.peer.round == 0 {
      forall c | (self, c) in handled + {(self, Complaint(src, if round >= 0 then round else 0))} && c.round == 0
                 && (c.src != src || round == 0 || (self, c) in handled)
        ensures c.src in out.peer.complains
      {
      }
    }
  }

  lemma HeedsKept(env: Env, self: Rank, p: Peer, sent: set<Complaint>, sent': set<Complaint>,
                  handled: set<(Rank, Complaint)>, handled': set<(Rank, Complaint)>)
    requires Heeds(env, self, p, sent, handled) && sent <= sent'
    requires forall c :: (self, c) in handled' ==> (self, c) in handled
    ensures Heeds(env, self, p, sent', handled')
  {
  }

  lemma HeedStep(env: Env, s: Sys, e: Event, s': Sys)
    requires Step(env, s, e, s') && AllHeed(env, s) && Peers(env, s)
    ensures AllHeed(env, s')
  {
    forall p | p in s'.peers
      ensures Heeds(env, p, s'.peers[p], s'.sent, s'.handled)
    {
      if p != e.peer {
        HeedsKept(env, p, s.peers[p], s.sent, s'.sent, s.handled, s'.handled);
      } else if e.Arrival? {
        assert PeerInv(env, p, s.peers[p], s.sent);
        HeedsComplaint(env, p, s.peers[p], s.sent, s.handled, e.src, e.round);
      }
    }
  }

  lemma {:induction false} RunHeeds(env: Env, es: seq<Event>, s: Sys)
    requires WellFormed(env) && Run(env, es, s)
    ensures AllHeed(env, s)
  {
    if |es| > 0 {
      var init, last := es[..|es| - 1], es[|es| - 1];
      var prev :| Run(env, init, prev) && Step(env, prev, last, s);
      RunHeeds(env, init, prev);
      InvRun(env, init, prev);
      HeedStep(env, prev, last, s);
    }
  }

  lemma Facts(env: Env, s: Sys)
    requires WellFormed(env) && Reachable(env, s)
    ensures AllHeed(env, s) && Peers(env, s) && Domains(env, s)
  {
    var es :| Run(env, es, s);
    RunHeeds(env, es, s);
    InvRun(env, es, s);
  }

  /** A peer still in round 0 has recorded all other correct complainers. */
  lemma RecordsAll(env: Env, s: Sys, p: Rank)
    requires AllHeed(env, s) && Quiescent(env, s) && p in env.correct && p in s.peers && s.peers[p].round == 0
    ensures |Complainers(env, s.sent, 0) - {p}| <= |Elements(s.peers[p].complains)| <= |s.peers[p].complains|
  {
    var complains := s.peers[p].complains;
    forall q | q in Complainers(env, s.sent, 0) - {p}
      ensures q in Elements(complains)
    {
      assert (p, Complaint(q, 0)) in s.handled;
      var i :| 0 <= i < |complains| && complains[i] == q;
    }
    SubsetSize(Complainers(env, s.sent, 0) - {p}, Elements(complains));
    ElementsAtMost(complains);
  }

  lemma {:induction false} ElementsAtMost(s: seq<Rank>)
    ensures |Elements(s)| <= |s|
  {
    if |s| > 0 {
      var init, last := s[..|s| - 1], s[|s| - 1];
      ElementsAtMost(init);
      assert Elements(s) == Elements(init) + {last};
    } else {
      assert Elements(s) == {};
    }
  }

  /** First everybody has complained about round 0, by itself or by amplification. */
  lemma AllComplained(env: Env, s: Sys, q: Rank)
    requires WellFormed(env) && Reachable(env, s) && Quiescent(env, s) && q in env.correct
    requires |Complainers(env, s.sent, 0)| > env.cfg.maxFaulty
    ensures Complaint(q, 0) in s.sent
  {
    Facts(env, s);
    assert Heeds(env, q, s.peers[q], s.sent, s.handled) && PeerInv(env, q, s.peers[q], s.sent);
    if s.peers[q].round == 0 && Complaint(q, 0) !in s.sent {
      RecordsOthers(env, s, q);
      assert false;
    }
  }

  lemma RecordsOthers(env: Env, s: Sys, q: Rank)
    requires AllHeed(env, s) && Quiescent(env, s) && q in env.correct && q in s.peers && s.peers[q].round == 0
    ensures |s.peers[q].complains| >= |Complainers(env, s.sent, 0)| - 1
    ensures Complaint(q, 0) !in s.sent ==> |s.peers[q].complains| >= |Complainers(env, s.sent, 0)|
  {
    var complainers := Complainers(env, s.sent, 0);
    RecordsAll(env, s, q);
    if q in complainers {
      assert |complainers - {q}| == |complainers| - 1;
    } else {
      assert complainers - {q} == complainers;
    }
  }

  /** Then whoever hears 2f + 1 of the others has moved on. */
  lemma FirstRoundLeft(env: Env)
    requires WellFormed(env) && |env.correct| >= 2 * env.cfg.maxFaulty + 2
    ensures Succeeds(env, 0)
  {
    forall s, p | Due(env, s, 0) && p in env.correct && p in s.peers
      ensures s.peers[p].round > 0
    {
      EverybodyLeaves(env, s, p);
    }
  }

  lemma EverybodyLeaves(env: Env, s: Sys, p: Rank)
    requires WellFormed(env) && |env.correct| >= 2 * env.cfg.maxFaulty + 2
    requires Due(env, s, 0) && p in env.correct && p in s.peers
    ensures s.peers[p].round > 0
  {
    forall q | q in env.correct
      ensures Complaint(q, 0) in s.sent
    {
      AllComplained(env, s, q);
    }
    assert Complainers(env, s.sent, 0) == env.correct;
    Facts(env, s);
    assert PeerInv(env, p, s.peers[p], s.sent);
    if s.peers[p].round == 0 {
      RecordsOthers(env, s, p);
      assert false;
    }
  }

  // ---------------------------------------------------------------- quiescence is reached

  ghost function Pending(env: Env, s: Sys): set<(Rank, Complaint)> {
    (set p, c | p in env.correct && c in s.sent && c.src != p :: (p, c)) - s.handled
  }

  /** The complaints about rounds under discussion that have not been made. */
  ghost function Unsaid(env: Env, sent: set<Complaint>): set<Complaint> {
    (set q, c | q in env.correct && c in sent :: Complaint(q, c.round)) - sent
  }

  /** A peer that has handled what all others say about its round learns nothing more. */
  ghost predicate Deaf(env: Env, s: Sys, p: Rank) {
    p in s.peers && forall q :: q in env.correct && q != p ==> (p, Complaint(q, s.peers[p].round)) in s.handled
  }

  /** More has been said and handled since, and deaf peers are as they were. */
  ghost predicate Moved(env: Env, s: Sys, s': Sys) {
    && s.sent <= s'.sent && s.handled <= s'.handled
    && (forall p :: Deaf(env, s, p) ==> p in s'.peers && s'.peers[p] == s.peers[p])
  }

  ghost predicate Smaller(env: Env, s': Sys, s: Sys) {
    || |Unsaid(env, s'.sent)| < |Unsaid(env, s.sent)|
    || (s'.sent == s.sent && |Pending(env, s')| < |Pending(env, s)|)
  }

  lemma DrainStep(env: Env, s: Sys, p: Rank, c: Complaint) returns (s': Sys)
    requires WellFormed(env) && Domains(env, s) && (p, c) in Pending(env, s)
    ensures c.src in env.correct && c.src != p
    ensures Step(env, s, Arrival(p, c.src, c.round), s') && Moved(env, s, s') && Smaller(env, s', s)
  {
    MayArrive(env, s, p, c);
    s' := Next(env, s, Arrival(p, c.src, c.round));
    ArrivalEffects(env, s, p, c, s');
    DrainMeasure(env, s, p, c, s');
  }

  lemma MayArrive(env: Env, s: Sys, p: Rank, c: Complaint)
    requires WellFormed(env) && Domains(env, s) && (p, c) in Pending(env, s)
    ensures env.cfg.maxRank > 0 && p in s.peers && p in s.trusts && c.src in env.correct && c.src != p
    ensures Enabled(env, s, Arrival(p, c.src, c.round))
  {
    assert p in All(env.cfg.maxRank);
    assert Complaint(c.src, c.round) == c;
  }

  lemma RunSnoc(env: Env, es: seq<Event>, s: Sys, e: Event, s': Sys)
    requires Run(env, es, s) && Step(env, s, e, s')
    ensures Run(env, es + [e], s')
  {
    var longer := es + [e];
    assert longer[..|longer| - 1] == es && longer[|longer| - 1] == e;
  }

  lemma ArrivalEffects(env: Env, s: Sys, p: Rank, c: Complaint, s': Sys)
    requires env.cfg.maxRank > 0 && p in s.peers && p in s.trusts && c.src in env.correct && c.src != p
    requires (p, c) !in s.handled && s' == Next(env, s, Arrival(p, c.src, c.round))
    ensures s'.handled == s.handled + {(p, c)}
    ensures s'.sent == s.sent || s'.sent == s.sent + {Complaint(p, c.round)}
    ensures forall q :: Deaf(env, s, q) ==> q in s'.peers && s'.peers[q] == s.peers[q]
  {
    assert c == Complaint(c.src, c.round);
    if c.round == s.peers[p].round {
      assert (p, Complaint(c.src, s.peers[p].round)) !in s.handled;
    }
  }

  lemma DrainMeasure(env: Env, s: Sys, p: Rank, c: Complaint, s': Sys)
    requires (p, c) in Pending(env, s) && s'.handled == s.handled + {(p, c)}
    requires s'.sent == s.sent || s'.sent == s.sent + {Complaint(p, c.round)}
    ensures Smaller(env, s', s)
  {
    if s'.sent == s.sent {
      assert Pending(env, s') == Pending(env, s) - {(p, c)};
    } else {
      assert Unsaid(env, s'.sent) == Unsaid(env, s.sent) - {Complaint(p, c.round)};
      assert Complaint(p, c.round) in Unsaid(env, s.sent);
    }
  }

  /** Handling what is pending comes to an end: new complaints are about rounds already complained about. */
  lemma {:induction false} Drain(env: Env, es: seq<Event>, s: Sys) returns (es': seq<Event>, s': Sys)
    requires WellFormed(env) && Run(env, es, s)
    ensures Run(env, es', s') && Moved(env, s, s') && Quiescent(env, s') && (Silent(env, es) ==> Silent(env, es'))
    decreases |Unsaid(env, s.sent)|, |Pending(env, s)|
  {
    assert Domains(env, s) by {
      InvRun(env, es, s);
    }
    if Pending(env, s) == {} {
      NothingPending(env, s);
      es', s' := es, s;
    } else {
      var pc :| pc in Pending(env, s);
      var next := DrainStep(env, s, pc.0, pc.1);
      var e := Arrival(pc.0, pc.1.src, pc.1.round);
      RunSnoc(env, es, s, e, next);
      SilentSnoc(env, es, e);
      es', s' := Drain(env, es + [e], next);
      MovedTrans(env, s, next, s');
    }
  }

  lemma SilentSnoc(env: Env, es: seq<Event>, e: Event)
    requires e.Arrival? && e.src in env.correct && e.src != e.peer
    ensures Silent(env, es) ==> Silent(env, es + [e])
  {
  }

  lemma NothingPending(env: Env, s: Sys)
    requires Pending(env, s) == {}
    ensures Quiescent(env, s)
  {
    forall p, c | p in env.correct && c in s.sent && c.src != p
      ensures (p, c) in s.handled
    {
      assert (p, c) !in Pending(env, s);
    }
  }

  lemma MovedTrans(env: Env, s1: Sys, s2: Sys, s3: Sys)
    requires Moved(env, s1, s2) && Moved(env, s2, s3)
    ensures Moved(env, s1, s3)
  {
    forall p | Deaf(env, s1, p)
      ensures p in s3.peers && s3.peers[p] == s1.peers[p]
    {
      assert Deaf(env, s2, p);
    }
  }

  // ---------------------------------------------------------------- round 0 with too few correct peers

  /** All clients complain, everything is handled, and nobody has moved. */
  lemma FirstRoundStays(env: Env)
    requires WellFormed(env) && env.cfg.maxFaulty < |env.correct| <= 2 * env.cfg.maxFaulty + 1
    ensures !Succeeds(env, 0)
  {
    SubsetSize(env.correct, All(env.cfg.maxRank));
    var es, s := AllComplain(env, env.correct);
    var es', s' := Drain(env, es, s);
    SilentRunsStuck(env, es', s');
    assert Complainers(env, s'.sent, 0) == env.correct;
    var p :| p in env.correct;
    assert p in s'.peers by {
      InvRun(env, es', s');
    }
    assert Reachable(env, s');
  }

  lemma AloneSucceeds(env: Env, r: nat)
    requires WellFormed(env) && env.cfg.maxRank == 1 && env.cfg.maxFaulty == 0 && r > 0 && Faulty(env) <= 0
    ensures Succeeds(env, r)
  {
    forall s | Reachable(env, s)
      ensures Complainers(env, s.sent, r) == {}
    {
      AloneStays(env, s, r);
    }
  }

  lemma AloneStays(env: Env, s: Sys, r: nat)
    requires WellFormed(env) && env.cfg.maxRank == 1 && env.cfg.maxFaulty == 0 && r > 0 && Faulty(env) <= 0
    requires Reachable(env, s)
    ensures Complainers(env, s.sent, r) == {}
  {
    SubsetSize(env.correct, All(env.cfg.maxRank));
    var es :| Run(env, es, s);
    AloneIsSilent(env, es, s);
    SilentRunsStuck(env, es, s);
    InvRun(env, es, s);
  }

  lemma {:induction false} AloneIsSilent(env: Env, es: seq<Event>, s: Sys)
    requires WellFormed(env) && env.cfg.maxRank == 1 && |env.correct| == 1 && Run(env, es, s)
    ensures Silent(env, es)
  {
    if |es| > 0 {
      var init, last := es[..|es| - 1], es[|es| - 1];
      var prev :| Run(env, init, prev) && Step(env, prev, last, s);
      AloneIsSilent(env, init, prev);
      assert es == init + [last];
    }
  }

  // ---------------------------------------------------------------- later rounds

  ghost predicate Ready(env: Env, s: Sys) {
    env.cfg.maxRank > 0 && Reachable(env, s) && s.peers.Keys == s.trusts.Keys == env.correct
  }

  lemma Extend(env: Env, s: Sys, e: Event) returns (s': Sys)
    requires Ready(env, s) && e.peer in env.correct && Enabled(env, s, e)
    ensures Ready(env, s') && s' == Next(env, s, e)
  {
    s' := Next(env, s, e);
    var es :| Run(env, es, s);
    RunSnoc(env, es, s, e, s');
  }

  /** The clients of the given peers, all in round k, complain. */
  ghost predicate ClientsCalled(env: Env, s: Sys, callers: set<Rank>, k: nat, s': Sys) {
    && Ready(env, s') && s'.handled == s.handled && s.sent <= s'.sent
    && (forall q :: q in callers ==> Complaint(q, k) in s'.sent)
    && s'.peers.Keys == s.peers.Keys
    && forall p :: p in s.peers ==>
         s'.peers[p] == if p in callers then s.peers[p].(complained := true) else s.peers[p]
  }

  lemma {:induction false} CallClients(env: Env, s: Sys, callers: set<Rank>, k: nat) returns (s': Sys)
    requires Ready(env, s) && callers <= env.correct && forall q :: q in callers ==> s.peers[q].round == k
    ensures ClientsCalled(env, s, callers, k, s')
    decreases |callers|
  {
    if callers == {} {
      s' := s;
    } else {
      var q :| q in callers;
      var mid := CallClients(env, s, callers - {q}, k);
      s' := Extend(env, mid, Complain(q));
      OneMoreCalled(env, s, callers, q, k, mid, s');
    }
  }

  lemma OneMoreCalled(env: Env, s: Sys, callers: set<Rank>, q: Rank, k: nat, mid: Sys, s': Sys)
    requires q in callers && q in s.peers && s.peers[q].round == k && ClientsCalled(env, s, callers - {q}, k, mid)
    requires Ready(env, s') && s' == Next(env, mid, Complain(q))
    ensures ClientsCalled(env, s, callers, k, s')
  {
    assert forall r :: r in callers ==> r == q || r in callers - {q};
  }

  /** The ranks up to n but p. */
  function OthersOf(n: nat, p: Rank): (r: seq<Rank>)
    ensures NoDuplicates(r) && forall q :: q in r <==> 1 <= q <= n && q != p
    ensures |r| == if 1 <= p <= n then n - 1 else n
  {
    if n == 0 then []
    else
      var init := OthersOf(n - 1, p);
      assert n !in init;
      if n == p then init else init + [n]
  }

  /** Only p has heard something; what it has become is stated separately. */
  ghost predicate OnlyHears(env: Env, s: Sys, p: Rank, s': Sys) {
    && Ready(env, s') && s'.sent == s.sent && s.handled <= s'.handled
    && s'.peers.Keys == s.peers.Keys && forall q :: q in s.peers && q != p ==> s'.peers[q] == s.peers[q]
  }

  /** p, which has complained itself, hears the rest of 2f + 1 others about its round, and leaves it. */
  lemma {:induction false} HearRest(env: Env, s: Sys, p: Rank, k: nat, sources: seq<Rank>, i: nat) returns (s': Sys)
    requires Ready(env, s) && p in env.correct && i < |sources| == 2 * env.cfg.maxFaulty + 1 && NoDuplicates(sources)
    requires forall q :: q in sources ==> q in All(env.cfg.maxRank) && q != p
    requires forall q :: q in sources && q in env.correct ==> Complaint(q, k) in s.sent
    requires s.peers[p] == Peer(k, true, sources[..i])
    ensures OnlyHears(env, s, p, s') && s'.peers[p] == Peer(k + 1, false, [])
    decreases |sources| - i
  {
    var next := Extend(env, s, Arrival(p, sources[i], k));
    HearOne(env.cfg, k, sources, i);
    if i + 1 == |sources| {
      s' := next;
    } else {
      s' := HearRest(env, next, p, k, sources, i + 1);
    }
  }

  lemma HearOne(cfg: Config, k: nat, sources: seq<Rank>, i: nat)
    requires i < |sources| == 2 * cfg.maxFaulty + 1 && NoDuplicates(sources)
    ensures var out := OnComplaint(cfg, Peer(k, true, sources[..i]), sources[i], k);
            && !out.sends
            && out.peer == if i + 1 == |sources| then Peer(k + 1, false, []) else Peer(k, true, sources[..i + 1])
  {
    assert sources[..i + 1] == sources[..i] + [sources[i]];
  }

  /** The given peers leave round k. */
  lemma {:induction false} Leave(env: Env, s: Sys, leavers: set<Rank>, k: nat) returns (s': Sys)
    requires Ready(env, s) && leavers <= env.correct && env.cfg.maxRank >= 2 * env.cfg.maxFaulty + 2
    requires forall q :: q in env.correct ==> Complaint(q, k) in s.sent
    requires forall q :: q in leavers ==> s.peers[q] == Peer(k, true, [])
    ensures Ready(env, s') && s'.sent == s.sent && s.handled <= s'.handled
    ensures forall p :: p in env.correct ==>
              s'.peers[p] == if p in leavers then Peer(k + 1, false, []) else s.peers[p]
    decreases |leavers|
  {
    if leavers == {} {
      s' := s;
    } else {
      var q :| q in leavers;
      var mid := Leave(env, s, leavers - {q}, k);
      s' := LeaveOne(env, mid, q, k);
    }
  }

  lemma LeaveOne(env: Env, s: Sys, p: Rank, k: nat) returns (s': Sys)
    requires Ready(env, s) && p in env.correct && env.cfg.maxRank >= 2 * env.cfg.maxFaulty + 2
    requires forall q :: q in env.correct ==> Complaint(q, k) in s.sent
    requires s.peers[p] == Peer(k, true, [])
    ensures OnlyHears(env, s, p, s') && s'.peers[p] == Peer(k + 1, false, [])
  {
    var others := OthersOf(env.cfg.maxRank, p);
    var sources := others[..2 * env.cfg.maxFaulty + 1];
    assert forall q :: q in sources ==> q in others;
    s' := HearRest(env, s, p, k, sources, 0);
  }

  /** All correct peers have just entered round k. */
  ghost predicate AllAt(env: Env, s: Sys, k: nat) {
    Ready(env, s) && forall p :: p in env.correct ==> s.peers[p] == Peer(k, false, [])
  }

  lemma {:induction false} Reach(env: Env, k: nat) returns (s: Sys)
    requires WellFormed(env) && env.cfg.maxRank >= 2 * env.cfg.maxFaulty + 2
    ensures AllAt(env, s, k)
  {
    if k == 0 {
      s := Init(env);
      assert Run(env, [], s);
    } else {
      var before := Reach(env, k - 1);
      var called := CallClients(env, before, env.correct, k - 1);
      s := Leave(env, called, env.correct, k - 1);
    }
  }

  /** p, in another round, drops what the given peers say about round k. */
  lemma {:induction false} Drop(env: Env, s: Sys, p: Rank, k: nat, sources: set<Rank>) returns (s': Sys)
    requires WellFormed(env) && Ready(env, s) && p in env.correct && s.peers[p].round != k
    requires sources <= env.correct - {p}
    requires forall q :: q in sources ==> Complaint(q, k) in s.sent
    ensures Ready(env, s') && s'.sent == s.sent && s'.peers == s.peers && s.handled <= s'.handled
    ensures forall q :: q in sources ==> (p, Complaint(q, k)) in s'.handled
    decreases |sources|
  {
    if sources == {} {
      s' := s;
    } else {
      var q :| q in sources;
      var mid := Drop(env, s, p, k, sources - {q});
      s' := DropOne(env, mid, p, k, q);
      assert forall r :: r in sources ==> r == q || r in sources - {q};
    }
  }

  lemma DropOne(env: Env, s: Sys, p: Rank, k: nat, q: Rank) returns (s': Sys)
    requires Ready(env, s) && p in env.correct && s.peers[p].round != k && q in All(env.cfg.maxRank) && q != p
    requires Complaint(q, k) in s.sent
    ensures Ready(env, s') && s'.sent == s.sent && s'.peers == s.peers
    ensures s'.handled == s.handled + {(p, Complaint(q, k))}
  {
    s' := Extend(env, s, Arrival(p, q, k));
    assert s.peers[p := s.peers[p]] == s.peers;
  }

  /**
   Everybody reaches round r - 1. All but p go on to round r and complain about it. That reaches p too
   early; p follows into round r, and nothing is left to take it further.
   */
  lemma LeftBehind(env: Env, r: nat, p: Rank) returns (s: Sys)
    requires WellFormed(env) && env.cfg.maxRank >= 2 * env.cfg.maxFaulty + 2 && r > 0 && p in env.correct
    ensures Ready(env, s) && s.peers[p] == Peer(r, false, []) && Deaf(env, s, p)
    ensures env.correct - {p} <= Complainers(env, s.sent, r)
  {
    var ahead := OthersAhead(env, r, p);
    var deaf := Drop(env, ahead, p, r, env.correct - {p});
    s := LeaveOne(env, deaf, p, r - 1);
    NowDeaf(env, deaf, s, r, p);
  }

  lemma NowDeaf(env: Env, before: Sys, s: Sys, r: nat, p: Rank)
    requires p in s.peers && s.peers[p].round == r && before.handled <= s.handled
    requires forall q :: q in env.correct - {p} ==> (p, Complaint(q, r)) in before.handled
    ensures Deaf(env, s, p)
  {
    forall q | q in env.correct && q != p
      ensures (p, Complaint(q, r)) in s.handled
    {
      assert q in env.correct - {p};
    }
  }

  lemma OthersAhead(env: Env, r: nat, p: Rank) returns (s: Sys)
    requires WellFormed(env) && env.cfg.maxRank >= 2 * env.cfg.maxFaulty + 2 && r > 0 && p in env.correct
    ensures Ready(env, s) && s.peers[p] == Peer(r - 1, true, [])
    ensures forall q :: q in env.correct ==> Complaint(q, r - 1) in s.sent
    ensures forall q :: q in env.correct - {p} ==> Complaint(q, r) in s.sent
  {
    var others := env.correct - {p};
    var called := AllCalled(env, r - 1);
    var ahead := Leave(env, called, others, r - 1);
    s := CallClients(env, ahead, others, r);
  }

  lemma AllCalled(env: Env, k: nat) returns (s: Sys)
    requires WellFormed(env) && env.cfg.maxRank >= 2 * env.cfg.maxFaulty + 2
    ensures Ready(env, s)
    ensures forall q :: q in env.correct ==> Complaint(q, k) in s.sent && s.peers[q] == Peer(k, true, [])
  {
    var before := Reach(env, k);
    s := CallClients(env, before, env.correct, k);
  }

  lemma LaterRoundStays(env: Env, r: nat)
    requires WellFormed(env) && env.cfg.maxRank >= 2 * env.cfg.maxFaulty + 2 && r > 0
    requires |env.correct| >= env.cfg.maxFaulty + 2
    ensures !Succeeds(env, r)
  {
    var p :| p in env.correct;
    var s := LeftBehind(env, r, p);
    var es :| Run(env, es, s);
    var es', s' := Drain(env, es, s);
    SubsetSize(env.correct - {p}, Complainers(env, s'.sent, r));
    assert |env.correct - {p}| == |env.correct| - 1;
    assert Reachable(env, s') && Due(env, s', r);
  }
}
