/**
 Which group sizes Byzantine reliable broadcast serves. For the intended rule of one entry per sender
 the answer is here; the runs that show a bound to be needed work for both starts of the duplicate
 scans, and `BrbLiteralScan` uses them for the scans as the program has them.
 */
module BrbBounds {
  import opened Ranks
  import opened Messages
  import opened BrbSpec
  import opened BrbSystem
  import opened BrbTheorems
  import opened BrbScript

  /** A group of n with bound f, of which b peers are faulty. */
  ghost predicate Group(env: Env, scanFrom: nat, n: nat, f: nat, b: nat) {
    && WellFormed(env) && Faulty(env) == b
    && env.cfg.maxRank == n && env.cfg.maxFaulty == f && env.cfg.scanFrom == scanFrom
  }

  /**
   With one entry per sender and at most f faulty peers, a group of any size is consistent and
   honest, and one of more than 3f peers is total and valid.
   */
  lemma IntendedRule(env: Env)
    requires WellFormed(env) && env.cfg.scanFrom == 0 && Faulty(env) <= env.cfg.maxFaulty
    ensures Consistent(env) && Honest(env)
    ensures env.cfg.maxRank > 3 * env.cfg.maxFaulty ==> Total(env) && Valid(env)
  {
    OneEntryPerSenderIsSafe(env);
    SafeIsConsistent(env);
    OutvotedIsHonest(env);
    if env.cfg.maxRank > 3 * env.cfg.maxFaulty {
      SafeIsTotal(env);
      OutvotedIsValid(env);
    }
  }

  /**
   With b <= f faulty peers, all groups of the shape are valid if and only if n > 2f + b; in
   particular n > 3f is exactly what f faulty peers require. (If all are faulty there is nothing to ask.)
   */
  lemma ValidityBoundExact(n: nat, f: nat, b: nat)
    requires b <= f && b < n
    ensures (forall env :: Group(env, 0, n, f, b) ==> Valid(env)) <==> n > 2 * f + b
  {
    if n > 2 * f + b {
      forall env | Group(env, 0, n, f, b)
        ensures Valid(env)
      {
        OutvotedIsValid(env);
      }
    } else {
      var sc := Script(Config(n, f, b + 1, 0), b, n);
      CorrectSize(sc);
      assert Group(EnvOf(sc), 0, n, f, b);
      NotValid(sc);
    }
  }

  /**
   With b <= f faulty peers, all groups of the shape are total if and only if n > 2f + b, or the
   group is so small that nobody ever delivers.
   */
  lemma TotalityBoundExact(n: nat, f: nat, b: nat)
    requires b <= f
    ensures (forall env :: Group(env, 0, n, f, b) ==> Total(env)) <==> (n <= 2 * f || n > 2 * f + b)
  {
    if n <= 2 * f || n > 2 * f + b {
      forall env | Group(env, 0, n, f, b)
        ensures Total(env)
      {
        if n > 2 * f {
          OneEntryPerSenderIsSafe(env);
          SafeIsTotal(env);
        } else {
          SmallIsTotal(env);
        }
      }
    } else {
      var sc := Script(Config(n, f, 1, 0), b, n);
      CorrectSize(sc);
      assert Group(EnvOf(sc), 0, n, f, b);
      NotTotal(sc);
    }
  }

  // ---------------------------------------------------------------- who cannot deliver

  /** A peer that handled no READY of a faulty peer, and none twice, counts the correct ones at most. */
  lemma FewVotes(env: Env, s: Sys, p: Rank, m: Body)
    requires WellFormed(env) && Reachable(env, s) && p in env.correct && p in s.peers && OneEach(s.peers[p].readys)
    requires forall c :: (p, c) in s.handled && c.code.Ready? ==> c.src in env.correct
    ensures Count(s.peers[p].readys, m) <= |env.correct|
  {
    PeerFacts(env, s, p);
    var list := s.peers[p].readys;
    forall i | 0 <= i < |list|
      ensures list[i].rank in env.correct
    {
      assert (p, Cast(list[i].rank, Ready, list[i].body)) in s.handled;
    }
    CountIsVoters(list, m);
    SubsetSize(Voters(list, m), env.correct);
  }

  lemma CannotDeliver(env: Env, s: Sys, p: Rank)
    requires WellFormed(env) && Reachable(env, s) && p in env.correct && |env.correct| <= 2 * env.cfg.maxFaulty
    requires p in s.peers && OneEach(s.peers[p].readys)
    requires forall c :: (p, c) in s.handled && c.code.Ready? ==> c.src in env.correct
    ensures p in s.log && s.log[p] == []
  {
    PeerFacts(env, s, p);
    if s.log[p] != [] {
      var m := s.log[p][0];
      assert m in s.log[p];
      FewVotes(env, s, p, m);
    }
  }

  /** Without 2f + 1 votes in the whole group, the doubled one included, nobody ever delivers. */
  lemma NobodyDelivers(env: Env, s: Sys, p: Rank)
    requires WellFormed(env) && Reachable(env, s) && env.cfg.maxRank + Doubled(env) <= 2 * env.cfg.maxFaulty
    ensures s.log.Keys == env.correct
    ensures p in s.log ==> s.log[p] == []
  {
    ReachableInv(env, s);
    if p in s.log && s.log[p] != [] {
      PeerFacts(env, s, p);
      var m := s.log[p][0];
      assert m in s.log[p];
      VotesBounded(env, s.handled, s.sent, p, Ready, s.peers[p].readys, m);
      SubsetSize(Senders(env, s.sent, Ready, m), env.correct);
    }
  }

  lemma SmallIsTotal(env: Env)
    requires WellFormed(env) && env.cfg.maxRank + Doubled(env) <= 2 * env.cfg.maxFaulty
    ensures Total(env)
  {
    forall s, p, m | Reachable(env, s) && p in s.log
      ensures m !in s.log[p]
    {
      NobodyDelivers(env, s, p);
    }
  }

  /** If the faulty peers stay silent, at most 2f correct peers cannot make each other deliver. */
  lemma NotValid(sc: Script)
    requires sc.cfg.scanFrom <= 1 && sc.b < sc.cfg.maxRank <= 2 * sc.cfg.maxFaulty + sc.b
    requires sc.cfg.senderRank == sc.b + 1
    ensures !Valid(EnvOf(sc))
  {
    var env := EnvOf(sc);
    CorrectSize(sc);
    var init := Begin(sc);
    var asked := Ask(sc, init, "first");
    assert asked.peers[sc.b + 1].readys == [];
    SilenceFails(env, asked, sc.b + 1, "first");
  }

  /** Draining from a state in which nothing was handled delivers nothing. */
  lemma SilenceFails(env: Env, asked: Sys, p: Rank, m: Body)
    requires WellFormed(env) && Reachable(env, asked) && asked.handled == {} && p in env.correct
    requires |env.correct| <= 2 * env.cfg.maxFaulty && p in asked.peers && asked.peers[p].readys == []
    requires env.cfg.senderRank in env.correct && SentExactly(env, asked.sent, m)
    ensures !Valid(env)
  {
    var s := Drain(env, asked);
    CannotDeliver(env, s, p);
    SettledSends(env, asked, s, m);
    Refutes(env, s, m, p);
  }

  lemma SettledSends(env: Env, before: Sys, s: Sys, m: Body)
    requires Settles(env, before, s) && SentExactly(env, before.sent, m)
    ensures SentExactly(env, s.sent, m)
  {
  }

  lemma Refutes(env: Env, s: Sys, m: Body, p: Rank)
    requires Owed(env, s, m) && p in env.correct && p in s.log && s.log[p] != [m]
    ensures !Valid(env)
  {
  }

  lemma EverybodyCastable(sc: Script, sent: set<Cast>, p: Rank, code: Code, voters: seq<Rank>)
    requires sc.split == sc.cfg.maxRank && p <= sc.cfg.maxRank && AllVoted(sc, sent, code)
    requires forall i :: 0 <= i < |voters| ==> 1 <= voters[i] <= sc.cfg.maxRank
    requires forall i, j :: 0 <= i < j < |voters| && voters[i] == voters[j] ==> i < sc.cfg.scanFrom && voters[i] <= sc.b
    ensures Castable(sc, sent, p, code, voters)
  {
    forall i | 0 <= i < |voters| && voters[i] > sc.b
      ensures Cast(voters[i], code, BodyFor(sc, p)) in sent
    {
      assert BodyFor(sc, voters[i]) == BodyFor(sc, p);
    }
  }

  /** Everybody hears everybody's ECHO and sends READY. */
  lemma EverybodyReady(sc: Script) returns (s: Sys)
    requires Sendable(sc) && sc.split == sc.cfg.maxRank && sc.cfg.maxRank > sc.cfg.maxFaulty
    ensures Underway(sc, s) && AllVoted(sc, s.sent, Ready)
    ensures forall p :: p in s.peers ==> s.peers[p].readys == []
    ensures forall p, c :: (p, c) in s.handled ==> !c.code.Ready?
  {
    var n := sc.cfg.maxRank;
    var voting: Rank -> seq<Rank> := p => Span(1, n);
    forall p: Rank, sent | sc.b < p <= n && AllVoted(sc, sent, Echo)
      ensures Castable(sc, sent, p, Echo, voting(p))
    {
      EverybodyCastable(sc, sent, p, Echo, Span(1, n));
    }
    s := AllReady(sc, voting);
  }

  /** Too few correct peers for everybody to deliver, but enough votes for one. */
  ghost predicate Lopsided(sc: Script) {
    var n, f, b := sc.cfg.maxRank, sc.cfg.maxFaulty, sc.b;
    && sc.cfg.scanFrom <= 1 && sc.cfg.senderRank == 1 && sc.split == n
    && 1 <= b <= f && b + 2 <= n && 2 * f < n + sc.cfg.scanFrom && n <= 2 * f + b
  }

  /** All ranks, the first one twice where that counts twice. */
  function Everybody(sc: Script): seq<Rank> {
    (if sc.cfg.scanFrom == 1 then [1] else []) + Span(1, sc.cfg.maxRank)
  }

  /** The faulty peers' READYs are shown to the last rank alone, which delivers. */
  lemma DeliversAlone(sc: Script) returns (s: Sys)
    requires Lopsided(sc)
    ensures Underway(sc, s)
    ensures sc.cfg.maxRank in s.log && s.log[sc.cfg.maxRank] == ["first"]
    ensures forall p, c :: (p, c) in s.handled && p != sc.cfg.maxRank ==> !c.code.Ready?
    ensures forall p :: p in s.peers && p != sc.cfg.maxRank ==> s.peers[p].readys == []
  {
    var n, voters := sc.cfg.maxRank, Everybody(sc);
    var ready := EverybodyReady(sc);
    EverybodyCastable(sc, ready.sent, n, Ready, voters);
    assert ready.peers[n].readys == [] == Entries(voters[..0], "first");
    s := ShowVotes(sc, ready, n, Ready, voters, 0);
    HasDelivered(sc, s, n, voters);
  }

  /** In the end the others, which never count more than 2f READYs, still have not delivered. */
  lemma NotTotal(sc: Script)
    requires Lopsided(sc)
    ensures !Total(EnvOf(sc))
  {
    var env, n: Rank, q: Rank := EnvOf(sc), sc.cfg.maxRank, sc.b + 1;
    CorrectSize(sc);
    var before := DeliversAlone(sc);
    var s := Drain(env, before);
    OthersCannot(sc, before, s, q);
    StillDelivered(env, before, s, n, "first");
    assert "first" in s.log[n];
  }

  lemma OthersCannot(sc: Script, before: Sys, s: Sys, q: Rank)
    requires Lopsided(sc) && sc.b < q < sc.cfg.maxRank && Reachable(EnvOf(sc), s) && Settles(EnvOf(sc), before, s)
    requires forall p, c :: (p, c) in before.handled && p != sc.cfg.maxRank ==> !c.code.Ready?
    requires q in before.peers && before.peers[q].readys == []
    ensures q in s.log && s.log[q] == []
  {
    CorrectSize(sc);
    forall c | (q, c) in s.handled && c.code.Ready?
      ensures c.src in EnvOf(sc).correct
    {
      assert (q, c) !in before.handled;
    }
    CannotDeliver(EnvOf(sc), s, q);
  }
}
