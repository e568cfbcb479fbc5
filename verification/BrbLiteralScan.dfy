/**
 The duplicate scans as the program has them start at list index 1, so the rank held in entry 0 can
 be recorded twice. This module determines exactly for which groups each guarantee survives that, by
 running the protocol into a violation in every other case.
 */
module BrbLiteralScan {
  import opened Ranks
  import opened Messages
  import opened BrbSpec
  import opened BrbSystem
  import opened BrbTheorems
  import opened BrbScript
  import opened BrbBounds

  /**
   With b <= f faulty peers, the literal scans are consistent in all groups of that shape if and only
   if no peer is faulty, or b is at most f - 2, or b is f - 1 and n + f is even or n at most 3f, or b
   is f and n less than 3f.
   */
  lemma LiteralScanExact(n: nat, f: nat, b: nat)
    requires b <= f
    ensures (forall env :: Group(env, 1, n, f, b) ==> Consistent(env))
       <==> || b == 0 || b + 2 <= f
            || (b + 1 == f && ((n + f) % 2 == 0 || n <= 3 * f))
            || (b == f && n < 3 * f)
  {
    if b == 0 || b + 2 <= f || (b + 1 == f && ((n + f) % 2 == 0 || n <= 3 * f)) || (b == f && n < 3 * f) {
      forall env | Group(env, 1, n, f, b)
        ensures Consistent(env)
      {
        if b == 0 || b + 2 <= f || (b + 1 == f && (n + f) % 2 == 0) {
          LiteralScanIsSafe(env);
          SafeIsConsistent(env);
        } else {
          FewIsConsistent(env);
        }
      }
    } else {
      var sc := Halved(n, f, b);
      CorrectSize(sc);
      assert Group(EnvOf(sc), 1, n, f, b);
      NotConsistent(sc);
    }
  }

  /** Nobody can ever deliver, or at most one peer is correct. */
  predicate Trivial(n: nat, f: nat, b: nat) {
    n < 2 * f || n <= b + 1
  }

  /**
   With b <= f faulty peers, the literal scans are total in all groups of that shape if and only if no
   peer is faulty, or the shape is trivial, or more than 2f peers are correct and b is at most f - 2, or
   f - 1 with n + f even.
   */
  lemma LiteralTotalityExact(n: nat, f: nat, b: nat)
    requires b <= f
    ensures (forall env :: Group(env, 1, n, f, b) ==> Total(env))
       <==> || b == 0 || Trivial(n, f, b)
            || (n > 2 * f + b && (b + 2 <= f || (b + 1 == f && (n + f) % 2 == 0)))
  {
    if b == 0 || Trivial(n, f, b) || (n > 2 * f + b && (b + 2 <= f || (b + 1 == f && (n + f) % 2 == 0))) {
      forall env | Group(env, 1, n, f, b)
        ensures Total(env)
      {
        LiteralIsTotal(env, n, f, b);
      }
    } else {
      LiteralNotTotal(n, f, b);
    }
  }

  lemma LiteralIsTotal(env: Env, n: nat, f: nat, b: nat)
    requires b <= f && Group(env, 1, n, f, b)
    requires b == 0 || Trivial(n, f, b) || (n > 2 * f + b && (b + 2 <= f || (b + 1 == f && (n + f) % 2 == 0)))
    ensures Total(env)
  {
    if n + Doubled(env) <= 2 * f {
      SmallIsTotal(env);
    } else if n <= b + 1 {
      OneIsTotal(env);
    } else {
      LiteralScanIsSafe(env);
      SafeIsTotal(env);
    }
  }

  lemma LiteralNotTotal(n: nat, f: nat, b: nat)
    requires 1 <= b <= f && !Trivial(n, f, b)
    requires n <= 2 * f + b || b == f || (b + 1 == f && (n + f) % 2 == 1)
    ensures exists env :: Group(env, 1, n, f, b) && !Total(env)
  {
    var sc := if n <= 2 * f + b then Script(Config(n, f, 1, 1), b, n) else Halved(n, f, b);
    CorrectSize(sc);
    assert Group(EnvOf(sc), 1, n, f, b);
    if n <= 2 * f + b {
      BrbBounds.NotTotal(sc);
    } else {
      HalvesNotTotal(sc);
    }
  }

  /**
   With b <= f faulty peers, in all groups of that shape only what a correct designated sender
   broadcast is delivered, if and only if no peer is faulty, or b is less than f, or nobody can ever
   deliver.
   */
  lemma LiteralIntegrityExact(n: nat, f: nat, b: nat)
    requires b <= f
    ensures (forall env :: Group(env, 1, n, f, b) ==> Honest(env)) <==> (b == 0 || b + 1 <= f || n < 2 * f)
  {
    if b == 0 || b + 1 <= f || n < 2 * f {
      forall env | Group(env, 1, n, f, b)
        ensures Honest(env)
      {
        if b == 0 || b + 1 <= f {
          OutvotedIsHonest(env);
        } else {
          SmallIsHonest(env);
        }
      }
    } else {
      var sc := Forged(n, f);
      CorrectSize(sc);
      assert Group(EnvOf(sc), 1, n, f, b);
      NotHonest(sc);
    }
  }

  /**
   With b <= f faulty peers, the literal scans are valid in all groups of that shape if and only if
   more than 2f peers are correct, and no peer is faulty or b is less than f.
   */
  lemma LiteralValidityExact(n: nat, f: nat, b: nat)
    requires b <= f && b < n
    ensures (forall env :: Group(env, 1, n, f, b) ==> Valid(env)) <==> (n > 2 * f + b && (b == 0 || b + 1 <= f))
  {
    if n > 2 * f + b && (b == 0 || b + 1 <= f) {
      forall env | Group(env, 1, n, f, b)
        ensures Valid(env)
      {
        OutvotedIsValid(env);
      }
    } else {
      var sc := Script(Config(n, f, b + 1, 1), b, n);
      CorrectSize(sc);
      assert Group(EnvOf(sc), 1, n, f, b);
      if n <= 2 * f + b {
        BrbBounds.NotValid(sc);
      } else {
        ForgedNotValid(sc);
      }
    }
  }

  // ---------------------------------------------------------------- why small groups are safe

  /** Two deliveries need disjoint sets of correct peers that sent READY. */
  lemma FewIsConsistent(env: Env)
    requires WellFormed(env)
    requires 2 * (2 * env.cfg.maxFaulty + 1 - Faulty(env) - Doubled(env)) > |env.correct|
    ensures Consistent(env)
  {
    forall s, p, q, m, m' | Reachable(env, s) && p in s.log && q in s.log && m in s.log[p] && m' in s.log[q]
      ensures m == m'
    {
      ManyReadys(env, s, p, m);
      ManyReadys(env, s, q, m');
      OneShotReadys(env, s, m, m');
    }
  }

  lemma ManyReadys(env: Env, s: Sys, p: Rank, m: Body)
    requires WellFormed(env) && Reachable(env, s) && p in s.log && m in s.log[p]
    ensures |Senders(env, s.sent, Ready, m)| > 2 * env.cfg.maxFaulty - Faulty(env) - Doubled(env)
  {
    ReachableInv(env, s);
    PeerFacts(env, s, p);
    VotesBounded(env, s.handled, s.sent, p, Ready, s.peers[p].readys, m);
  }

  lemma OneShotReadys(env: Env, s: Sys, m: Body, m': Body)
    requires WellFormed(env) && Reachable(env, s)
    requires |Senders(env, s.sent, Ready, m)| + |Senders(env, s.sent, Ready, m')| > |env.correct|
    ensures m == m'
  {
    assert OneShot(s.peers, s.sent) by {
      ReachableInv(env, s);
    }
    var r := Overlap(Senders(env, s.sent, Ready, m), Senders(env, s.sent, Ready, m'), env.correct);
    assert Cast(r, Ready, m) in s.sent && Cast(r, Ready, m') in s.sent;
  }

  lemma OneIsTotal(env: Env)
    requires WellFormed(env) && |env.correct| <= 1
    ensures Total(env)
  {
    forall s, p, q | Reachable(env, s) && p in s.log && q in s.log
      ensures p == q
    {
      assert p in env.correct && q in env.correct by {
        ReachableInv(env, s);
      }
      SubsetSize({p, q}, env.correct);
    }
  }

  lemma SmallIsHonest(env: Env)
    requires WellFormed(env) && env.cfg.maxRank + Doubled(env) <= 2 * env.cfg.maxFaulty
    ensures Honest(env)
  {
    forall es, s, p, m | Run(env, es, s) && p in s.log
      ensures m !in s.log[p]
    {
      NobodyDelivers(env, s, p);
    }
  }

  /** What every run keeps of a vote list: leaving entry 0 out, no rank is recorded twice. */
  lemma LiteralLists(env: Env, s: Sys, p: Rank)
    requires WellFormed(env) && Reachable(env, s) && p in env.correct
    ensures p in s.peers
    ensures forall list: seq<Entry> :: list in {s.peers[p].echos, s.peers[p].readys} && |list| > 0 ==>
              OneEach(list[1..]) && (Faulty(env) == 0 ==> OneEach(list))
  {
    PeerFacts(env, s, p);
    forall list: seq<Entry> | list in {s.peers[p].echos, s.peers[p].readys} && |list| > 0
      ensures OneEach(list[1..]) && (Faulty(env) == 0 ==> OneEach(list))
    {
      DisciplinedTail(list, env.cfg.scanFrom, Repeats(env));
    }
  }

  // ---------------------------------------------------------------- the run into disagreement

  /** The designated sender is faulty, and the correct peers are shown different bodies in two halves. */
  function Halved(n: nat, f: nat, b: nat): Script
    requires b <= n
  {
    Script(Config(n, f, 1, 1), b, b + (n - b) / 2)
  }

  ghost predicate Diverging(sc: Script) {
    var n, f, b := sc.cfg.maxRank, sc.cfg.maxFaulty, sc.b;
    && n >= 3 * f && 1 <= b <= f <= b + 1 && (b == f || (n > 3 * f && (n + f) % 2 == 1))
    && sc == Halved(n, f, b)
  }

  /** The voters shown to p, in order: a faulty rank twice, the other faulty ranks, p's own half. */
  function Voting(sc: Script, p: Rank): seq<Rank> {
    [1] + Span(1, sc.b) + if p <= sc.split then Span(sc.b + 1, sc.split) else Span(sc.split + 1, sc.cfg.maxRank)
  }

  /** Each half is shown enough votes for a quorum of ECHOs and for a delivery. */
  lemma VotingIsEnough(sc: Script, p: Rank)
    requires Diverging(sc) && sc.b < p <= sc.cfg.maxRank
    ensures |Voting(sc, p)| > EchoThreshold(sc.cfg) && |Voting(sc, p)| > 2 * sc.cfg.maxFaulty
  {
  }

  lemma VotingIsCastable(sc: Script, sent: set<Cast>, p: Rank, code: Code)
    requires Diverging(sc) && sc.b < p <= sc.cfg.maxRank && AllVoted(sc, sent, code)
    ensures Castable(sc, sent, p, code, Voting(sc, p))
  {
    var voters := Voting(sc, p);
    assert forall i, j :: 1 <= i < j < |voters| ==> voters[i] < voters[j];
    forall i | 0 <= i < |voters| && voters[i] > sc.b
      ensures Cast(voters[i], code, BodyFor(sc, p)) in sent
    {
      assert BodyFor(sc, voters[i]) == BodyFor(sc, p);
    }
  }

  /**
   The faulty designated sender sends each half its body. Each half hears its own echoes and the
   faulty peers', then its own READYs and the faulty peers', and delivers.
   */
  lemma Diverge(sc: Script) returns (s: Sys)
    requires Diverging(sc)
    ensures Reachable(EnvOf(sc), s)
    ensures forall p: Rank :: sc.b < p <= sc.cfg.maxRank ==> p in s.log && s.log[p] == [BodyFor(sc, p)]
  {
    var voting := p => Voting(sc, p);
    var n := sc.cfg.maxRank;
    var ready := HalvesReady(sc);
    forall p: Rank | sc.b < p <= n
      ensures Castable(sc, ready.sent, p, Ready, voting(p))
    {
      VotingIsCastable(sc, ready.sent, p, Ready);
    }
    s := ShowAll(sc, ready, Ready, voting, sc.b, n);
    forall p: Rank | sc.b < p <= n
      ensures p in s.log && s.log[p] == [BodyFor(sc, p)]
    {
      VotingIsEnough(sc, p);
      HasDelivered(sc, s, p, Voting(sc, p));
    }
  }

  lemma HalvesReady(sc: Script) returns (s: Sys)
    requires Diverging(sc)
    ensures Underway(sc, s) && AllVoted(sc, s.sent, Ready)
    ensures forall p :: p in s.peers ==> s.peers[p].readys == []
  {
    var voting := p => Voting(sc, p);
    forall p: Rank, sent | sc.b < p <= sc.cfg.maxRank && AllVoted(sc, sent, Echo)
      ensures Castable(sc, sent, p, Echo, voting(p))
    {
      VotingIsCastable(sc, sent, p, Echo);
    }
    forall p: Rank | sc.b < p <= sc.cfg.maxRank
      ensures |voting(p)| > EchoThreshold(sc.cfg)
    {
      VotingIsEnough(sc, p);
    }
    s := AllReady(sc, voting);
  }

  /** The first and the last correct rank are in different halves. */
  lemma HalvesDiffer(sc: Script)
    requires Diverging(sc)
    ensures sc.b + 1 <= sc.cfg.maxRank && BodyFor(sc, sc.cfg.maxRank) != BodyFor(sc, sc.b + 1)
  {
    assert BodyFor(sc, sc.cfg.maxRank)[0] != BodyFor(sc, sc.b + 1)[0];
  }

  lemma NotConsistent(sc: Script)
    requires Diverging(sc)
    ensures !Consistent(EnvOf(sc))
  {
    HalvesDiffer(sc);
    var s := Diverge(sc);
    var p, q: Rank := sc.cfg.maxRank, sc.b + 1;
    assert sc.b < q <= p && s.log[p] == [BodyFor(sc, p)] && s.log[q] == [BodyFor(sc, q)];
    assert BodyFor(sc, p) in s.log[p] && BodyFor(sc, q) in s.log[q];
  }

  /** The divergence survives the handling of everything still under way. */
  lemma HalvesNotTotal(sc: Script)
    requires Diverging(sc)
    ensures !Total(EnvOf(sc))
  {
    var env := EnvOf(sc);
    var p, q: Rank := sc.cfg.maxRank, sc.b + 1;
    CorrectSize(sc);
    HalvesDiffer(sc);
    var before := Diverge(sc);
    var s := Drain(env, before);
    StillDelivered(env, before, s, p, BodyFor(sc, p));
    StillDelivered(env, before, s, q, BodyFor(sc, q));
    assert BodyFor(sc, p) in s.log[p] && BodyFor(sc, p) !in s.log[q];
  }

  // ---------------------------------------------------------------- the run into a forged delivery

  /** The designated sender is correct, and f peers are faulty. */
  function Forged(n: nat, f: nat): Script {
    Script(Config(n, f, f + 1, 1), f, n)
  }

  ghost predicate Forging(sc: Script) {
    var n, f := sc.cfg.maxRank, sc.cfg.maxFaulty;
    f >= 1 && n >= 2 * f && sc == Forged(n, f)
  }

  /**
   The designated sender broadcasts another body. Before that arrives anywhere, the READYs of the f
   faulty ranks, the first of them twice, make f correct peers send READY; those complete the count
   at the first of them, which delivers a body nobody broadcast.
   */
  lemma Forge(sc: Script) returns (s: Sys)
    requires Forging(sc)
    ensures Underway(sc, s) && SentExactly(EnvOf(sc), s.sent, "asked")
    ensures sc.b + 1 in s.log && s.log[sc.b + 1] == ["first"]
  {
    var f, p: Rank := sc.b, sc.b + 1;
    var amplified := AskedAndAmplified(sc);
    var voters := [1] + Span(1, 2 * f);
    assert voters[..f + 1] == [1] + Span(1, f);
    s := ShowVotes(sc, amplified, p, Ready, voters, f + 1);
    HasDelivered(sc, s, p, voters);
    SameSends(EnvOf(sc), amplified.sent, s.sent, "asked");
  }

  lemma AskedAndAmplified(sc: Script) returns (s: Sys)
    requires Forging(sc)
    ensures Underway(sc, s) && SentExactly(EnvOf(sc), s.sent, "asked")
    ensures s.peers[sc.b + 1].readys == Entries([1] + Span(1, sc.b), "first")
    ensures Castable(sc, s.sent, sc.b + 1, Ready, [1] + Span(1, 2 * sc.b))
  {
    var init := Begin(sc);
    var asked := Ask(sc, init, "asked");
    s := Amplify(sc, asked);
    SameSends(EnvOf(sc), asked.sent, s.sent, "asked");
  }

  lemma SameSends(env: Env, sent: set<Cast>, sent': set<Cast>, m: Body)
    requires SentExactly(env, sent, m) && sent <= sent' && forall c :: c in sent' && c.code.Send? ==> c in sent
    ensures SentExactly(env, sent', m)
  {
  }

  /** The faulty votes alone exceed f, since one of them counts twice. */
  lemma Amplify(sc: Script, s: Sys) returns (s': Sys)
    requires Forging(sc) && Underway(sc, s) && (forall p :: p in s.peers ==> s.peers[p].readys == [])
    ensures Underway(sc, s') && OnlyHandled(s, s', Ready)
    ensures forall p: Rank :: sc.b < p <= 2 * sc.b ==> Cast(p, Ready, "first") in s'.sent
    ensures s'.peers[sc.b + 1].readys == Entries([1] + Span(1, sc.b), "first")
  {
    var voters := [1] + Span(1, sc.b);
    var voting: Rank -> seq<Rank> := p => voters;
    s' := ShowAll(sc, s, Ready, voting, sc.b, 2 * sc.b);
    forall p: Rank | sc.b < p <= 2 * sc.b
      ensures Cast(p, Ready, "first") in s'.sent
    {
      assert ListOf(s'.peers[p], Ready) == Entries(voters, BodyFor(sc, p));
      ReadySent(sc, s', p, voters);
    }
    assert ListOf(s'.peers[sc.b + 1], Ready) == Entries(voters, "first");
  }

  lemma BodiesDiffer()
    ensures "asked" != "first"
  {
    assert "asked"[0] != "first"[0];
  }

  lemma NotHonest(sc: Script)
    requires Forging(sc)
    ensures !Honest(EnvOf(sc))
  {
    var env, p: Rank := EnvOf(sc), sc.b + 1;
    BodiesDiffer();
    var s := Forge(sc);
    var es :| Run(env, es, s);
    assert s.log[p][0] == "first" && "first" in s.log[p];
    if Request(env.cfg.senderRank, "first") in es {
      RequestsAreSent(env, es, s, env.cfg.senderRank, "first");
      assert false;
    }
  }

  lemma ForgedNotValid(sc: Script)
    requires Forging(sc)
    ensures !Valid(EnvOf(sc))
  {
    BodiesDiffer();
    CorrectSize(sc);
    var before := Forge(sc);
    ForgedForGood(EnvOf(sc), before, sc.b + 1, "asked", "first");
  }

  /** Draining does not take the delivery back. */
  lemma ForgedForGood(env: Env, before: Sys, p: Rank, asked: Body, forged: Body)
    requires WellFormed(env) && Reachable(env, before) && p in env.correct
    requires env.cfg.senderRank in env.correct && SentExactly(env, before.sent, asked)
    requires p in before.log && before.log[p] == [forged] && forged != asked
    ensures !Valid(env)
  {
    var s := Drain(env, before);
    StaysForged(env, before, s, p, asked, forged);
  }

  lemma StaysForged(env: Env, before: Sys, s: Sys, p: Rank, asked: Body, forged: Body)
    requires WellFormed(env) && Reachable(env, s) && Quiescent(env, s) && Settles(env, before, s) && p in env.correct
    requires env.cfg.senderRank in env.correct && SentExactly(env, before.sent, asked)
    requires p in before.log && before.log[p] == [forged] && forged != asked
    ensures !Valid(env)
  {
    assert SentExactly(env, s.sent, asked) by {
      SettledSends(env, before, s, asked);
    }
    StillDelivered(env, before, s, p, forged);
    Refutes(env, s, asked, p);
  }
}
