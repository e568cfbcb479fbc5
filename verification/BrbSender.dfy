/**
 Two things a delivery of Byzantine reliable broadcast may lack. It names the sender of the READY that
 completed the count, and it may come before the peer's own READY. This module determines when it
 always names the designated sender, and when the peer has always sent READY.
 */
module BrbSender {
  import opened Ranks
  import opened Messages
  import opened BrbSpec
  import opened BrbSystem
  import opened BrbTheorems
  import opened BrbScript
  import opened BrbBounds

  /** In a reachable state an arrival makes p deliver in the name of `who`. */
  ghost predicate DeliversFrom(env: Env, s: Sys, p: Rank, c: Cast, who: Rank) {
    && Reachable(env, s) && p in s.peers && Enabled(env, s, Arrival(p, c))
    && On(env.cfg, s.peers[p], c.src, c.code, c.body).effect == Deliver(who, c.body)
  }

  /** Every delivery names the designated sender. */
  ghost predicate Names(env: Env) {
    forall s, p, c, who :: DeliversFrom(env, s, p, c, who) ==> who == env.cfg.senderRank
  }

  /**
   With b <= f faulty peers, in all groups of that shape whose designated sender is a member every
   delivery names it, if and only if there is no other peer, or nobody can ever deliver. With more
   than 3f peers that leaves the group of one.
   */
  lemma SenderNamedExact(scanFrom: nat, n: nat, f: nat, b: nat)
    requires scanFrom <= 1 && b <= f
    ensures (forall env :: Group(env, scanFrom, n, f, b) && env.cfg.senderRank in All(n) ==> Names(env))
       <==> n <= 1 || n + (if scanFrom == 1 && b > 0 then 1 else 0) <= 2 * f
  {
    var doubled := if scanFrom == 1 && b > 0 then 1 else 0;
    if n <= 1 || n + doubled <= 2 * f {
      forall env | Group(env, scanFrom, n, f, b) && env.cfg.senderRank in All(n)
        ensures Names(env)
      {
        if n <= 1 {
          AloneNames(env);
        } else {
          SmallNames(env);
        }
      }
    } else {
      var sc := Script(Config(n, f, 1, scanFrom), b, n);
      CorrectSize(sc);
      assert Group(EnvOf(sc), scanFrom, n, f, b);
      NotNamed(sc);
    }
  }

  lemma AloneNames(env: Env)
    requires WellFormed(env) && env.cfg.maxRank <= 1 && env.cfg.senderRank in All(env.cfg.maxRank)
    ensures Names(env)
  {
    forall s, p, c, who | DeliversFrom(env, s, p, c, who)
      ensures who == env.cfg.senderRank
    {
      assert who == c.src;
    }
  }

  lemma SmallNames(env: Env)
    requires WellFormed(env) && env.cfg.maxRank + Doubled(env) <= 2 * env.cfg.maxFaulty
    ensures Names(env)
  {
    forall s, p, c, who
      ensures !DeliversFrom(env, s, p, c, who)
    {
      SmallIsSilent(env, s, p, c, who);
    }
  }

  lemma SmallIsSilent(env: Env, s: Sys, p: Rank, c: Cast, who: Rank)
    requires WellFormed(env) && env.cfg.maxRank + Doubled(env) <= 2 * env.cfg.maxFaulty
    ensures !DeliversFrom(env, s, p, c, who)
  {
    if DeliversFrom(env, s, p, c, who) {
      var next := DeliveryIsLogged(env, s, p, c, who);
      NobodyDelivers(env, next, p);
      assert false;
    }
  }

  lemma DeliveryIsLogged(env: Env, s: Sys, p: Rank, c: Cast, who: Rank) returns (next: Sys)
    requires WellFormed(env) && DeliversFrom(env, s, p, c, who)
    ensures Reachable(env, next) && p in next.log && next.log[p] != []
  {
    assert p in s.log by {
      ReachableInv(env, s);
    }
    next := Next(env, s, Arrival(p, c));
    assert Step(env, s, Arrival(p, c), next);
    Extend(env, s, Arrival(p, c), next);
  }

  // ---------------------------------------------------------------- a delivery in another name

  ghost predicate Crowded(sc: Script) {
    var n, f, b := sc.cfg.maxRank, sc.cfg.maxFaulty, sc.b;
    && sc.cfg.scanFrom <= 1 && sc.cfg.senderRank == 1 && sc.split == n && b <= f && n > 1
    && n + (if sc.cfg.scanFrom == 1 && b > 0 then 1 else 0) > 2 * f
  }

  /** The voters whose READYs complete the count, the last of them not the designated sender. */
  function Completing(n: nat, f: nat): seq<Rank> {
    if f == 0 then [2] else if n > 2 * f then Span(1, 2 * f + 1) else [1] + Span(1, 2 * f)
  }

  lemma {:induction false} CountAtMost(list: seq<Entry>, m: Body)
    ensures Count(list, m) <= |list|
  {
    if |list| > 0 {
      CountAtMost(list[..|list| - 1], m);
    }
  }

  lemma NotDeliveredYet(env: Env, s: Sys, p: Rank)
    requires WellFormed(env) && Reachable(env, s) && p in env.correct
    requires p in s.peers && |s.peers[p].readys| <= 2 * env.cfg.maxFaulty
    ensures !s.peers[p].delivered
  {
    PeerFacts(env, s, p);
    if s.peers[p].delivered {
      var m := s.log[p][0];
      assert m in s.log[p];
      CountAtMost(s.peers[p].readys, m);
    }
  }

  /** Everybody sends READY, and the last rank has handled all but one of those it needs. */
  lemma AllButOne(sc: Script) returns (s: Sys)
    requires Crowded(sc)
    ensures var n, f, voters := sc.cfg.maxRank, sc.cfg.maxFaulty, Completing(sc.cfg.maxRank, sc.cfg.maxFaulty);
            && sc.b < n && |voters| == 2 * f + 1 && voters[2 * f] != 1
            && Underway(sc, s) && n in s.peers && Castable(sc, s.sent, n, Ready, voters)
            && s.peers[n].readys == Entries(voters[..2 * f], "first")
  {
    var n, f, voters := sc.cfg.maxRank, sc.cfg.maxFaulty, Completing(sc.cfg.maxRank, sc.cfg.maxFaulty);
    var ready := EverybodyReady(sc);
    CompletingFits(sc, ready.sent);
    assert ready.peers[n].readys == [] == Entries(voters[..2 * f][..0], "first");
    s := ShowVotes(sc, ready, n, Ready, voters[..2 * f], 0);
    assert ListOf(s.peers[n], Ready) == Entries(voters[..2 * f], BodyFor(sc, n));
  }

  lemma CompletingFits(sc: Script, sent: set<Cast>)
    requires Crowded(sc) && AllVoted(sc, sent, Ready)
    ensures var n, f, voters := sc.cfg.maxRank, sc.cfg.maxFaulty, Completing(sc.cfg.maxRank, sc.cfg.maxFaulty);
            && |voters| == 2 * f + 1 && voters[2 * f] != 1
            && Castable(sc, sent, n, Ready, voters) && Castable(sc, sent, n, Ready, voters[..2 * f])
  {
    var n, f, voters := sc.cfg.maxRank, sc.cfg.maxFaulty, Completing(sc.cfg.maxRank, sc.cfg.maxFaulty);
    EverybodyCastable(sc, sent, n, Ready, voters);
    EverybodyCastable(sc, sent, n, Ready, voters[..2 * f]);
  }

  lemma NotNamed(sc: Script)
    requires Crowded(sc)
    ensures !Names(EnvOf(sc))
  {
    var env, n: Rank, f := EnvOf(sc), sc.cfg.maxRank, sc.cfg.maxFaulty;
    var voters := Completing(n, f);
    CorrectSize(sc);
    var s := AllButOne(sc);
    var c := Cast(voters[2 * f], Ready, "first");
    NotYetShown(sc, s, n, Ready, voters, 2 * f);
    NotDeliveredYet(env, s, n);
    Completes(env.cfg, s.peers[n], voters, "first");
    assert DeliversFrom(env, s, n, c, voters[2 * f]);
  }

  /** The READY that completes the count is the one the delivery names. */
  lemma Completes(cfg: Config, p: Peer, voters: seq<Rank>, m: Body)
    requires |voters| == 2 * cfg.maxFaulty + 1 && !p.delivered
    requires p.readys == Entries(voters[..2 * cfg.maxFaulty], m)
    requires !Recorded(p.readys, cfg.scanFrom, voters[2 * cfg.maxFaulty])
    ensures OnReady(cfg, p, voters[2 * cfg.maxFaulty], m).effect == Deliver(voters[2 * cfg.maxFaulty], m)
  {
    var k := 2 * cfg.maxFaulty;
    EntriesSnoc(voters, k, m);
    assert voters[..k + 1] == voters;
    CountEntries(voters, m);
  }

  // ---------------------------------------------------------------- a delivery before the own READY

  /** Whoever has delivered has sent READY. */
  ghost predicate ReadyFirst(env: Env) {
    forall s, p :: Reachable(env, s) && p in s.log && s.log[p] != [] ==> HasSent(s.sent, p, Ready)
  }

  /**
   The test for a delivery comes before the one for READY. With b <= f faulty peers, all groups of the
   shape have sent READY before they deliver if and only if f >= 1 or there is no other peer.
   */
  lemma ReadyFirstExact(scanFrom: nat, n: nat, f: nat, b: nat)
    requires scanFrom <= 1 && b <= f
    ensures (forall env :: Group(env, scanFrom, n, f, b) ==> ReadyFirst(env)) <==> f >= 1 || n <= 1
  {
    if f >= 1 {
      forall env | Group(env, scanFrom, n, f, b)
        ensures ReadyFirst(env)
      {
        PositiveBoundReadyFirst(env);
      }
    } else if n <= 1 {
      forall env | Group(env, scanFrom, n, f, b)
        ensures ReadyFirst(env)
      {
        AloneReadyFirst(env);
      }
    } else {
      var sc := Script(Config(n, 0, 1, scanFrom), 0, n);
      CorrectSize(sc);
      assert Group(EnvOf(sc), scanFrom, n, f, b);
      NotReadyFirst(sc);
    }
  }

  lemma PositiveBoundReadyFirst(env: Env)
    requires WellFormed(env) && env.cfg.maxFaulty >= 1
    ensures ReadyFirst(env)
  {
    forall s, p | Reachable(env, s) && p in s.log && s.log[p] != []
      ensures HasSent(s.sent, p, Ready)
    {
      assert p in env.correct by {
        ReachableInv(env, s);
      }
      DeliveredHasSentReady(env, s, p);
    }
  }

  /** A peer that is alone counts its own READY only. */
  lemma AloneReadyFirst(env: Env)
    requires WellFormed(env) && env.cfg.maxRank <= 1 && Faulty(env) == 0
    ensures ReadyFirst(env)
  {
    forall s, p | Reachable(env, s) && p in s.log && s.log[p] != []
      ensures HasSent(s.sent, p, Ready)
    {
      AloneHasSent(env, s, p);
    }
  }

  lemma AloneHasSent(env: Env, s: Sys, p: Rank)
    requires WellFormed(env) && env.cfg.maxRank <= 1 && Faulty(env) == 0
    requires Reachable(env, s) && p in s.log && s.log[p] != []
    ensures HasSent(s.sent, p, Ready)
  {
    ReachableInv(env, s);
    PeerFacts(env, s, p);
    SubsetSize(env.correct, All(env.cfg.maxRank));
    var m := s.log[p][0];
    assert m in s.log[p];
    var list := s.peers[p].readys;
    CountAtMost(list, m);
    var e := list[0];
    assert (p, Cast(e.rank, Ready, e.body)) in s.handled;
    assert Cast(e.rank, Ready, e.body) in s.sent;
  }

  /** Peer 1 alone hears the ECHOs and sends READY, and peer 2 delivers on that. */
  lemma NotReadyFirst(sc: Script)
    requires sc.cfg.scanFrom <= 1 && sc.cfg.maxFaulty == 0 && sc.b == 0 && sc.cfg.senderRank == 1
    requires 1 < sc.cfg.maxRank == sc.split
    ensures !ReadyFirst(EnvOf(sc))
  {
    var env, p: Rank := EnvOf(sc), 2;
    CorrectSize(sc);
    var s := OneReady(sc);
    var c := Cast(1, Ready, "first");
    assert Entries([1][..0], "first") == [];
    NotYetShown(sc, s, p, Ready, [1], 0);
    NotDeliveredYet(env, s, p);
    var next := Next(env, s, Arrival(p, c));
    assert Step(env, s, Arrival(p, c), next);
    Extend(env, s, Arrival(p, c), next);
    DeliversFirst(env.cfg, s.peers[p], "first");
    assert next.log[p] != [] && !next.peers[p].sentReady;
    NothingSent(env, next, p);
  }

  lemma DeliversFirst(cfg: Config, p: Peer, m: Body)
    requires cfg.maxFaulty == 0 && !p.delivered && p.readys == []
    ensures var out := OnReady(cfg, p, 1, m); out.effect == Deliver(1, m) && out.peer.sentReady == p.sentReady
  {
    CountSnoc([], Entry(1, m), m);
  }

  lemma NothingSent(env: Env, s: Sys, p: Rank)
    requires WellFormed(env) && Reachable(env, s) && p in s.peers && !s.peers[p].sentReady
    ensures !HasSent(s.sent, p, Ready)
  {
    ReachableInv(env, s);
  }

  lemma OneReady(sc: Script) returns (s: Sys)
    requires sc.cfg.scanFrom <= 1 && sc.cfg.maxFaulty == 0 && sc.b == 0 && sc.cfg.senderRank == 1
    requires 1 < sc.cfg.maxRank == sc.split
    ensures Underway(sc, s) && 2 in s.peers && s.peers[2].readys == [] && !s.peers[2].sentReady
    ensures Castable(sc, s.sent, 2, Ready, [1])
  {
    var n, voters := sc.cfg.maxRank, Span(1, sc.cfg.maxRank);
    var echoed := AllEchoed(sc);
    EverybodyCastable(sc, echoed.sent, 1, Echo, voters);
    assert echoed.peers[1].echos == [] == Entries(voters[..0], "first");
    s := ShowVotes(sc, echoed, 1, Echo, voters, 0);
    ReadySent(sc, s, 1, voters);
  }
}
