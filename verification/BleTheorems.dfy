/**
 What Byzantine leader election guarantees: rounds advance only on complaints of correct peers that
 go back to a correct client, and all correct peers walk through the same sequence of leaders. It
 also settles when the correct peers can advance without any help from faulty ones.
 */
module BleTheorems {
  import opened Ranks
  import opened BleSpec
  import opened BleSystem

  /**
   A correct peer that left round r did so with complaints about r of at least f + 1 correct peers,
   all of which reached r, and at least one correct client asked for such a complaint.
   */
  lemma RoundsJustified(env: Env, s: Sys, p: Rank, r: nat)
    requires WellFormed(env) && Reachable(env, s) && Faulty(env) <= env.cfg.maxFaulty
    requires p in env.correct && p in s.peers && r < s.peers[p].round
    ensures |Complainers(env, s.sent, r)| >= env.cfg.maxFaulty + 1
    ensures forall q :: q in Complainers(env, s.sent, r) ==> q in s.peers && s.peers[q].round >= r
    ensures ClientComplained(env, s.clients, r)
  {
    ReachableInv(env, s);
    var q :| q in Complainers(env, s.sent, r);
    assert Complaint(q, r) in s.sent;
  }

  /** What the clients' complaints are: each was an operation called on that peer in that round. */
  lemma {:induction false} ClientsCalled(env: Env, es: seq<Event>, s: Sys, c: Complaint)
    requires WellFormed(env) && Run(env, es, s) && c in s.clients
    ensures Complain(c.src) in es && c in s.sent
  {
    var init, last := es[..|es| - 1], es[|es| - 1];
    var prev :| Run(env, init, prev) && Step(env, prev, last, s);
    if c in prev.clients {
      ClientsCalled(env, init, prev, c);
    } else {
      assert last == Complain(c.src);
      assert last in es;
    }
  }

  /**
   The leaders a correct peer announces are those of rounds 1, 2, ... in order: any two correct
   peers announce the same leaders as far as both have got.
   */
  lemma TrustsAgree(env: Env, s: Sys, p: Rank, q: Rank)
    requires WellFormed(env) && Reachable(env, s) && p in env.correct && q in env.correct
    ensures p in s.trusts && q in s.trusts && p in s.peers && q in s.peers
    ensures s.trusts[p] <= s.trusts[q] || s.trusts[q] <= s.trusts[p]
    ensures |s.trusts[p]| == |s.trusts[q]| <==> s.peers[p].round == s.peers[q].round
  {
    ReachableInv(env, s);
    assert env.cfg.maxRank > 0;
    var a, b := s.trusts[p], s.trusts[q];
    assert forall i :: 0 <= i < |a| && i < |b| ==> a[i] == b[i];
  }

  lemma LeadersDiffer(n: nat, a: nat, b: nat)
    requires n > 0 && a < b < a + n
    ensures Leader(n, a) != Leader(n, b)
  {
    var qa, qb := a / n, b / n;
    assert a == n * qa + a % n && b == n * qb + b % n;
    if a % n == b % n {
      assert b - a == n * (qb - qa);
      Multiple(n, qb - qa);
    }
  }

  lemma Multiple(n: nat, k: int)
    requires n > 0
    ensures n * k <= 0 || n * k >= n
  {
    if k <= 0 {
      assert n * k <= 0;
    } else {
      assert n * k == n + n * (k - 1);
    }
  }

  lemma Remainder(x: nat, n: nat, q: nat, r: nat)
    requires n > 0 && r < n && x == n * q + r
    ensures x % n == r
  {
    assert x == n * (x / n) + x % n;
    assert x % n - r == n * (q - x / n);
    Multiple(n, q - x / n);
    Multiple(n, x / n - q);
    assert n * (x / n - q) == r - x % n;
  }

  /** Rank 1 leads round 0; the next rank leads the next round, and rank 1 follows the highest. */
  lemma LeaderRotates(n: nat, round: nat)
    requires n > 0
    ensures Leader(n, 0) == 1
    ensures Leader(n, round + 1) == if Leader(n, round) == n then 1 else Leader(n, round) + 1
  {
    var q, r := round / n, round % n;
    assert round == n * q + r;
    if r == n - 1 {
      assert round + 1 == n * (q + 1) + 0;
      Remainder(round + 1, n, q + 1, 0);
    } else {
      Remainder(round + 1, n, q, r + 1);
    }
  }

  /** The leaders of `count` rounds from `round` on. */
  function Leaders(n: nat, round: nat, count: nat): (s: seq<Rank>)
    requires n > 0
    ensures |s| == count && forall i :: 0 <= i < count ==> s[i] == Leader(n, round + i)
  {
    if count == 0 then [] else Leaders(n, round, count - 1) + [Leader(n, round + (count - 1))]
  }

  lemma LeadersDistinct(n: nat, round: nat, count: nat)
    requires n > 0 && count <= n
    ensures NoDuplicates(Leaders(n, round, count))
  {
    var s := Leaders(n, round, count);
    forall i, j | 0 <= i < j < |s|
      ensures s[i] != s[j]
    {
      LeadersDiffer(n, round + i, round + j);
    }
  }

  /** Distinct ranks that outnumber the faulty peers include a correct one. */
  lemma OneIsCorrect(env: Env, leaders: seq<Rank>) returns (i: nat)
    requires WellFormed(env) && NoDuplicates(leaders) && |leaders| > Faulty(env)
    requires forall j :: 0 <= j < |leaders| ==> leaders[j] in All(env.cfg.maxRank)
    ensures i < |leaders| && leaders[i] in env.correct
  {
    var faulty := All(env.cfg.maxRank) - env.correct;
    assert All(env.cfg.maxRank) == faulty + env.correct;
    ElementsSize(leaders);
    var leader := Outsider(Elements(leaders), faulty);
    i :| 0 <= i < |leaders| && leaders[i] == leader;
  }

  lemma LeaderInGroup(n: nat, round: nat)
    requires n > 0
    ensures Leader(n, round) in All(n)
  {
  }

  /** Rotation reaches a correct leader: with b faulty peers, any b + 1 consecutive rounds contain one. */
  lemma CorrectLeaderSoon(env: Env, round: nat) returns (i: nat)
    requires WellFormed(env) && env.correct != {}
    ensures env.cfg.maxRank > 0 && i <= Faulty(env) && Leader(env.cfg.maxRank, round + i) in env.correct
  {
    var n := env.cfg.maxRank;
    var c :| c in env.correct;
    assert c in All(n);
    SubsetSize({c}, env.correct);
    SubsetSize(env.correct, All(n));
    var leaders := Leaders(n, round, Faulty(env) + 1);
    LeadersDistinct(n, round, Faulty(env) + 1);
    forall j | 0 <= j < |leaders|
      ensures leaders[j] in All(n)
    {
      LeaderInGroup(n, round + j);
    }
    i := OneIsCorrect(env, leaders);
  }

  // ---------------------------------------------------------------- progress without the faulty peers

  /** The faulty peers say nothing in the run, and bring nothing back. */
  ghost predicate Silent(env: Env, es: seq<Event>) {
    forall i :: 0 <= i < |es| && es[i].Arrival? ==> es[i].src in env.correct && es[i].src != es[i].peer
  }

  /** No correct peer has left round 0. */
  ghost predicate Stuck(s: Sys) {
    forall p :: p in s.peers ==> s.peers[p].round == 0
  }

  /** As long as only correct peers are heard, a list holds correct ranks other than the peer's own. */
  ghost predicate HearsCorrect(env: Env, s: Sys) {
    forall p, r :: p in s.peers && r in s.peers[p].complains ==> r in env.correct && r != p
  }

  /** A list of correct ranks without one's own cannot outnumber the other correct peers. */
  lemma OthersBound(correct: set<Rank>, p: Rank, complains: seq<Rank>)
    requires NoDuplicates(complains) && p in correct
    requires forall r :: r in complains ==> r in correct && r != p
    ensures |complains| < |correct|
  {
    ElementsSize(complains);
    assert Elements(complains) <= correct - {p};
    SubsetSize(Elements(complains), correct - {p});
  }

  lemma {:induction false} SilentRunsStuck(env: Env, es: seq<Event>, s: Sys)
    requires WellFormed(env) && Run(env, es, s) && Silent(env, es) && |env.correct| <= 2 * env.cfg.maxFaulty + 1
    ensures Stuck(s) && HearsCorrect(env, s)
  {
    if |es| > 0 {
      var init, last := es[..|es| - 1], es[|es| - 1];
      var prev :| Run(env, init, prev) && Step(env, prev, last, s);
      SilentRunsStuck(env, init, prev);
      InvRun(env, init, prev);
      SilentStep(env, prev, last, s);
    }
  }

  lemma SilentStep(env: Env, s: Sys, e: Event, s': Sys)
    requires WellFormed(env) && Inv(env, s) && Step(env, s, e, s') && Stuck(s) && HearsCorrect(env, s)
    requires |env.correct| <= 2 * env.cfg.maxFaulty + 1 && (e.Arrival? ==> e.src in env.correct && e.src != e.peer)
    ensures Stuck(s') && HearsCorrect(env, s')
  {
    if e.Arrival? {
      assert PeerInv(env, e.peer, s.peers[e.peer], s.sent);
      SilentArrival(env, s.peers[e.peer], e.peer, e.src, e.round);
    }
  }

  /** Hearing a correct peer cannot fill the list. */
  lemma SilentArrival(env: Env, p: Peer, self: Rank, src: Rank, round: int)
    requires NoDuplicates(p.complains) && self in env.correct && src in env.correct && src != self && p.round == 0
    requires forall r :: r in p.complains ==> r in env.correct && r != self
    requires |env.correct| <= 2 * env.cfg.maxFaulty + 1
    ensures var next := OnComplaint(env.cfg, p, src, round).peer;
            next.round == 0 && forall r :: r in next.complains ==> r in env.correct && r != self
  {
    if src !in p.complains {
      OthersBound(env.correct, self, p.complains + [src]);
    }
  }

  /** Nobody has heard a complaint or left round 0, and the clients of `callers` have complained. */
  ghost predicate Called(env: Env, callers: set<Rank>, s: Sys) {
    && s.peers.Keys == s.trusts.Keys == env.correct
    && (forall p :: p in s.peers ==> s.peers[p].round == 0 && s.peers[p].complains == [])
    && (forall q :: q in callers ==> Complaint(q, 0) in s.sent)
  }

  lemma {:induction false} AllComplain(env: Env, callers: set<Rank>) returns (es: seq<Event>, s: Sys)
    requires WellFormed(env) && callers <= env.correct && env.cfg.maxRank > 0
    ensures Run(env, es, s) && Silent(env, es) && Called(env, callers, s)
    decreases |callers|
  {
    if callers == {} {
      es, s := [], Init(env);
    } else {
      var q :| q in callers;
      var init, prev := AllComplain(env, callers - {q});
      es, s := OneComplains(env, q, callers - {q}, init, prev);
      assert callers == callers - {q} + {q};
    }
  }

  lemma OneComplains(env: Env, q: Rank, callers: set<Rank>, init: seq<Event>, prev: Sys)
    returns (es: seq<Event>, s: Sys)
    requires Run(env, init, prev) && Silent(env, init) && q in env.correct && env.cfg.maxRank > 0
    requires Called(env, callers, prev)
    ensures Run(env, es, s) && Silent(env, es) && Called(env, callers + {q}, s)
  {
    es, s := init + [Complain(q)], Next(env, prev, Complain(q));
    assert es[..|es| - 1] == init;
    assert Step(env, prev, Complain(q), s);
  }

  /** Run in which p has heard k of the callers. */
  lemma {:induction false} Hears(env: Env, p: Rank, callers: set<Rank>, k: nat) returns (es: seq<Event>, s: Sys)
    requires WellFormed(env) && callers <= env.correct && p in env.correct && p !in callers && env.cfg.maxRank > 0
    requires k <= 2 * env.cfg.maxFaulty < |callers|
    ensures Run(env, es, s) && Silent(env, es)
    ensures p in s.peers && p in s.trusts && s.peers[p].round == 0
    ensures |s.peers[p].complains| == k && NoDuplicates(s.peers[p].complains)
    ensures forall q :: q in callers ==> Complaint(q, 0) in s.sent
  {
    if k == 0 {
      es, s := AllComplain(env, callers);
    } else {
      var init, prev := Hears(env, p, callers, k - 1);
      es, s := HearsOne(env, p, callers, init, prev);
    }
  }

  /** One more caller is heard; at 2f + 1 of them the round advances. */
  lemma HearsOne(env: Env, p: Rank, callers: set<Rank>, init: seq<Event>, prev: Sys) returns (es: seq<Event>, s: Sys)
    requires WellFormed(env) && callers <= env.correct && p in env.correct && p !in callers && env.cfg.maxRank > 0
    requires Run(env, init, prev) && Silent(env, init)
    requires p in prev.peers && p in prev.trusts && prev.peers[p].round == 0
    requires NoDuplicates(prev.peers[p].complains) && |prev.peers[p].complains| < |callers|
    requires forall q :: q in callers ==> Complaint(q, 0) in prev.sent
    ensures Run(env, es, s) && Silent(env, es)
    ensures p in s.peers && p in s.trusts
    ensures var k := |prev.peers[p].complains| + 1;
            if k > 2 * env.cfg.maxFaulty then s.peers[p].round == 1
            else s.peers[p].round == 0 && |s.peers[p].complains| == k && NoDuplicates(s.peers[p].complains)
    ensures forall q :: q in callers ==> Complaint(q, 0) in s.sent
  {
    ElementsSize(prev.peers[p].complains);
    var q := Outsider(callers, Elements(prev.peers[p].complains));
    var e := Arrival(p, q, 0);
    es, s := init + [e], Next(env, prev, e);
    assert es[..|es| - 1] == init;
    assert Step(env, prev, e, s);
  }

  /**
   Complaints are not counted by the peer that makes them. Hence, if the faulty peers stay silent,
   some run takes a correct peer past round 0 if and only if there are at least 2f + 2 correct
   peers - one more than a group of 3f + 1 with f faulty peers has.
   */
  lemma SilentProgressExact(env: Env)
    requires WellFormed(env)
    ensures (exists es, s :: Run(env, es, s) && Silent(env, es) && !Stuck(s))
       <==> |env.correct| >= 2 * env.cfg.maxFaulty + 2
  {
    if |env.correct| >= 2 * env.cfg.maxFaulty + 2 {
      var p :| p in env.correct;
      SubsetSize(env.correct, All(env.cfg.maxRank));
      var callers := env.correct - {p};
      var es, s := Hears(env, p, callers, 2 * env.cfg.maxFaulty);
      es, s := HearsOne(env, p, callers, es, s);
      assert !Stuck(s);
    } else {
      forall es, s | Run(env, es, s) && Silent(env, es)
        ensures Stuck(s)
      {
        SilentRunsStuck(env, es, s);
      }
    }
  }
}
