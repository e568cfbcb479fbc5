/** What detector and election guarantee in every run, at every moment a callback can be observed. */
module PfdTheorems {
  import opened Ranks
  import opened PfdSpec

  ghost predicate Detects(cfg: Config, alive: seq<Rank>, faulty: seq<Rank>) {
    NoDuplicates(faulty) && forall p :: p in faulty ==> IsOther(cfg, p)
  }

  /** The leaders announced fall strictly, from below the first leader down to the present one. */
  ghost predicate Falls(maxRank: nat, leader: nat, announced: seq<nat>) {
    && (forall i :: 0 <= i < |announced| ==> leader <= announced[i] < maxRank)
    && (forall i, j :: 0 <= i < j < |announced| ==> announced[i] > announced[j])
    && leader == if |announced| == 0 then maxRank else announced[|announced| - 1]
  }

  ghost predicate Elects(maxRank: nat, e: Elector) {
    e.leader == Highest(e.crashed, maxRank) && Falls(maxRank, e.leader, e.announced)
  }

  ghost predicate Inv(cfg: Config, d: Peer) {
    && Detects(cfg, d.alive, d.faulty)
    && d.elector.crashed == d.faulty
    && Elects(cfg.maxRank, d.elector)
  }

  lemma {:induction false} HighestUnique(crashed: seq<Rank>, n: nat, r: nat)
    requires r <= n && r !in crashed && forall p :: r < p <= n ==> p in crashed
    requires r > 0
    ensures Highest(crashed, n) == r
  {
    if n > r {
      HighestUnique(crashed, n - 1, r);
    }
  }

  /** A report of anybody but the leader leaves the leader the highest; the leader's own moves it down. */
  lemma CrashKeeps(cfg: Config, e: Elector, p: Rank)
    requires Elects(cfg.maxRank, e) && IsOther(cfg, p) && 1 <= cfg.localRank <= cfg.maxRank
    requires p !in e.crashed && cfg.localRank !in e.crashed
    ensures Elects(cfg.maxRank, OnCrash(cfg.maxRank, e, p))
  {
    var next := OnCrash(cfg.maxRank, e, p);
    assert forall q :: q in e.crashed ==> q in next.crashed;
    assert e.leader > 0;
    if p != e.leader {
      HighestUnique(next.crashed, cfg.maxRank, e.leader);
    } else {
      assert next.leader < e.leader;
    }
  }

  lemma CheckKeeps(cfg: Config, d: Peer, p: Rank)
    requires Inv(cfg, d) && 1 <= cfg.localRank <= cfg.maxRank && 1 <= p <= cfg.maxRank
    ensures Inv(cfg, Check(cfg, d, p))
  {
    if Check(cfg, d, p) != d {
      CrashKeeps(cfg, d.elector, p);
    }
  }

  lemma {:induction false} CheckedKeeps(cfg: Config, d: Peer, n: nat)
    requires Inv(cfg, d) && 1 <= cfg.localRank <= cfg.maxRank && n <= cfg.maxRank
    ensures Inv(cfg, Checked(cfg, d, n))
  {
    if n > 0 {
      CheckedKeeps(cfg, d, n - 1);
      CheckKeeps(cfg, Checked(cfg, d, n - 1), n);
    }
  }

  lemma {:induction false} RunInv(cfg: Config, events: seq<Event>)
    requires 1 <= cfg.localRank <= cfg.maxRank
    ensures Inv(cfg, Run(cfg, events))
  {
    if |events| == 0 {
      HighestUnique([], cfg.maxRank, cfg.maxRank);
    } else {
      RunInv(cfg, events[..|events| - 1]);
      CheckedKeeps(cfg, Run(cfg, events[..|events| - 1]), cfg.maxRank);
    }
  }

  /**
   After any run and n checks into the next timeout: nobody is reported twice and never the peer
   itself; the leader is the highest rank not reported; the leaders announced strictly decrease and
   never drop below the peer's own rank.
   */
  lemma Election(cfg: Config, events: seq<Event>, n: nat)
    requires 1 <= cfg.localRank <= cfg.maxRank && n <= cfg.maxRank
    ensures var d := Checked(cfg, Run(cfg, events), n);
            && NoDuplicates(d.faulty) && (forall p :: p in d.faulty ==> IsOther(cfg, p))
            && cfg.localRank <= d.elector.leader <= cfg.maxRank && d.elector.leader !in d.faulty
            && (forall p :: d.elector.leader < p <= cfg.maxRank ==> p in d.faulty)
            && Falls(cfg.maxRank, d.elector.leader, d.elector.announced)
  {
    RunInv(cfg, events);
    CheckedKeeps(cfg, Run(cfg, events), n);
    assert cfg.localRank !in Checked(cfg, Run(cfg, events), n).faulty;
  }

  /** Ranks up to n added in ascending order. */
  ghost predicate AddsAscending(before: seq<Rank>, after: seq<Rank>, n: nat) {
    && before <= after
    && (forall i :: |before| <= i < |after| ==> after[i] <= n)
    && forall i, j :: |before| <= i < j < |after| ==> after[i] < after[j]
  }

  /** With ranks 1..n checked: at most one new leader, announced when the old one was checked. */
  ghost predicate AnnouncesOnce(before: Elector, after: Elector, n: nat) {
    && after.announced == before.announced + (if after.leader == before.leader then [] else [after.leader])
    && (after.leader != before.leader ==> after.leader < before.leader <= n)
  }

  lemma {:induction false} CheckedAnnounces(cfg: Config, d: Peer, n: nat)
    requires Inv(cfg, d) && 1 <= cfg.localRank <= cfg.maxRank && n <= cfg.maxRank
    ensures AnnouncesOnce(d.elector, Checked(cfg, d, n).elector, n)
  {
    if n > 0 {
      CheckedAnnounces(cfg, d, n - 1);
      CheckedKeeps(cfg, d, n - 1);
      CheckAnnounces(cfg, d.elector, Checked(cfg, d, n - 1), n);
    }
  }

  lemma CheckAnnounces(cfg: Config, first: Elector, d: Peer, n: nat)
    requires Inv(cfg, d) && 1 <= cfg.localRank <= cfg.maxRank && 1 <= n <= cfg.maxRank
    requires AnnouncesOnce(first, d.elector, n - 1)
    ensures AnnouncesOnce(first, Check(cfg, d, n).elector, n)
  {
    var next := Check(cfg, d, n).elector;
    if next != d.elector && d.elector.leader == n {
      CrashKeeps(cfg, d.elector, n);
      assert d.elector.leader == first.leader;
      assert n in next.crashed;
      assert forall q :: q in d.elector.crashed ==> q in next.crashed;
      assert next.leader != n;
    }
  }

  lemma {:induction false} CheckedInOrder(cfg: Config, d: Peer, n: nat)
    ensures AddsAscending(d.faulty, Checked(cfg, d, n).faulty, n)
  {
    if n > 0 {
      CheckedInOrder(cfg, d, n - 1);
    }
  }

  /**
   A timeout reports its crashes in rank order. However many it reports, it announces one leader if
   the leader changed and none otherwise.
   */
  lemma TimeoutAnnouncesOnce(cfg: Config, events: seq<Event>)
    requires 1 <= cfg.localRank <= cfg.maxRank
    ensures var before, after := Run(cfg, events), Run(cfg, events + [Timeout]);
            && AddsAscending(before.faulty, after.faulty, cfg.maxRank)
            && after.elector.announced == before.elector.announced
               + if after.elector.leader == before.elector.leader then [] else [after.elector.leader]
  {
    assert (events + [Timeout])[..|events|] == events;
    RunInv(cfg, events);
    CheckedAnnounces(cfg, Run(cfg, events), cfg.maxRank);
    CheckedInOrder(cfg, Run(cfg, events), cfg.maxRank);
  }

  /** Two peers that have reported the same crashes, besides possibly themselves, have the same leader. */
  lemma EqualViews(a: Config, seenA: seq<Event>, b: Config, seenB: seq<Event>)
    requires a.maxRank == b.maxRank && 1 <= a.localRank <= a.maxRank && 1 <= b.localRank <= b.maxRank
    requires forall p :: p in Run(a, seenA).faulty <==> p in Run(b, seenB).faulty
    ensures Run(a, seenA).elector.leader == Run(b, seenB).elector.leader
  {
    Election(a, seenA, 0);
    Election(b, seenB, 0);
    HighestUnique(Run(a, seenA).faulty, a.maxRank, Run(b, seenB).elector.leader);
  }

  // ---------------------------------------------------------------- who is reported

  /** p answered since the last timeout, or there was none yet. */
  predicate Heard(events: seq<Event>, p: Rank) {
    |events| == 0
    || (events[|events| - 1].Alive? && (events[|events| - 1].sender == p || Heard(events[..|events| - 1], p)))
  }

  /** No answer of p between the timeout at i and position j. */
  ghost predicate Silent(events: seq<Event>, i: int, j: int, p: Rank) {
    0 <= i < j <= |events| && events[i].Timeout? && forall k :: i < k < j ==> events[k] != Alive(p)
  }

  /** p let a whole period between two timeouts pass. */
  ghost predicate MissedPeriod(events: seq<Event>, p: Rank) {
    exists i, j :: Silent(events, i, j, p) && j < |events| && events[j].Timeout?
  }

  lemma {:induction false} HeardIsAlive(cfg: Config, events: seq<Event>, p: Rank)
    requires IsOther(cfg, p)
    ensures p in Run(cfg, events).alive <==> Heard(events, p)
  {
    if |events| > 0 {
      HeardIsAlive(cfg, events[..|events| - 1], p);
    }
  }

  lemma {:induction false} HeardOrSilent(events: seq<Event>, p: Rank)
    ensures Heard(events, p) <==> !exists i :: Silent(events, i, |events|, p)
  {
    if |events| > 0 {
      var init, last := events[..|events| - 1], |events| - 1;
      HeardOrSilent(init, p);
      if events[last].Timeout? {
        assert Silent(events, last, |events|, p);
      } else if !Heard(events, p) {
        var i :| Silent(init, i, |init|, p);
        assert Silent(events, i, |events|, p);
      } else if i :| Silent(events, i, |events|, p) {
        assert events[last] != Alive(p);
        assert Silent(init, i, |init|, p);
      }
    }
  }

  lemma {:induction false} CheckedAddsSilent(cfg: Config, d: Peer, n: nat, p: Rank)
    requires IsOther(cfg, p) && n <= cfg.maxRank
    ensures Checked(cfg, d, n).alive == d.alive
    ensures p in Checked(cfg, d, n).faulty <==> p in d.faulty || (p <= n && p !in d.alive)
  {
    if n > 0 {
      CheckedAddsSilent(cfg, d, n - 1, p);
    }
  }

  lemma MissedPeriodSnoc(events: seq<Event>, e: Event, p: Rank)
    ensures MissedPeriod(events + [e], p) <==> MissedPeriod(events, p) || (e.Timeout? && !Heard(events, p))
  {
    var longer := events + [e];
    HeardOrSilent(events, p);
    if MissedPeriod(events, p) {
      var i, j :| Silent(events, i, j, p) && j < |events| && events[j].Timeout?;
      assert Silent(longer, i, j, p) && longer[j] == events[j];
    }
    if e.Timeout? && !Heard(events, p) {
      var i :| Silent(events, i, |events|, p);
      assert Silent(longer, i, |events|, p) && longer[|events|] == e;
    }
    if MissedPeriod(longer, p) {
      var i, j :| Silent(longer, i, j, p) && j < |longer| && longer[j].Timeout?;
      assert Silent(events, i, j, p) by {
        assert events[i] == longer[i];
        assert forall k :: i < k < j ==> events[k] == longer[k];
      }
      assert j < |events| ==> events[j] == longer[j];
    }
  }

  /** A peer has been reported if and only if it missed a whole period; answers later change nothing. */
  lemma {:induction false} ReportedExactly(cfg: Config, events: seq<Event>, p: Rank)
    requires IsOther(cfg, p)
    ensures p in Run(cfg, events).faulty <==> MissedPeriod(events, p)
  {
    if |events| > 0 {
      var init, last := events[..|events| - 1], events[|events| - 1];
      assert events == init + [last];
      ReportedExactly(cfg, init, p);
      MissedPeriodSnoc(init, last, p);
      HeardIsAlive(cfg, init, p);
      CheckedAddsSilent(cfg, Run(cfg, init), cfg.maxRank, p);
    }
  }
}
