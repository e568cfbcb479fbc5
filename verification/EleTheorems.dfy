/** What eventual leader election guarantees in every run. */
module EleTheorems {
  import opened Ranks
  import opened List
  import opened EleSpec

  // ---------------------------------------------------------------- candidates

  ghost predicate OnePerSender(candidates: seq<Heartbeat>) {
    forall i, j :: 0 <= i < j < |candidates| ==> candidates[i].sender != candidates[j].sender
  }

  /** The epoch the list holds for a sender. */
  function EpochOf(candidates: seq<Heartbeat>, p: Rank): (r: Option<int>)
    ensures r.None? <==> forall i :: 0 <= i < |candidates| ==> candidates[i].sender != p
    ensures r.Some? ==> Heartbeat(p, r.value) in candidates
  {
    if |candidates| == 0 then None
    else if candidates[0].sender == p then Some(candidates[0].epoch)
    else EpochOf(candidates[1..], p)
  }

  /** What one heartbeat does to its sender's entry. */
  function Track(entry: Option<int>, epoch: int): Option<int> {
    if entry.None? then Some(epoch) else if entry.value < epoch then None else entry
  }

  lemma {:induction false} HearTracks(candidates: seq<Heartbeat>, hb: Heartbeat, p: Rank)
    requires OnePerSender(candidates)
    ensures OnePerSender(Hear(candidates, hb))
    ensures EpochOf(Hear(candidates, hb), p) ==
            if hb.sender == p then Track(EpochOf(candidates, p), hb.epoch) else EpochOf(candidates, p)
  {
    if |candidates| > 0 {
      var head, rest := candidates[0], candidates[1..];
      HearTracks(rest, hb, p);
      if head.sender != hb.sender {
        HearTracks(rest, hb, head.sender);
        assert Hear(candidates, hb)[1..] == Hear(rest, hb);
      } else if head.sender == p && head.epoch < hb.epoch {
        assert forall i :: 0 <= i < |rest| ==> rest[i] == candidates[i + 1];
      }
    }
  }

  /** The candidate list holds at most one entry per sender in every run. */
  lemma {:induction false} CandidatesOnePerSender(cfg: Config, events: seq<Event>)
    ensures OnePerSender(Run(cfg, events).candidates)
  {
    if |events| > 0 {
      var init, last := events[..|events| - 1], events[|events| - 1];
      CandidatesOnePerSender(cfg, init);
      if last.Heard? {
        HearTracks(Run(cfg, init).candidates, last.hb, last.hb.sender);
      }
    }
  }

  lemma {:induction false} EntryIsEpoch(candidates: seq<Heartbeat>, hb: Heartbeat)
    requires OnePerSender(candidates)
    ensures hb in candidates <==> EpochOf(candidates, hb.sender) == Some(hb.epoch)
  {
    if |candidates| > 0 && candidates[0].sender != hb.sender {
      EntryIsEpoch(candidates[1..], hb);
    }
  }

  // ---------------------------------------------------------------- one period

  function AsEvents(hbs: seq<Heartbeat>): (r: seq<Event>)
    ensures |r| == |hbs| && forall i :: 0 <= i < |hbs| ==> r[i] == Heard(hbs[i])
  {
    seq(|hbs|, i requires 0 <= i < |hbs| => Heard(hbs[i]))
  }

  /** The candidates kept of the heartbeats of one period. */
  function Kept(hbs: seq<Heartbeat>): seq<Heartbeat> {
    if |hbs| == 0 then [] else Hear(Kept(hbs[..|hbs| - 1]), hbs[|hbs| - 1])
  }

  /** A sender's entry after the epochs it announced, in order of arrival. */
  function Entry(hbs: seq<Heartbeat>, p: Rank): Option<int> {
    if |hbs| == 0 then None
    else
      var before, last := Entry(hbs[..|hbs| - 1], p), hbs[|hbs| - 1];
      if last.sender == p then Track(before, last.epoch) else before
  }

  /** Senders do not disturb each other: an entry depends on its own sender's heartbeats only. */
  lemma {:induction false} KeptEntry(hbs: seq<Heartbeat>, p: Rank)
    ensures OnePerSender(Kept(hbs)) && EpochOf(Kept(hbs), p) == Entry(hbs, p)
  {
    if |hbs| > 0 {
      KeptEntry(hbs[..|hbs| - 1], p);
      HearTracks(Kept(hbs[..|hbs| - 1]), hbs[|hbs| - 1], p);
    }
  }

  /** No sender restarted during the period, as far as its heartbeats show. */
  ghost predicate Steady(hbs: seq<Heartbeat>) {
    forall i, j :: 0 <= i < j < |hbs| && hbs[i].sender == hbs[j].sender ==> hbs[i] == hbs[j]
  }

  lemma {:induction false} SteadyEntry(hbs: seq<Heartbeat>, hb: Heartbeat)
    requires Steady(hbs)
    ensures Entry(hbs, hb.sender) == Some(hb.epoch) <==> hb in hbs
    ensures Entry(hbs, hb.sender).Some? ==> Heartbeat(hb.sender, Entry(hbs, hb.sender).value) in hbs
  {
    if |hbs| > 0 {
      var init, last := hbs[..|hbs| - 1], hbs[|hbs| - 1];
      assert hbs == init + [last];
      SteadyEntry(init, hb);
      SteadyEntry(init, last);
    }
  }

  /** Without restarts, the candidates are exactly the heartbeats heard. */
  lemma SteadyKept(hbs: seq<Heartbeat>)
    requires Steady(hbs)
    ensures forall hb :: hb in Kept(hbs) <==> hb in hbs
  {
    forall hb
      ensures hb in Kept(hbs) <==> hb in hbs
    {
      KeptEntry(hbs, hb.sender);
      EntryIsEpoch(Kept(hbs), hb);
      SteadyEntry(hbs, hb);
    }
  }

  // ---------------------------------------------------------------- who is missing

  /** The epochs heard of a sender, in order of arrival. */
  function EpochsOf(hbs: seq<Heartbeat>, p: Rank): seq<int> {
    if |hbs| == 0 then []
    else
      var before, last := EpochsOf(hbs[..|hbs| - 1], p), hbs[|hbs| - 1];
      if last.sender == p then before + [last.epoch] else before
  }

  /** A sender's entry after the epochs heard of it. */
  function Tracked(epochs: seq<int>): Option<int> {
    if |epochs| == 0 then None else Track(Tracked(epochs[..|epochs| - 1]), epochs[|epochs| - 1])
  }

  lemma {:induction false} EntryIsTracked(hbs: seq<Heartbeat>, p: Rank)
    ensures Entry(hbs, p) == Tracked(EpochsOf(hbs, p))
  {
    if |hbs| > 0 {
      EntryIsTracked(hbs[..|hbs| - 1], p);
    }
  }

  lemma TrackedSnoc(epochs: seq<int>, e: int)
    ensures Tracked(epochs + [e]) == Track(Tracked(epochs), e)
  {
    assert (epochs + [e])[..|epochs|] == epochs;
  }

  /** The epochs after the first, up to position k, are not later than it. */
  ghost predicate Holds(epochs: seq<int>, k: int) {
    0 < k <= |epochs| && forall i :: 0 < i < k ==> epochs[i] <= epochs[0]
  }

  /** While no later epoch is heard, the first one is kept. */
  lemma {:induction false} HeldIsTracked(epochs: seq<int>, k: nat)
    requires Holds(epochs, k)
    ensures Tracked(epochs[..k]) == Some(epochs[0])
  {
    assert epochs[..k][..k - 1] == epochs[..k - 1] && epochs[..k][k - 1] == epochs[k - 1];
    if k > 1 {
      HeldIsTracked(epochs, k - 1);
    }
  }

  /**
   The epochs fall into stretches that cancel out: each starts with an epoch that is kept, goes on
   with epochs no later, and ends with the first later one, which takes the kept one out.
   */
  ghost predicate CancelsOut(epochs: seq<int>) {
    |epochs| == 0
    || exists k :: Holds(epochs, k) && k < |epochs| && epochs[k] > epochs[0] && CancelsOut(epochs[k + 1..])
  }

  /** What is tracked behind a stretch that cancelled out does not depend on it. */
  lemma {:induction false} TrackedBehind(a: seq<int>, b: seq<int>)
    requires Tracked(a).None?
    ensures Tracked(a + b) == Tracked(b)
  {
    if |b| == 0 {
      assert a + b == a;
    } else {
      TrackedBehind(a, b[..|b| - 1]);
      assert (a + b)[..|a + b| - 1] == a + b[..|b| - 1];
    }
  }

  lemma StretchCancels(epochs: seq<int>, k: nat)
    requires Holds(epochs, k) && k < |epochs| && epochs[k] > epochs[0]
    ensures Tracked(epochs) == Tracked(epochs[k + 1..])
  {
    var stretch, rest := epochs[..k + 1], epochs[k + 1..];
    assert Tracked(stretch) == None by {
      HeldIsTracked(epochs, k);
      TrackedSnoc(epochs[..k], epochs[k]);
      assert stretch == epochs[..k] + [epochs[k]];
    }
    TrackedBehind(stretch, rest);
    assert epochs == stretch + rest;
  }

  /** The first position of a later epoch, or the length. */
  lemma {:induction false} FirstLater(epochs: seq<int>, from: nat) returns (k: nat)
    requires Holds(epochs, from)
    ensures Holds(epochs, k) && (k < |epochs| ==> epochs[k] > epochs[0])
    decreases |epochs| - from
  {
    if from == |epochs| || epochs[from] > epochs[0] {
      k := from;
    } else {
      k := FirstLater(epochs, from + 1);
    }
  }

  lemma {:induction false} TrackedNoneExactly(epochs: seq<int>)
    ensures Tracked(epochs).None? <==> CancelsOut(epochs)
    decreases |epochs|
  {
    if |epochs| > 0 {
      var k := FirstLater(epochs, 1);
      if k == |epochs| {
        HeldIsTracked(epochs, k);
        assert epochs[..k] == epochs;
      } else {
        StretchCancels(epochs, k);
        TrackedNoneExactly(epochs[k + 1..]);
        StretchUnique(epochs, k);
      }
    }
  }

  lemma StretchUnique(epochs: seq<int>, k: nat)
    requires Holds(epochs, k) && k < |epochs| && epochs[k] > epochs[0]
    ensures CancelsOut(epochs) <==> CancelsOut(epochs[k + 1..])
  {
    if CancelsOut(epochs) {
      var j :| Holds(epochs, j) && j < |epochs| && epochs[j] > epochs[0] && CancelsOut(epochs[j + 1..]);
      assert j == k;
    }
  }

  /**
   For any heartbeats of any senders in any order: a sender is missing from the candidates of a
   period if and only if the epochs heard of it cancel out. (None heard cancel out as well.)
   */
  lemma MissingExactly(hbs: seq<Heartbeat>, p: Rank)
    ensures EpochOf(Kept(hbs), p).None? <==> CancelsOut(EpochsOf(hbs, p))
  {
    KeptEntry(hbs, p);
    EntryIsTracked(hbs, p);
    TrackedNoneExactly(EpochsOf(hbs, p));
  }

  /** No heartbeat of the sender overtook another. */
  ghost predicate InOrder(epochs: seq<int>) {
    forall i, j :: 0 <= i < j < |epochs| ==> epochs[i] <= epochs[j]
  }

  /** How many restarts in a row, back from the last heartbeat, were each heard just once since. */
  function SingleRestarts(epochs: seq<int>): nat {
    if |epochs| < 2 || epochs[|epochs| - 2] == epochs[|epochs| - 1] then 0
    else 1 + SingleRestarts(epochs[..|epochs| - 1])
  }

  lemma {:induction false} TrackedInOrder(epochs: seq<int>)
    requires InOrder(epochs) && |epochs| > 0
    ensures Tracked(epochs) == if SingleRestarts(epochs) % 2 == 1 then None else Some(epochs[|epochs| - 1])
  {
    if |epochs| > 1 {
      TrackedInOrder(epochs[..|epochs| - 1]);
    }
  }

  /**
   If the sender's heartbeats arrive in order, whatever is heard of others in between and however
   often it restarts: the sender, once heard, is missing if and only if an odd number of restarts in
   a row, up to the last, were each followed by a single heartbeat. Otherwise its entry is its latest
   epoch.
   */
  lemma MissingInOrder(hbs: seq<Heartbeat>, p: Rank)
    requires var epochs := EpochsOf(hbs, p); InOrder(epochs) && |epochs| > 0
    ensures var epochs := EpochsOf(hbs, p);
            EpochOf(Kept(hbs), p) == if SingleRestarts(epochs) % 2 == 1 then None else Some(epochs[|epochs| - 1])
  {
    KeptEntry(hbs, p);
    EntryIsTracked(hbs, p);
    TrackedInOrder(EpochsOf(hbs, p));
  }

  // ---------------------------------------------------------------- the choice

  /** No heartbeat has a lower epoch, nor the same epoch and a higher rank. */
  ghost predicate Fewest(best: Heartbeat, hbs: seq<Heartbeat>) {
    && best in hbs
    && forall hb :: hb in hbs ==> best.epoch <= hb.epoch && (best.epoch == hb.epoch ==> best.sender >= hb.sender)
  }

  /** The scan finds the one with the lowest epoch, and among equals the highest rank. */
  lemma {:induction false} BestBeatsAll(candidates: seq<Heartbeat>, self: Heartbeat)
    ensures Fewest(Best(candidates, self), candidates + [self])
  {
    if |candidates| > 0 {
      var init, last := candidates[..|candidates| - 1], candidates[|candidates| - 1];
      BestBeatsAll(init, self);
      assert candidates == init + [last];
      assert forall hb :: hb in candidates + [self] <==> hb == last || hb in init + [self];
    }
  }

  /** Whoever knows the same heartbeats, their own included, in whatever order, chooses the same. */
  lemma EqualKnowledgeEqualChoice(a: seq<Heartbeat>, selfA: Heartbeat, b: seq<Heartbeat>, selfB: Heartbeat)
    requires forall hb :: hb in a + [selfA] <==> hb in b + [selfB]
    ensures Best(a, selfA) == Best(b, selfB)
  {
    BestBeatsAll(a, selfA);
    BestBeatsAll(b, selfB);
    assert Best(a, selfA) in a + [selfA] && Best(b, selfB) in b + [selfB];
  }

  /** There is only one such heartbeat. */
  lemma FewestUnique(a: Heartbeat, b: Heartbeat, hbs: seq<Heartbeat>)
    requires Fewest(a, hbs) && Fewest(b, hbs)
    ensures a == b
  {
  }

  // ---------------------------------------------------------------- runs

  lemma {:induction false} PeriodCandidates(cfg: Config, past: seq<Event>, hbs: seq<Heartbeat>)
    requires Run(cfg, past).candidates == []
    ensures Run(cfg, past + AsEvents(hbs)) == Run(cfg, past).(candidates := Kept(hbs))
  {
    if |hbs| == 0 {
      assert past + AsEvents(hbs) == past;
    } else {
      var init, all := hbs[..|hbs| - 1], past + AsEvents(hbs);
      PeriodCandidates(cfg, past, init);
      assert all[..|all| - 1] == past + AsEvents(init);
    }
  }

  /** The leader after a period: the best of the peer itself and what it kept of the heartbeats heard. */
  lemma LeaderAfterPeriod(cfg: Config, past: seq<Event>, hbs: seq<Heartbeat>)
    requires Run(cfg, past).candidates == []
    ensures Run(cfg, past + AsEvents(hbs) + [Timeout]).leader ==
            Best(Kept(hbs), Heartbeat(cfg.localRank, cfg.localEpoch)).sender
    ensures Run(cfg, past + AsEvents(hbs) + [Timeout]).candidates == []
  {
    PeriodCandidates(cfg, past, hbs);
    var all := past + AsEvents(hbs) + [Timeout];
    assert all[..|all| - 1] == past + AsEvents(hbs);
  }

  /**
   Of the peer itself and the senders heard in the period, none of them restarted, the one with the
   lowest epoch leads, the highest rank among equals.
   */
  lemma FewestRestartsLeads(cfg: Config, past: seq<Event>, hbs: seq<Heartbeat>, best: Heartbeat)
    requires Run(cfg, past).candidates == [] && Steady(hbs)
    requires Fewest(best, hbs + [Heartbeat(cfg.localRank, cfg.localEpoch)])
    ensures Run(cfg, past + AsEvents(hbs) + [Timeout]).leader == best.sender
  {
    var self := Heartbeat(cfg.localRank, cfg.localEpoch);
    LeaderAfterPeriod(cfg, past, hbs);
    SteadyKept(hbs);
    BestBeatsAll(Kept(hbs), self);
    assert forall hb :: hb in Kept(hbs) + [self] <==> hb in hbs + [self];
    FewestUnique(best, Best(Kept(hbs), self), hbs + [self]);
  }

  /**
   Two peers, after any runs: if in the period that ends each knew the same heartbeats, counting
   its own, and nobody restarted, they have the same leader.
   */
  lemma EqualViewsEqualLeaders(a: Config, pastA: seq<Event>, heardA: seq<Heartbeat>,
                               b: Config, pastB: seq<Event>, heardB: seq<Heartbeat>)
    requires Run(a, pastA).candidates == [] && Run(b, pastB).candidates == []
    requires Steady(heardA) && Steady(heardB)
    requires forall hb :: hb in heardA + [Heartbeat(a.localRank, a.localEpoch)]
                     <==> hb in heardB + [Heartbeat(b.localRank, b.localEpoch)]
    ensures Run(a, pastA + AsEvents(heardA) + [Timeout]).leader == Run(b, pastB + AsEvents(heardB) + [Timeout]).leader
  {
    var selfA, selfB := Heartbeat(a.localRank, a.localEpoch), Heartbeat(b.localRank, b.localEpoch);
    LeaderAfterPeriod(a, pastA, heardA);
    LeaderAfterPeriod(b, pastB, heardB);
    SteadyKept(heardA);
    SteadyKept(heardB);
    forall hb
      ensures hb in Kept(heardA) + [selfA] <==> hb in Kept(heardB) + [selfB]
    {
      assert hb in heardA + [selfA] <==> hb in heardB + [selfB];
    }
    EqualKnowledgeEqualChoice(Kept(heardA), selfA, Kept(heardB), selfB);
  }

  /** The leader in force after the first i changes. */
  function LeaderAfter(first: Rank, trusts: seq<Rank>, i: nat): Rank
    requires i <= |trusts|
  {
    if i == 0 then first else trusts[i - 1]
  }

  /** Every callback names a new leader, the last one the present one; each change adds two seconds. */
  lemma {:induction false} PeriodGrowsPerChange(cfg: Config, events: seq<Event>)
    ensures var e := Run(cfg, events);
            && e.period == 4 + 2 * |e.trusts|
            && (forall i :: 0 <= i < |e.trusts| ==> e.trusts[i] != LeaderAfter(cfg.maxRank, e.trusts, i))
            && e.leader == LeaderAfter(cfg.maxRank, e.trusts, |e.trusts|)
  {
    if |events| > 0 {
      var before, e := Run(cfg, events[..|events| - 1]), Run(cfg, events);
      PeriodGrowsPerChange(cfg, events[..|events| - 1]);
      forall i | 0 <= i < |e.trusts|
        ensures e.trusts[i] != LeaderAfter(cfg.maxRank, e.trusts, i)
      {
        if i < |before.trusts| {
          assert before.trusts[i] != LeaderAfter(cfg.maxRank, before.trusts, i);
        }
      }
    }
  }
}
