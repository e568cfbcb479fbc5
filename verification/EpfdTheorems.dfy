/** What the eventually perfect detector guarantees in every run. */
module EpfdTheorems {
  import opened Ranks
  import opened PfdSpec
  import opened EpfdSpec

  // ---------------------------------------------------------------- the suspected list

  lemma {:induction false} WithoutRemoves(list: seq<Rank>, r: Rank)
    requires NoDuplicates(list)
    ensures NoDuplicates(Without(list, r))
    ensures forall q :: q in Without(list, r) <==> q in list && q != r
  {
    if |list| > 0 {
      assert NoDuplicates(list[1..]);
      assert list == [list[0]] + list[1..];
      WithoutRemoves(list[1..], r);
      NoDuplicatesCons(list[0], Without(list[1..], r));
    }
  }

  lemma NoDuplicatesCons(head: Rank, rest: seq<Rank>)
    requires NoDuplicates(rest)
    ensures head !in rest ==> NoDuplicates([head] + rest)
  {
  }

  lemma ReviewKeepsList(cfg: Config, w: Watcher, n: nat, q: Rank)
    requires NoDuplicates(w.suspected)
    ensures var next := Review(cfg, w, n);
            && next.alive == w.alive && NoDuplicates(next.suspected)
            && (q in next.suspected <==> if q == n && n != cfg.localRank then q !in w.alive else q in w.suspected)
  {
    WithoutRemoves(w.suspected, n);
  }

  lemma {:induction false} ReviewedList(cfg: Config, w: Watcher, n: nat, q: Rank)
    requires NoDuplicates(w.suspected)
    ensures var next := Reviewed(cfg, w, n);
            && next.alive == w.alive && NoDuplicates(next.suspected)
            && (q in next.suspected <==>
                if 1 <= q <= n && q != cfg.localRank then q !in w.alive else q in w.suspected)
  {
    if n > 0 {
      ReviewedList(cfg, w, n - 1, q);
      ReviewKeepsList(cfg, Reviewed(cfg, w, n - 1), n, q);
    }
  }

  /** p answered since the last timeout, or since the start. */
  predicate Answered(events: seq<Event>, p: Rank) {
    |events| > 0 && events[|events| - 1].Alive?
    && (events[|events| - 1].sender == p || Answered(events[..|events| - 1], p))
  }

  /** Who the list of answers holds besides the inert zeros, and who can be suspected at all. */
  lemma {:induction false} WatchLists(cfg: Config, events: seq<Event>, q: Rank)
    ensures var w := Watch(cfg, events);
            && NoDuplicates(w.suspected) && (q > 0 ==> (q in w.alive <==> Answered(events, q)))
            && (q in w.suspected ==> IsOther(cfg, q))
  {
    if |events| > 0 {
      var init := events[..|events| - 1];
      WatchLists(cfg, init, q);
      ReviewedList(cfg, Watch(cfg, init), cfg.maxRank, q);
    }
  }

  /**
   After every timeout the suspected list has no duplicates and holds exactly the other peers that
   did not answer in the period that ends there.
   */
  lemma SuspectedExactly(cfg: Config, events: seq<Event>, q: Rank)
    ensures var w := Watch(cfg, events + [Timeout]);
            && NoDuplicates(w.suspected) && w.alive == []
            && (q in w.suspected <==> IsOther(cfg, q) && !Answered(events, q))
  {
    assert (events + [Timeout])[..|events + [Timeout]| - 1] == events;
    WatchLists(cfg, events, q);
    ReviewedList(cfg, Watch(cfg, events), cfg.maxRank, q);
  }

  // ---------------------------------------------------------------- the callbacks

  /** The callbacks about p. */
  function About(notes: seq<Note>, p: Rank): seq<Note> {
    if |notes| == 0 then []
    else
      var last := notes[|notes| - 1];
      About(notes[..|notes| - 1], p) + if last.peer == p then [last] else []
  }

  /** Suspect and Restore take turns, Suspect first, and p is suspected when Suspect came last. */
  ghost predicate TakesTurns(notes: seq<Note>, suspected: bool, p: Rank) {
    && (forall i :: 0 <= i < |About(notes, p)| ==>
          About(notes, p)[i] == if i % 2 == 0 then Suspect(p) else Restore(p))
    && (suspected <==> |About(notes, p)| % 2 == 1)
  }

  lemma AboutSnoc(notes: seq<Note>, note: Note, p: Rank)
    ensures About(notes + [note], p) == About(notes, p) + if note.peer == p then [note] else []
  {
    assert (notes + [note])[..|notes + [note]| - 1] == notes;
  }

  lemma ReviewTakesTurns(cfg: Config, w: Watcher, n: nat, p: Rank)
    requires NoDuplicates(w.suspected) && TakesTurns(w.notes, p in w.suspected, p)
    ensures TakesTurns(Review(cfg, w, n).notes, p in Review(cfg, w, n).suspected, p)
  {
    ReviewKeepsList(cfg, w, n, p);
    AboutSnoc(w.notes, Suspect(n), p);
    AboutSnoc(w.notes, Restore(n), p);
  }

  lemma {:induction false} ReviewedTakesTurns(cfg: Config, w: Watcher, n: nat, p: Rank)
    requires NoDuplicates(w.suspected) && TakesTurns(w.notes, p in w.suspected, p)
    ensures TakesTurns(Reviewed(cfg, w, n).notes, p in Reviewed(cfg, w, n).suspected, p)
  {
    if n > 0 {
      var before := Reviewed(cfg, w, n - 1);
      ReviewedTakesTurns(cfg, w, n - 1, p);
      assert NoDuplicates(before.suspected) by {
        ReviewedList(cfg, w, n - 1, p);
      }
      ReviewTakesTurns(cfg, before, n, p);
      assert Reviewed(cfg, w, n) == Review(cfg, before, n);
    }
  }

  lemma {:induction false} WatchTakesTurns(cfg: Config, events: seq<Event>, p: Rank)
    ensures TakesTurns(Watch(cfg, events).notes, p in Watch(cfg, events).suspected, p)
  {
    if |events| > 0 {
      var init := events[..|events| - 1];
      WatchTakesTurns(cfg, init, p);
      WatchLists(cfg, init, p);
      ReviewedTakesTurns(cfg, Watch(cfg, init), cfg.maxRank, p);
    }
  }

  /** Callbacks about ranks up to n added in ascending order. */
  ghost predicate AddsAscending(before: seq<Note>, after: seq<Note>, n: nat) {
    && before <= after
    && (forall i :: |before| <= i < |after| ==> after[i].peer <= n)
    && forall i, j :: |before| <= i < j < |after| ==> after[i].peer < after[j].peer
  }

  lemma {:induction false} ReviewedInOrder(cfg: Config, w: Watcher, n: nat)
    ensures AddsAscending(w.notes, Reviewed(cfg, w, n).notes, n)
  {
    if n > 0 {
      ReviewedInOrder(cfg, w, n - 1);
    }
  }

  /** A timeout calls back about each peer at most once, in rank order. */
  lemma NotesInRankOrder(cfg: Config, events: seq<Event>)
    ensures AddsAscending(Watch(cfg, events).notes, Watch(cfg, events + [Timeout]).notes, cfg.maxRank)
  {
    assert (events + [Timeout])[..|events|] == events;
    ReviewedInOrder(cfg, Watch(cfg, events), cfg.maxRank);
  }

  /** The list of answers starts with a zero for every other peer but the highest; nobody is suspected. */
  lemma StartsWithZeros(cfg: Config)
    ensures var w, below := FreshWatcher(cfg), if cfg.maxRank == 0 then 0 else cfg.maxRank - 1;
            && |w.alive| == (if 1 <= cfg.localRank <= below then below - 1 else below)
            && (forall i :: 0 <= i < |w.alive| ==> w.alive[i] == 0) && w.suspected == [] && w.notes == []
  {
    OthersCount(cfg, if cfg.maxRank == 0 then 0 else cfg.maxRank - 1);
  }

  lemma {:induction false} OthersCount(cfg: Config, n: nat)
    ensures |Others(cfg, n)| == if 1 <= cfg.localRank <= n then n - 1 else n
  {
    if n > 0 {
      OthersCount(cfg, n - 1);
    }
  }

  /**
   In every run, at every point of a timeout, the callbacks about p strictly alternate and start with
   Suspect, and p is on the list exactly when the last one was Suspect.
   */
  lemma SuspectAndRestoreAlternate(cfg: Config, events: seq<Event>, n: nat, p: Rank)
    ensures var w := Reviewed(cfg, Watch(cfg, events), n);
            TakesTurns(w.notes, p in w.suspected, p)
  {
    WatchLists(cfg, events, p);
    WatchTakesTurns(cfg, events, p);
    ReviewedTakesTurns(cfg, Watch(cfg, events), n, p);
  }
}
