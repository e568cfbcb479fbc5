/**
 One peer of Byzantine reliable broadcast over everything that arrives at it, in order: which votes
 it holds, and when it has sent its ECHO and READY and delivered, in terms of the arrivals alone.
 */
module BrbPeer {
  import opened Ranks
  import opened Messages
  import opened BrbSpec

  datatype Arrived = Arrived(sender: Rank, code: Code, body: Body)

  /** The peer after some arrivals. */
  function After(cfg: Config, arrivals: seq<Arrived>): Peer {
    if |arrivals| == 0 then FRESH_PEER
    else
      var last := arrivals[|arrivals| - 1];
      On(cfg, After(cfg, arrivals[..|arrivals| - 1]), last.sender, last.code, last.body).peer
  }

  /** The votes that arrived under a code, in order. */
  function Cast(arrivals: seq<Arrived>, code: Code): seq<Entry> {
    if |arrivals| == 0 then []
    else
      var last := arrivals[|arrivals| - 1];
      Cast(arrivals[..|arrivals| - 1], code) + if last.code == code then [Entry(last.sender, last.body)] else []
  }

  // ---------------------------------------------------------------- the votes recorded

  /** Of some votes in order, those the scan lets in. */
  function Let(votes: seq<Entry>, scanFrom: nat): seq<Entry> {
    if |votes| == 0 then []
    else
      var before, last := Let(votes[..|votes| - 1], scanFrom), votes[|votes| - 1];
      if Recorded(before, scanFrom, last.rank) then before else before + [last]
  }

  /** The first vote of its sender. */
  ghost predicate First(votes: seq<Entry>, i: nat) {
    i < |votes| && forall j :: 0 <= j < i ==> votes[j].rank != votes[i].rank
  }

  ghost predicate IsFirst(votes: seq<Entry>, e: Entry) {
    exists i: nat :: First(votes, i) && votes[i] == e
  }

  lemma FirstSnoc(votes: seq<Entry>, last: Entry, e: Entry)
    ensures IsFirst(votes + [last], e)
       <==> IsFirst(votes, e) || (e == last && forall i :: 0 <= i < |votes| ==> votes[i].rank != last.rank)
  {
    var longer := votes + [last];
    if IsFirst(votes, e) {
      var i: nat :| First(votes, i) && votes[i] == e;
      assert First(longer, i) && longer[i] == e;
    }
    if e == last && forall i :: 0 <= i < |votes| ==> votes[i].rank != last.rank {
      assert First(longer, |votes|) && longer[|votes|] == e;
    }
    if IsFirst(longer, e) {
      var i: nat :| First(longer, i) && longer[i] == e;
      if i < |votes| {
        assert forall j :: 0 <= j < i ==> longer[j] == votes[j];
        assert First(votes, i);
      } else {
        assert forall j :: 0 <= j < |votes| ==> longer[j] == votes[j];
      }
    }
  }

  /** The intended rule keeps the first vote of each sender. */
  lemma {:induction false} IntendedKeepsFirsts(votes: seq<Entry>, e: Entry)
    ensures OneEach(Let(votes, 0)) && (e in Let(votes, 0) <==> IsFirst(votes, e))
  {
    if |votes| > 0 {
      var init, last := votes[..|votes| - 1], votes[|votes| - 1];
      IntendedKeepsFirsts(init, e);
      assert votes == init + [last];
      FirstSnoc(init, last, e);
      IntendedRecords(init, last.rank);
    }
  }

  /** Under the intended rule the ranks recorded are those that voted. */
  lemma {:induction false} IntendedRecords(votes: seq<Entry>, r: Rank)
    ensures Recorded(Let(votes, 0), 0, r) <==> exists i :: 0 <= i < |votes| && votes[i].rank == r
  {
    if |votes| > 0 {
      var init, last := votes[..|votes| - 1], votes[|votes| - 1];
      IntendedRecords(init, r);
      RecordedSnoc(Let(init, 0), last, r);
      RecordedSnoc(init, last, r);
      assert votes == init + [last];
      assert Recorded(init, 0, r) <==> exists i :: 0 <= i < |init| && init[i].rank == r;
    }
  }

  lemma RecordedSnoc(list: seq<Entry>, e: Entry, r: Rank)
    ensures Recorded(list + [e], 0, r) <==> Recorded(list, 0, r) || r == e.rank
  {
    var longer := list + [e];
    assert longer[|list|] == e;
    if i :| 0 <= i < |list| && list[i].rank == r {
      assert longer[i] == list[i];
    }
  }

  lemma RecordedBehind(first: Entry, list: seq<Entry>, r: Rank)
    ensures Recorded([first] + list, 1, r) <==> Recorded(list, 0, r)
  {
    var longer := [first] + list;
    if i :| 1 <= i < |longer| && longer[i].rank == r {
      assert list[i - 1].rank == r;
    }
    if i :| 0 <= i < |list| && list[i].rank == r {
      assert longer[i + 1].rank == r;
    }
  }

  /** The scan as written keeps the vote that came first and, of the others, the first of each sender. */
  lemma {:induction false} LiteralIsIntendedBehindFirst(votes: seq<Entry>)
    requires |votes| > 0
    ensures Let(votes, 1) == [votes[0]] + Let(votes[1..], 0)
  {
    var init, last := votes[..|votes| - 1], votes[|votes| - 1];
    if |votes| == 1 {
      assert Let(init, 1) == [] && votes[1..] == [];
    } else {
      LiteralIsIntendedBehindFirst(init);
      assert votes[1..][..|votes[1..]| - 1] == init[1..];
      RecordedBehind(votes[0], Let(init[1..], 0), last.rank);
    }
  }

  /** The lists hold what the scan lets in of the ECHOs and of the READYs that arrived. */
  lemma {:induction false} ListsAreVotes(cfg: Config, arrivals: seq<Arrived>)
    ensures After(cfg, arrivals).echos == Let(Cast(arrivals, Echo), cfg.scanFrom)
    ensures After(cfg, arrivals).readys == Let(Cast(arrivals, Ready), cfg.scanFrom)
  {
    if |arrivals| > 0 {
      var init, last := arrivals[..|arrivals| - 1], arrivals[|arrivals| - 1];
      ListsAreVotes(cfg, init);
      assert arrivals == init + [last];
      LetCastSnoc(init, last, Echo, cfg.scanFrom);
      LetCastSnoc(init, last, Ready, cfg.scanFrom);
      ListsFollow(cfg, After(cfg, init), last);
    }
  }

  lemma ListsFollow(cfg: Config, p: Peer, a: Arrived)
    ensures var next, e := On(cfg, p, a.sender, a.code, a.body).peer, Entry(a.sender, a.body);
            && ListFollows(p.echos, next.echos, cfg.scanFrom, a.code == Echo, e)
            && ListFollows(p.readys, next.readys, cfg.scanFrom, a.code == Ready, e)
  {
    OnSummary(cfg, p, a.sender, a.code, a.body, On(cfg, p, a.sender, a.code, a.body));
  }

  lemma LetCastSnoc(arrivals: seq<Arrived>, last: Arrived, code: Code, scanFrom: nat)
    ensures var list, e := Let(Cast(arrivals, code), scanFrom), Entry(last.sender, last.body);
            ListFollows(list, Let(Cast(arrivals + [last], code), scanFrom), scanFrom, last.code == code, e)
  {
    assert (arrivals + [last])[..|arrivals|] == arrivals;
    var votes, e := Cast(arrivals, code), Entry(last.sender, last.body);
    assert votes + [] == votes && (votes + [e])[..|votes|] == votes;
  }

  // ---------------------------------------------------------------- the flags

  /** Some body has more than `bound` votes. */
  ghost predicate Exceeds(list: seq<Entry>, bound: nat) {
    exists m :: Count(list, m) > bound
  }

  /** Some body has a quorum of ECHOs. */
  ghost predicate EchoQuorum(cfg: Config, list: seq<Entry>) {
    exists m :: 2 * Count(list, m) > cfg.maxRank + cfg.maxFaulty
  }

  ghost predicate SendArrived(cfg: Config, arrivals: seq<Arrived>) {
    exists i :: 0 <= i < |arrivals| && arrivals[i].code.Send? && arrivals[i].sender == cfg.senderRank
  }

  /** What the flags of a peer with these lists must be. */
  ghost predicate FlagsExact(cfg: Config, p: Peer) {
    && (p.delivered <==> Exceeds(p.readys, 2 * cfg.maxFaulty))
    && (cfg.maxFaulty >= 1 ==> (p.sentReady <==> EchoQuorum(cfg, p.echos) || Exceeds(p.readys, cfg.maxFaulty)))
  }

  lemma ExceedsSnoc(list: seq<Entry>, e: Entry, bound: nat)
    ensures Exceeds(list + [e], bound) <==> Exceeds(list, bound) || Count(list + [e], e.body) > bound
  {
    forall m
      ensures Count(list + [e], m) == Count(list, m) + if e.body == m then 1 else 0
    {
      CountSnoc(list, e, m);
    }
  }

  lemma EchoQuorumSnoc(cfg: Config, list: seq<Entry>, e: Entry)
    ensures EchoQuorum(cfg, list + [e])
       <==> EchoQuorum(cfg, list) || 2 * Count(list + [e], e.body) > cfg.maxRank + cfg.maxFaulty
  {
    forall m
      ensures Count(list + [e], m) == Count(list, m) + if e.body == m then 1 else 0
    {
      CountSnoc(list, e, m);
    }
  }

  lemma FlagsStep(cfg: Config, p: Peer, a: Arrived)
    requires FlagsExact(cfg, p)
    ensures FlagsExact(cfg, On(cfg, p, a.sender, a.code, a.body).peer)
  {
    match a.code
    case Send =>
    case Echo => EchoFlags(cfg, p, a.sender, a.body);
    case Ready => ReadyFlags(cfg, p, a.sender, a.body);
  }

  lemma EchoFlags(cfg: Config, p: Peer, sender: Rank, body: Body)
    requires FlagsExact(cfg, p)
    ensures FlagsExact(cfg, OnEcho(cfg, p, sender, body).peer)
  {
    EchoQuorumSnoc(cfg, p.echos, Entry(sender, body));
  }

  /** With f >= 1 the count of a body that grows by one cannot pass f and 2f at once. */
  lemma ReadyFlags(cfg: Config, p: Peer, sender: Rank, body: Body)
    requires FlagsExact(cfg, p)
    ensures FlagsExact(cfg, OnReady(cfg, p, sender, body).peer)
  {
    var e := Entry(sender, body);
    ExceedsSnoc(p.readys, e, cfg.maxFaulty);
    ExceedsSnoc(p.readys, e, 2 * cfg.maxFaulty);
    CountSnoc(p.readys, e, body);
    assert Count(p.readys, body) > cfg.maxFaulty ==> Exceeds(p.readys, cfg.maxFaulty);
  }

  /**
   What a peer has done follows from what arrived: it has echoed exactly if a SEND of the designated
   sender came, delivered exactly if some body has more than 2f recorded READYs, and, for f >= 1, sent
   READY exactly if some body has a quorum of ECHOs or more than f recorded READYs.
   */
  lemma {:induction false} PeerExactly(cfg: Config, arrivals: seq<Arrived>)
    ensures After(cfg, arrivals).sentEcho <==> SendArrived(cfg, arrivals)
    ensures FlagsExact(cfg, After(cfg, arrivals))
  {
    if |arrivals| > 0 {
      var init, last := arrivals[..|arrivals| - 1], arrivals[|arrivals| - 1];
      PeerExactly(cfg, init);
      assert arrivals == init + [last];
      SendArrivedSnoc(cfg, init, last);
      FlagsStep(cfg, After(cfg, init), last);
    }
  }

  lemma SendArrivedSnoc(cfg: Config, arrivals: seq<Arrived>, last: Arrived)
    ensures SendArrived(cfg, arrivals + [last])
       <==> SendArrived(cfg, arrivals) || (last.code.Send? && last.sender == cfg.senderRank)
  {
    var longer := arrivals + [last];
    assert longer[|arrivals|] == last;
    if i :| 0 <= i < |arrivals| && arrivals[i].code.Send? && arrivals[i].sender == cfg.senderRank {
      assert longer[i] == arrivals[i];
    }
  }
}
