/**
 Byzantine reliable broadcast, one peer: what each handler of the program does to the local state,
 as functions on values. `Brb` proves that the imperative handlers compute exactly these functions;
 `BrbSystem` composes them into runs of the whole group.
 */
module BrbSpec {
  import opened Ranks
  import opened Messages

  datatype Code = Send | Echo | Ready

  /** One recorded vote: who sent it and for which body. */
  datatype Entry = Entry(rank: Rank, body: Body)

  /**
   `scanFrom` is the list index at which the duplicate scans start. The program starts at 1, so the
   rank held in entry 0 is not looked at; 0 is the intended rule of one entry per sender.
   */
  datatype Config = Config(maxRank: nat, maxFaulty: nat, senderRank: Rank, scanFrom: nat)

  datatype Peer = Peer(sentEcho: bool, sentReady: bool, delivered: bool, echos: seq<Entry>, readys: seq<Entry>)

  const FRESH_PEER := Peer(false, false, false, [], [])

  /** What a handler does to the outside: nothing, one broadcast to all ranks, or one delivery. */
  datatype Effect = Nothing | Broadcast(code: Code, body: Body) | Deliver(sender: Rank, body: Body)

  datatype Outcome = Outcome(peer: Peer, effect: Effect)

  predicate Recorded(list: seq<Entry>, scanFrom: nat, rank: Rank) {
    exists i :: scanFrom <= i < |list| && list[i].rank == rank
  }

  function Count(list: seq<Entry>, body: Body): nat {
    if |list| == 0 then 0
    else Count(list[..|list| - 1], body) + if list[|list| - 1].body == body then 1 else 0
  }

  /** The largest echo count that is still no quorum. */
  function EchoThreshold(cfg: Config): nat {
    (cfg.maxRank + cfg.maxFaulty) / 2
  }

  function OnSend(cfg: Config, p: Peer, sender: Rank, body: Body): Outcome {
    if p.sentEcho || sender != cfg.senderRank then Outcome(p, Nothing)
    else Outcome(p.(sentEcho := true), Broadcast(Echo, body))
  }

  function OnEcho(cfg: Config, p: Peer, sender: Rank, body: Body): Outcome {
    if Recorded(p.echos, cfg.scanFrom, sender) then Outcome(p, Nothing)
    else
      var q := p.(echos := p.echos + [Entry(sender, body)]);
      Echoed(cfg, q, Count(q.echos, body), body)
  }

  /** The threshold test after an ECHO has been recorded. */
  function Echoed(cfg: Config, q: Peer, count: nat, body: Body): Outcome {
    if count > EchoThreshold(cfg) && !q.sentReady
    then Outcome(q.(sentReady := true), Broadcast(Ready, body))
    else Outcome(q, Nothing)
  }

  function OnReady(cfg: Config, p: Peer, sender: Rank, body: Body): Outcome {
    if Recorded(p.readys, cfg.scanFrom, sender) then Outcome(p, Nothing)
    else
      var q := p.(readys := p.readys + [Entry(sender, body)]);
      Readied(cfg, q, Count(q.readys, body), sender, body)
  }

  /** The threshold tests after a READY has been recorded: delivery before amplification. */
  function Readied(cfg: Config, q: Peer, count: nat, sender: Rank, body: Body): Outcome {
    if count > 2 * cfg.maxFaulty && !q.delivered
    then Outcome(q.(delivered := true), Deliver(sender, body))
    else if count > cfg.maxFaulty && !q.sentReady
    then Outcome(q.(sentReady := true), Broadcast(Ready, body))
    else Outcome(q, Nothing)
  }

  function On(cfg: Config, p: Peer, sender: Rank, code: Code, body: Body): Outcome {
    match code
    case Send => OnSend(cfg, p, sender, body)
    case Echo => OnEcho(cfg, p, sender, body)
    case Ready => OnReady(cfg, p, sender, body)
  }

  /** The flags record the peer's own ECHO and READY, each sent at most once. */
  ghost predicate FlagsFollow(p: Peer, out: Outcome) {
    && out.peer.sentEcho == (p.sentEcho || (out.effect.Broadcast? && out.effect.code.Echo?))
    && out.peer.sentReady == (p.sentReady || (out.effect.Broadcast? && out.effect.code.Ready?))
    && (out.effect.Broadcast? ==> !out.effect.code.Send?)
    && (out.effect.Broadcast? && out.effect.code.Echo? ==> !p.sentEcho)
    && (out.effect.Broadcast? && out.effect.code.Ready? ==> !p.sentReady)
  }

  /** A vote is appended to its own list unless the scan finds its sender; the other list stays. */
  ghost predicate ListFollows(list: seq<Entry>, list': seq<Entry>, scanFrom: nat, mine: bool, vote: Entry) {
    list' == if mine && !Recorded(list, scanFrom, vote.rank) then list + [vote] else list
  }

  /** An ECHO answers a SEND of the designated sender; a READY rests on a quorum or on f + 1 READYs. */
  ghost predicate Justified(cfg: Config, sender: Rank, code: Code, body: Body, out: Outcome) {
    && (code.Send? && sender == cfg.senderRank ==> out.peer.sentEcho)
    && (out.effect.Deliver? ==> out.effect.body == body)
    && (out.effect.Broadcast? ==>
          && out.effect.body == body
          && (out.effect.code.Echo? ==> code.Send? && sender == cfg.senderRank)
          && (out.effect.code.Ready? ==>
                || (code.Echo? && Count(out.peer.echos, body) > EchoThreshold(cfg))
                || (code.Ready? && Count(out.peer.readys, body) > cfg.maxFaulty)))
  }

  lemma OnSummary(cfg: Config, p: Peer, sender: Rank, code: Code, body: Body, out: Outcome)
    requires out == On(cfg, p, sender, code, body)
    ensures FlagsFollow(p, out)
    ensures ListFollows(p.echos, out.peer.echos, cfg.scanFrom, code.Echo?, Entry(sender, body))
    ensures ListFollows(p.readys, out.peer.readys, cfg.scanFrom, code.Ready?, Entry(sender, body))
    ensures Justified(cfg, sender, code, body, out)
  {
  }

  /** Exactly when an arrival makes the peer send, and deliver. */
  lemma OnExactly(cfg: Config, p: Peer, sender: Rank, code: Code, body: Body)
    ensures var out := On(cfg, p, sender, code, body);
            var echoed := code.Echo? && !Recorded(p.echos, cfg.scanFrom, sender);
            var readied := code.Ready? && !Recorded(p.readys, cfg.scanFrom, sender);
            && (out.effect == Broadcast(Echo, body) <==> code.Send? && sender == cfg.senderRank && !p.sentEcho)
            && (out.effect == Deliver(sender, body) <==>
                  readied && Count(out.peer.readys, body) > 2 * cfg.maxFaulty && !p.delivered)
            && (out.effect == Broadcast(Ready, body) <==>
                  && !p.sentReady
                  && ((echoed && 2 * Count(out.peer.echos, body) > cfg.maxRank + cfg.maxFaulty)
                      || (readied && Count(out.peer.readys, body) > cfg.maxFaulty && !out.effect.Deliver?)))
            && (out.effect.Deliver? <==> out.peer.delivered && !p.delivered) && (p.delivered ==> out.peer.delivered)
  {
  }

  // ---------------------------------------------------------------- counting votes

  lemma CountSnoc(list: seq<Entry>, e: Entry, body: Body)
    ensures Count(list + [e], body) == Count(list, body) + if e.body == body then 1 else 0
  {
    assert (list + [e])[..|list|] == list;
  }

  /** The ranks recorded for a body. */
  ghost function Voters(list: seq<Entry>, body: Body): set<Rank> {
    set i | 0 <= i < |list| && list[i].body == body :: list[i].rank
  }

  /** No rank occurs twice in the list. */
  ghost predicate OneEach(list: seq<Entry>) {
    forall i, j :: 0 <= i < j < |list| ==> list[i].rank != list[j].rank
  }

  lemma VotersSnoc(list: seq<Entry>, e: Entry, body: Body)
    ensures Voters(list + [e], body) == Voters(list, body) + if e.body == body then {e.rank} else {}
  {
    var longer := list + [e];
    assert longer[|list|] == e;
    forall r | r in Voters(list, body)
      ensures r in Voters(longer, body)
    {
      var i :| 0 <= i < |list| && list[i].body == body && list[i].rank == r;
      assert longer[i] == list[i];
    }
  }

  /** With one entry per sender, the vote count is the number of recorded senders of that body. */
  lemma {:induction false} CountIsVoters(list: seq<Entry>, body: Body)
    requires OneEach(list)
    ensures Count(list, body) == |Voters(list, body)|
  {
    if |list| == 0 {
      assert Voters(list, body) == {};
    } else {
      var init, last := list[..|list| - 1], list[|list| - 1];
      CountIsVoters(init, body);
      assert list == init + [last];
      VotersSnoc(init, last, body);
      assert last.rank !in Voters(init, body);
    }
  }

  lemma {:induction false} CountAppend(a: seq<Entry>, b: seq<Entry>, body: Body)
    ensures Count(a + b, body) == Count(a, body) + Count(b, body)
  {
    if |b| == 0 {
      assert a + b == a;
    } else {
      CountAppend(a, b[..|b| - 1], body);
      assert (a + b)[..|a + b| - 1] == a + b[..|b| - 1];
    }
  }

  /**
   The list discipline every run keeps: a rank that occurs twice is held by entry 0, the one the
   scan skips, and votes do not arrive twice unless `repeats`.
   */
  ghost predicate Disciplined(list: seq<Entry>, scanFrom: nat, repeats: bool) {
    forall i, j :: 0 <= i < j < |list| && list[i].rank == list[j].rank ==> i < scanFrom && repeats
  }

  /** At most one rank is recorded twice, no rank three times: leaving entry 0 out, ranks are distinct. */
  lemma DisciplinedTail(list: seq<Entry>, scanFrom: nat, repeats: bool)
    requires scanFrom <= 1 && Disciplined(list, scanFrom, repeats) && |list| > 0
    ensures OneEach(list[1..])
    ensures scanFrom == 0 || !repeats ==> OneEach(list)
  {
  }

  lemma CountBehindFirst(list: seq<Entry>, body: Body)
    requires |list| > 0
    ensures Count(list, body) <= Count(list[1..], body) + 1
  {
    assert list == [list[0]] + list[1..];
    CountAppend([list[0]], list[1..], body);
    assert [list[0]][..0] == [];
  }

  /** Votes beyond those of correct peers number at most the faulty peers, plus one for the skipped entry. */
  lemma CountBound(list: seq<Entry>, scanFrom: nat, repeats: bool, n: nat,
                   correct: set<Rank>, backers: set<Rank>, body: Body)
    requires scanFrom <= 1 && Disciplined(list, scanFrom, repeats)
    requires correct <= All(n)
    requires forall i :: 0 <= i < |list| ==> list[i].rank in All(n)
    requires forall i :: 0 <= i < |list| && list[i].body == body && list[i].rank in correct ==> list[i].rank in backers
    ensures Count(list, body) <= |backers| + (n - |correct|) + if scanFrom == 1 && repeats then 1 else 0
  {
    var faulty := All(n) - correct;
    assert |faulty| == n - |correct| by {
      assert All(n) == faulty + correct;
    }
    VotersBound(list, n, correct, backers, body);
    if OneEach(list) {
      CountIsVoters(list, body);
    } else {
      DisciplinedTail(list, scanFrom, repeats);
      CountBehindFirst(list, body);
      CountIsVoters(list[1..], body);
      VotersBound(list[1..], n, correct, backers, body);
    }
  }

  lemma VotersBound(list: seq<Entry>, n: nat, correct: set<Rank>, backers: set<Rank>, body: Body)
    requires correct <= All(n)
    requires forall i :: 0 <= i < |list| ==> list[i].rank in All(n)
    requires forall i :: 0 <= i < |list| && list[i].body == body && list[i].rank in correct ==> list[i].rank in backers
    ensures |Voters(list, body)| <= |backers| + (n - |correct|)
  {
    var faulty := All(n) - correct;
    assert All(n) == faulty + correct;
    assert Voters(list, body) <= backers + faulty;
    SubsetSize(Voters(list, body), backers + faulty);
    UnionSize(backers, faulty);
  }

  /** A set of peers whose votes for a body are all recorded is a lower bound for the count. */
  lemma {:induction false} CountCovers(list: seq<Entry>, voters: set<Rank>, body: Body)
    requires forall r :: r in voters ==> Entry(r, body) in list
    ensures Count(list, body) >= |voters|
  {
    if |list| == 0 {
      assert forall r :: r in voters ==> Entry(r, body) in list;
      assert |voters| == 0;
    } else {
      var init, last := list[..|list| - 1], list[|list| - 1];
      assert list == init + [last];
      var rest := if last.body == body then voters - {last.rank} else voters;
      assert forall r :: r in rest ==> Entry(r, body) in init;
      CountCovers(init, rest, body);
    }
  }

  /** The program's truncated half is the threshold of the protocol: count > (N + f) / 2 over the reals. */
  lemma ThresholdExact(cfg: Config, count: nat)
    ensures ((cfg.maxRank + cfg.maxFaulty) as real / 2.0).Floor == EchoThreshold(cfg)
    ensures count > EchoThreshold(cfg) <==> count as real > (cfg.maxRank + cfg.maxFaulty) as real / 2.0
  {
    var sum := cfg.maxRank + cfg.maxFaulty;
    assert sum == 2 * (sum / 2) + sum % 2;
  }
}
