/**
 Building runs of Byzantine reliable broadcast step by step: the faulty peers and the network show
 each correct peer a chosen sequence of votes, all for the body of its half of the group. The modules
 that determine exactly when a guarantee holds use such runs where it fails.
 */
module BrbScript {
  import opened Ranks
  import opened Messages
  import opened BrbSpec
  import opened BrbSystem
  import opened BrbTheorems

  /** Ranks 1..b are faulty; correct peers up to `split` are shown one body, the others another. */
  datatype Script = Script(cfg: Config, b: nat, split: Rank)

  ghost function EnvOf(sc: Script): Env {
    Env(sc.cfg, set r | r in All(sc.cfg.maxRank) && sc.b < r)
  }

  function BodyFor(sc: Script, p: Rank): Body {
    if p <= sc.split then "first" else "second"
  }

  lemma CorrectSize(sc: Script)
    requires sc.b <= sc.cfg.maxRank && sc.cfg.scanFrom <= 1
    ensures var env := EnvOf(sc); WellFormed(env) && Faulty(env) == sc.b
  {
    var n := sc.cfg.maxRank;
    var correct := EnvOf(sc).correct;
    assert All(n) == All(sc.b) + correct;
    UnionSize(All(sc.b), correct);
  }

  function Span(lo: Rank, hi: Rank): (s: seq<Rank>)
    ensures |s| == (if lo <= hi then hi + 1 - lo else 0) && forall i :: 0 <= i < |s| ==> s[i] == lo + i
  {
    seq(if lo <= hi then hi + 1 - lo else 0, i requires 0 <= i => lo + i)
  }

  function Entries(ranks: seq<Rank>, m: Body): (list: seq<Entry>)
    ensures |list| == |ranks| && forall i :: 0 <= i < |ranks| ==> list[i] == Entry(ranks[i], m)
  {
    seq(|ranks|, i requires 0 <= i < |ranks| => Entry(ranks[i], m))
  }

  lemma EntriesSnoc(ranks: seq<Rank>, k: nat, m: Body)
    requires k < |ranks|
    ensures Entries(ranks[..k + 1], m) == Entries(ranks[..k], m) + [Entry(ranks[k], m)]
  {
  }

  lemma {:induction false} CountEntries(ranks: seq<Rank>, m: Body)
    ensures Count(Entries(ranks, m), m) == |ranks|
  {
    if |ranks| > 0 {
      var init := ranks[..|ranks| - 1];
      CountEntries(init, m);
      assert Entries(ranks, m)[..|ranks| - 1] == Entries(init, m);
    }
  }

  // ---------------------------------------------------------------- one arrival

  /** Correct peers vote for the body of their half only, and deliver nothing else. */
  ghost predicate Faithful(sc: Script, s: Sys) {
    && (forall c :: c in s.sent && !c.code.Send? ==> c.body == BodyFor(sc, c.src))
    && (forall p, m :: p in s.log && m in s.log[p] ==> m == BodyFor(sc, p))
  }

  ghost predicate Underway(sc: Script, s: Sys) {
    && sc.b <= sc.cfg.maxRank && sc.cfg.scanFrom <= 1
    && Reachable(EnvOf(sc), s) && Faithful(sc, s)
    && s.peers.Keys == s.log.Keys == EnvOf(sc).correct
  }

  function ListOf(p: Peer, code: Code): seq<Entry> {
    if code.Echo? then p.echos else p.readys
  }

  function Other(code: Code): Code {
    if code.Echo? then Ready else Echo
  }

  /** Messages of one code have been shown to p alone. */
  ghost predicate OnlyShown(s: Sys, s': Sys, p: Rank, code: Code) {
    && s'.peers.Keys == s.peers.Keys
    && (forall q :: q in s.peers && q != p ==> s'.peers[q] == s.peers[q])
    && OnlyHandled(s, s', code)
    && (forall q, c :: (q, c) in s'.handled && q != p ==> (q, c) in s.handled)
  }

  /** Only messages of one code have been handled, and nobody was asked to broadcast. */
  ghost predicate OnlyHandled(s: Sys, s': Sys, code: Code) {
    && s.sent <= s'.sent
    && (forall c :: c in s'.sent && c.code.Send? ==> c in s.sent)
    && (forall q, c :: (q, c) in s'.handled && c.code != code ==> (q, c) in s.handled)
  }

  /** Handling a message for p's own half keeps the run faithful. */
  lemma ShowFaithful(sc: Script, s: Sys, p: Rank, c: Cast, out: Outcome)
    requires Faithful(sc, s) && p in s.log && c.body == BodyFor(sc, p)
    requires Justified(sc.cfg, c.src, c.code, c.body, out)
    ensures Faithful(sc, Apply(s, p, c, out))
  {
    var s' := Apply(s, p, c, out);
    forall q, m | q in s'.log && m in s'.log[q]
      ensures m == BodyFor(sc, q)
    {
      assert q in s.log;
    }
  }

  lemma ShowStep(sc: Script, s: Sys, p: Rank, c: Cast) returns (s': Sys, out: Outcome)
    requires Reachable(EnvOf(sc), s) && p in s.peers && p in s.log && Enabled(EnvOf(sc), s, Arrival(p, c))
    ensures s' == Apply(s, p, c, out) && Reachable(EnvOf(sc), s')
    ensures FlagsFollow(s.peers[p], out) && Justified(sc.cfg, c.src, c.code, c.body, out)
    ensures ListFollows(s.peers[p].echos, out.peer.echos, sc.cfg.scanFrom, c.code.Echo?, Entry(c.src, c.body))
    ensures ListFollows(s.peers[p].readys, out.peer.readys, sc.cfg.scanFrom, c.code.Ready?, Entry(c.src, c.body))
  {
    var env := EnvOf(sc);
    out := On(env.cfg, s.peers[p], c.src, c.code, c.body);
    OnSummary(env.cfg, s.peers[p], c.src, c.code, c.body, out);
    s' := Next(env, s, Arrival(p, c));
    assert Step(env, s, Arrival(p, c), s');
    Extend(env, s, Arrival(p, c), s');
  }

  lemma ShowScope(s: Sys, p: Rank, c: Cast, out: Outcome)
    requires p in s.peers && p in s.log && FlagsFollow(s.peers[p], out)
    ensures OnlyShown(s, Apply(s, p, c, out), p, c.code)
  {
  }

  /** One arrival that shows p its own half's body. */
  lemma Show(sc: Script, s: Sys, p: Rank, r: Rank, code: Code) returns (s': Sys)
    requires Underway(sc, s) && sc.b < p <= sc.cfg.maxRank && 1 <= r <= sc.cfg.maxRank
    requires r > sc.b ==> Cast(r, code, BodyFor(sc, p)) in s.sent
    requires r > sc.b ==> code.Send? || (p, Cast(r, code, BodyFor(sc, p))) !in s.handled
    ensures Underway(sc, s') && OnlyShown(s, s', p, code)
    ensures ListFollows(s.peers[p].echos, s'.peers[p].echos, sc.cfg.scanFrom, code.Echo?, Entry(r, BodyFor(sc, p)))
    ensures ListFollows(s.peers[p].readys, s'.peers[p].readys, sc.cfg.scanFrom, code.Ready?, Entry(r, BodyFor(sc, p)))
    ensures code.Send? && r == sc.cfg.senderRank ==> s'.peers[p].sentEcho
    ensures code.Send? ==> s'.peers[p].sentReady == s.peers[p].sentReady
  {
    var c := Cast(r, code, BodyFor(sc, p));
    var next, out := ShowStep(sc, s, p, c);
    ShowFaithful(sc, s, p, c, out);
    ShowScope(s, p, c, out);
    s' := next;
  }

  // ---------------------------------------------------------------- many arrivals

  /** The voters can be shown to p and are all recorded: a repeated rank is faulty and comes first. */
  ghost predicate Castable(sc: Script, sent: set<Cast>, p: Rank, code: Code, voters: seq<Rank>) {
    && (forall i :: 0 <= i < |voters| ==> 1 <= voters[i] <= sc.cfg.maxRank)
    && (forall i, j :: 0 <= i < j < |voters| && voters[i] == voters[j] ==> i < sc.cfg.scanFrom && voters[i] <= sc.b)
    && (forall i :: 0 <= i < |voters| && voters[i] > sc.b ==> Cast(voters[i], code, BodyFor(sc, p)) in sent)
  }

  lemma NotYetShown(sc: Script, s: Sys, p: Rank, code: Code, voters: seq<Rank>, k: nat)
    requires Underway(sc, s) && sc.b < p <= sc.cfg.maxRank && !code.Send? && k < |voters|
    requires ListOf(s.peers[p], code) == Entries(voters[..k], BodyFor(sc, p)) && Castable(sc, s.sent, p, code, voters)
    ensures !Recorded(ListOf(s.peers[p], code), sc.cfg.scanFrom, voters[k])
    ensures voters[k] > sc.b ==> (p, Cast(voters[k], code, BodyFor(sc, p))) !in s.handled
  {
    CorrectSize(sc);
    PeerFacts(EnvOf(sc), s, p);
    var list := ListOf(s.peers[p], code);
    assert forall i :: 0 <= i < k ==> list[i].rank == voters[i];
  }

  /** Showing p the rest of the voters records all of them. */
  lemma {:induction false} ShowVotes(sc: Script, s: Sys, p: Rank, code: Code, voters: seq<Rank>, k: nat)
    returns (s': Sys)
    requires Underway(sc, s) && sc.b < p <= sc.cfg.maxRank && !code.Send? && k <= |voters|
    requires ListOf(s.peers[p], code) == Entries(voters[..k], BodyFor(sc, p)) && Castable(sc, s.sent, p, code, voters)
    ensures Underway(sc, s') && OnlyShown(s, s', p, code)
    ensures ListOf(s'.peers[p], code) == Entries(voters, BodyFor(sc, p))
    ensures ListOf(s'.peers[p], Other(code)) == ListOf(s.peers[p], Other(code))
    decreases |voters| - k
  {
    if k == |voters| {
      assert voters[..k] == voters;
      s' := s;
    } else {
      NotYetShown(sc, s, p, code, voters, k);
      var next := Show(sc, s, p, voters[k], code);
      EntriesSnoc(voters, k, BodyFor(sc, p));
      s' := ShowVotes(sc, next, p, code, voters, k + 1);
    }
  }

  /** The peers up to rank k have been shown their voters, the others nothing. */
  ghost predicate Shown(sc: Script, s: Sys, code: Code, voting: Rank -> seq<Rank>, k: nat) {
    forall p :: p in s.peers ==>
      ListOf(s.peers[p], code) == if p <= k then Entries(voting(p), BodyFor(sc, p)) else []
  }

  ghost predicate OthersListed(s: Sys, s': Sys, code: Code) {
    s'.peers.Keys == s.peers.Keys
    && forall p :: p in s.peers ==> ListOf(s'.peers[p], Other(code)) == ListOf(s.peers[p], Other(code))
  }

  /** The peers up to rank hi are shown their voters one peer after the other. */
  lemma {:induction false} ShowAll(sc: Script, s: Sys, code: Code, voting: Rank -> seq<Rank>, k: nat, hi: nat)
    returns (s': Sys)
    requires Underway(sc, s) && !code.Send? && sc.b <= k <= hi <= sc.cfg.maxRank
    requires Shown(sc, s, code, voting, k)
    requires forall p: Rank :: sc.b < p <= hi ==> Castable(sc, s.sent, p, code, voting(p))
    ensures Underway(sc, s') && Shown(sc, s', code, voting, hi)
    ensures OnlyHandled(s, s', code) && OthersListed(s, s', code)
    decreases hi - k
  {
    if k == hi {
      s' := s;
    } else {
      var next := ShowOne(sc, s, code, voting, k);
      forall p: Rank | sc.b < p <= hi
        ensures Castable(sc, next.sent, p, code, voting(p))
      {
        assert Castable(sc, s.sent, p, code, voting(p));
      }
      s' := ShowAll(sc, next, code, voting, k + 1, hi);
    }
  }

  lemma ShowOne(sc: Script, s: Sys, code: Code, voting: Rank -> seq<Rank>, k: nat) returns (s': Sys)
    requires Underway(sc, s) && !code.Send? && sc.b <= k < sc.cfg.maxRank && Shown(sc, s, code, voting, k)
    requires Castable(sc, s.sent, k + 1, code, voting(k + 1))
    ensures Underway(sc, s') && Shown(sc, s', code, voting, k + 1)
    ensures OnlyHandled(s, s', code) && OthersListed(s, s', code)
  {
    var p: Rank := k + 1;
    assert ListOf(s.peers[p], code) == [] == Entries(voting(p)[..0], BodyFor(sc, p));
    s' := ShowVotes(sc, s, p, code, voting(p), 0);
    ShownNext(sc, s, s', code, voting, k);
  }

  lemma ShownNext(sc: Script, s: Sys, s': Sys, code: Code, voting: Rank -> seq<Rank>, k: nat)
    requires k + 1 in s.peers && Shown(sc, s, code, voting, k) && OnlyShown(s, s', k + 1, code)
    requires ListOf(s'.peers[k + 1], code) == Entries(voting(k + 1), BodyFor(sc, k + 1))
    requires ListOf(s'.peers[k + 1], Other(code)) == ListOf(s.peers[k + 1], Other(code))
    ensures Shown(sc, s', code, voting, k + 1) && OthersListed(s, s', code)
  {
    forall p | p in s.peers && p != k + 1
      ensures s'.peers[p] == s.peers[p]
    {
    }
  }

  // ---------------------------------------------------------------- what voting leads to

  /** A peer's own ECHO or READY, once sent, is for the body of its half. */
  lemma OwnVote(sc: Script, s: Sys, p: Rank, code: Code)
    requires Underway(sc, s) && p in s.peers && !code.Send?
    requires code.Echo? ==> s.peers[p].sentEcho
    requires code.Ready? ==> s.peers[p].sentReady
    ensures Cast(p, code, BodyFor(sc, p)) in s.sent
  {
    CorrectSize(sc);
    assert OneShot(s.peers, s.sent) by {
      ReachableInv(EnvOf(sc), s);
    }
    assert HasSent(s.sent, p, code);
  }

  /** A quorum of ECHOs, or more than f READYs with f >= 1, have made p send READY. */
  lemma ReadySent(sc: Script, s: Sys, p: Rank, voters: seq<Rank>)
    requires Underway(sc, s) && p in s.peers
    requires || (s.peers[p].echos == Entries(voters, BodyFor(sc, p)) && |voters| > EchoThreshold(sc.cfg))
             || (s.peers[p].readys == Entries(voters, BodyFor(sc, p)) && |voters| > sc.cfg.maxFaulty > 0)
    ensures Cast(p, Ready, BodyFor(sc, p)) in s.sent
  {
    CorrectSize(sc);
    PeerFacts(EnvOf(sc), s, p);
    CountEntries(voters, BodyFor(sc, p));
    OwnVote(sc, s, p, Ready);
  }

  /** More than 2f READYs have made p deliver. */
  lemma HasDelivered(sc: Script, s: Sys, p: Rank, voters: seq<Rank>)
    requires Underway(sc, s) && p in s.peers
    requires s.peers[p].readys == Entries(voters, BodyFor(sc, p)) && |voters| > 2 * sc.cfg.maxFaulty
    ensures p in s.log && s.log[p] == [BodyFor(sc, p)]
  {
    CorrectSize(sc);
    PeerFacts(EnvOf(sc), s, p);
    CountEntries(voters, BodyFor(sc, p));
    assert s.log[p][0] in s.log[p];
  }

  /** Nothing has happened yet. */
  lemma Begin(sc: Script) returns (s: Sys)
    requires sc.b <= sc.cfg.maxRank && sc.cfg.scanFrom <= 1
    ensures Underway(sc, s) && s == Init(EnvOf(sc))
  {
    s := Init(EnvOf(sc));
    assert Run(EnvOf(sc), [], s);
  }

  /** The correct designated sender is asked to broadcast. */
  lemma Ask(sc: Script, init: Sys, m: Body) returns (s: Sys)
    requires Underway(sc, init) && init == Init(EnvOf(sc)) && sc.b < sc.cfg.senderRank <= sc.cfg.maxRank
    ensures Underway(sc, s) && s == init.(sent := {Cast(sc.cfg.senderRank, Send, m)})
    ensures SentExactly(EnvOf(sc), s.sent, m)
  {
    var e := Request(sc.cfg.senderRank, m);
    s := Next(EnvOf(sc), init, e);
    assert Step(EnvOf(sc), init, e, s);
    Extend(EnvOf(sc), init, e, s);
  }

  /** The designated sender can send what the script shows; a correct one only one body. */
  ghost predicate Sendable(sc: Script) {
    && sc.cfg.scanFrom <= 1 && sc.b <= sc.cfg.maxRank
    && 1 <= sc.cfg.senderRank <= sc.cfg.maxRank && (sc.cfg.senderRank > sc.b ==> sc.split == sc.cfg.maxRank)
  }

  /** Correct peers up to k have echoed the designated sender's SEND, and nothing else has arrived. */
  ghost predicate Echoing(sc: Script, s: Sys, k: nat) {
    && (sc.cfg.senderRank > sc.b ==> Cast(sc.cfg.senderRank, Send, "first") in s.sent)
    && (forall p :: p in s.peers ==> s.peers[p].echos == [] && s.peers[p].readys == [] && !s.peers[p].sentReady)
    && (forall p :: p in s.peers && p <= k ==> s.peers[p].sentEcho)
    && (forall p, c :: (p, c) in s.handled ==> c.code.Send?)
  }

  lemma {:induction false} SendPhase(sc: Script, k: nat) returns (s: Sys)
    requires Sendable(sc) && sc.b <= k <= sc.cfg.maxRank
    ensures Underway(sc, s) && Echoing(sc, s, k)
  {
    if k == sc.b {
      s := Begin(sc);
      if sc.cfg.senderRank > sc.b {
        s := Ask(sc, s, "first");
      }
    } else {
      var prev := SendPhase(sc, k - 1);
      s := OneEchoes(sc, prev, k);
    }
  }

  lemma OneEchoes(sc: Script, s: Sys, p: Rank) returns (s': Sys)
    requires Sendable(sc) && sc.b < p <= sc.cfg.maxRank && Underway(sc, s) && Echoing(sc, s, p - 1)
    ensures Underway(sc, s') && Echoing(sc, s', p)
  {
    s' := Show(sc, s, p, sc.cfg.senderRank, Send);
    forall q | q in s'.peers
      ensures s'.peers[q].echos == [] && s'.peers[q].readys == [] && !s'.peers[q].sentReady
      ensures q <= p ==> s'.peers[q].sentEcho
    {
      if q != p {
        assert s'.peers[q] == s.peers[q];
      }
    }
  }

  /** Every correct peer has voted, each for the body of its half. */
  ghost predicate AllVoted(sc: Script, sent: set<Cast>, code: Code) {
    forall r: Rank :: sc.b < r <= sc.cfg.maxRank ==> Cast(r, code, BodyFor(sc, r)) in sent
  }

  lemma AllEchoed(sc: Script) returns (s: Sys)
    requires Sendable(sc)
    ensures Underway(sc, s) && AllVoted(sc, s.sent, Echo)
    ensures forall p :: p in s.peers ==> s.peers[p].echos == [] && s.peers[p].readys == [] && !s.peers[p].sentReady
    ensures forall p, c :: (p, c) in s.handled ==> c.code.Send?
  {
    s := SendPhase(sc, sc.cfg.maxRank);
    forall r: Rank | sc.b < r <= sc.cfg.maxRank
      ensures Cast(r, Echo, BodyFor(sc, r)) in s.sent
    {
      OwnVote(sc, s, r, Echo);
    }
  }

  /** Then everybody hears enough ECHOs for its body, and sends READY. */
  lemma AllReady(sc: Script, voting: Rank -> seq<Rank>) returns (s: Sys)
    requires Sendable(sc)
    requires forall p: Rank, sent :: sc.b < p <= sc.cfg.maxRank && AllVoted(sc, sent, Echo) ==>
               Castable(sc, sent, p, Echo, voting(p))
    requires forall p: Rank :: sc.b < p <= sc.cfg.maxRank ==> |voting(p)| > EchoThreshold(sc.cfg)
    ensures Underway(sc, s) && AllVoted(sc, s.sent, Ready)
    ensures forall p :: p in s.peers ==> s.peers[p].readys == []
    ensures forall p, c :: (p, c) in s.handled ==> !c.code.Ready?
  {
    var echoed := AllEchoed(sc);
    s := ShowAll(sc, echoed, Echo, voting, sc.b, sc.cfg.maxRank);
    forall p: Rank | sc.b < p <= sc.cfg.maxRank
      ensures Cast(p, Ready, BodyFor(sc, p)) in s.sent
    {
      ReadySent(sc, s, p, voting(p));
    }
    forall p | p in s.peers
      ensures s.peers[p].readys == []
    {
      assert ListOf(s.peers[p], Ready) == ListOf(echoed.peers[p], Ready);
    }
  }
}
