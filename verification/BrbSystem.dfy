/**
 Runs of a group of peers executing Byzantine reliable broadcast over authenticated perfect links.
 Correct peers execute the handlers of `BrbSpec`; a faulty peer may make anything arrive anywhere at
 any time under its own rank, and again whatever a correct peer has signed. The network may delay and
 reorder without limit.
 */
module BrbSystem {
  import opened Ranks
  import opened Messages
  import opened BrbSpec

  /** A message as the links see it; a correct peer always sends to every rank. */
  datatype Cast = Cast(src: Rank, code: Code, body: Body)

  datatype Env = Env(cfg: Config, correct: set<Rank>)

  /** `handled` holds which peer has handled which cast, `log` the bodies each correct peer delivered. */
  datatype Sys = Sys(peers: map<Rank, Peer>, sent: set<Cast>, handled: set<(Rank, Cast)>, log: map<Rank, seq<Body>>)

  datatype Event = Request(peer: Rank, body: Body) | Arrival(peer: Rank, cast: Cast)

  ghost predicate WellFormed(env: Env) {
    env.correct <= All(env.cfg.maxRank) && env.cfg.scanFrom <= 1
  }

  ghost function Init(env: Env): Sys {
    Sys(map p | p in env.correct :: FRESH_PEER, {}, {}, map p | p in env.correct :: [])
  }

  /** Some peer is faulty. A signature does not cover the id, so it can bring a signed vote in again. */
  ghost predicate Repeats(env: Env) {
    |env.correct| < env.cfg.maxRank
  }

  /**
   A message of a correct peer arrives only if it was sent and, a perfect link delivering it once, only
   if it was not handled before, unless a faulty peer repeats it. A peer may send the same SEND
   several times, so those may repeat too. A message of a faulty peer may always arrive.
   */
  ghost predicate Enabled(env: Env, s: Sys, e: Event) {
    && e.peer in env.correct
    && (e.Arrival? ==>
          && e.cast.src in All(env.cfg.maxRank)
          && (e.cast.src in env.correct ==>
                e.cast in s.sent && (e.cast.code.Send? || Repeats(env) || (e.peer, e.cast) !in s.handled)))
  }

  /** The state after `p` handled `c` with the given outcome. */
  ghost function Apply(s: Sys, p: Rank, c: Cast, out: Outcome): Sys
    requires p in s.log
  {
    Sys(
      s.peers[p := out.peer],
      if out.effect.Broadcast? then s.sent + {Cast(p, out.effect.code, out.effect.body)} else s.sent,
      s.handled + {(p, c)},
      if out.effect.Deliver? then s.log[p := s.log[p] + [out.effect.body]] else s.log)
  }

  ghost function Next(env: Env, s: Sys, e: Event): Sys
    requires e.peer in s.peers && e.peer in s.log
  {
    match e
    case Request(p, body) => s.(sent := s.sent + {Cast(p, Send, body)})
    case Arrival(p, c) => Apply(s, p, c, On(env.cfg, s.peers[p], c.src, c.code, c.body))
  }

  ghost predicate Step(env: Env, s: Sys, e: Event, s': Sys) {
    && e.peer in s.peers && e.peer in s.log
    && Enabled(env, s, e)
    && s' == Next(env, s, e)
  }

  /** `es` is a run from the initial state to `s`. */
  ghost predicate Run(env: Env, es: seq<Event>, s: Sys) {
    if |es| == 0 then s == Init(env)
    else
      var init, last := es[..|es| - 1], es[|es| - 1];
      exists prev :: Run(env, init, prev) && Step(env, prev, last, s)
  }

  ghost predicate Reachable(env: Env, s: Sys) {
    exists es :: Run(env, es, s)
  }

  lemma Extend(env: Env, s: Sys, e: Event, s': Sys)
    requires Reachable(env, s) && Step(env, s, e, s')
    ensures Reachable(env, s')
  {
    var es :| Run(env, es, s);
    var longer := es + [e];
    assert longer[..|longer| - 1] == es && longer[|longer| - 1] == e;
    assert Run(env, longer, s');
  }

  // ---------------------------------------------------------------- fault assumption

  ghost function Faulty(env: Env): int {
    env.cfg.maxRank - |env.correct|
  }

  /** One vote may be recorded twice when the scans skip entry 0 and a faulty peer repeats it. */
  ghost function Doubled(env: Env): nat {
    if env.cfg.scanFrom == 1 && Repeats(env) then 1 else 0
  }

  /** Faulty votes alone cannot trigger the amplification. */
  ghost predicate Outvoted(env: Env) {
    Faulty(env) + Doubled(env) <= env.cfg.maxFaulty
  }

  /** In addition, two echo quorums cannot be filled by disjoint sets of correct peers. */
  ghost predicate Safe(env: Env) {
    && 2 * (EchoThreshold(env.cfg) + 1 - Faulty(env) - Doubled(env)) > |env.correct|
    && Outvoted(env)
  }

  /** The intended rule of one entry per sender is safe whenever at most f peers are faulty. */
  lemma OneEntryPerSenderIsSafe(env: Env)
    requires WellFormed(env) && env.cfg.scanFrom == 0 && Faulty(env) <= env.cfg.maxFaulty
    ensures Safe(env)
  {
  }

  /** For the scans as written, at most f faulty peers are safe in exactly these cases. */
  lemma LiteralScanIsSafe(env: Env)
    requires WellFormed(env) && env.cfg.scanFrom == 1 && Faulty(env) <= env.cfg.maxFaulty
    ensures var b, f, n := Faulty(env), env.cfg.maxFaulty, env.cfg.maxRank;
            Safe(env) <==> b == 0 || b + 2 <= f || (b + 1 == f && (n + f) % 2 == 0)
  {
    SubsetSize(env.correct, All(env.cfg.maxRank));
  }

  // ---------------------------------------------------------------- invariants

  ghost predicate Domains(env: Env, s: Sys) {
    && s.peers.Keys == env.correct
    && s.log.Keys == env.correct
    && (forall c :: c in s.sent ==> c.src in env.correct)
    && HandledWereSent(env, s.handled, s.sent)
  }

  /** The authenticated links deliver nothing in the name of a correct peer that it did not send. */
  ghost predicate HandledWereSent(env: Env, handled: set<(Rank, Cast)>, sent: set<Cast>) {
    forall p, c :: (p, c) in handled && c.src in env.correct ==> c in sent
  }

  /** A correct peer sends one ECHO and one READY at most, and its flags say whether it has. */
  ghost predicate OneShot(peers: map<Rank, Peer>, sent: set<Cast>) {
    && (forall c :: c in sent && c.src in peers && c.code.Echo? ==> peers[c.src].sentEcho)
    && (forall c :: c in sent && c.src in peers && c.code.Ready? ==> peers[c.src].sentReady)
    && (forall c, d :: c in sent && d in sent && c.src == d.src && c.code == d.code && !c.code.Send? ==> c == d)
    && (forall p :: p in peers && peers[p].sentEcho ==> HasSent(sent, p, Echo))
    && (forall p :: p in peers && peers[p].sentReady ==> HasSent(sent, p, Ready))
  }

  ghost predicate HasSent(sent: set<Cast>, p: Rank, code: Code) {
    exists m :: Cast(p, code, m) in sent
  }

  /** A vote list holds votes the peer handled, and of correct peers every one of them. */
  ghost predicate VotesOf(env: Env, handled: set<(Rank, Cast)>, p: Rank, code: Code, list: seq<Entry>) {
    && Disciplined(list, env.cfg.scanFrom, Repeats(env))
    && (forall i :: 0 <= i < |list| ==>
          list[i].rank in All(env.cfg.maxRank) && (p, Cast(list[i].rank, code, list[i].body)) in handled)
    && (forall c :: (p, c) in handled && c.code == code && c.src in env.correct ==> Entry(c.src, c.body) in list)
  }

  ghost predicate Lists(env: Env, s: Sys) {
    forall p :: p in s.peers ==>
      VotesOf(env, s.handled, p, Echo, s.peers[p].echos) && VotesOf(env, s.handled, p, Ready, s.peers[p].readys)
  }

  /** The thresholds have been acted on, and a delivery had its 2f + 1 READYs. */
  ghost predicate PeerThresholds(cfg: Config, p: Peer, log: seq<Body>) {
    && (forall m :: Count(p.echos, m) > EchoThreshold(cfg) ==> p.sentReady)
    && (forall m :: Count(p.readys, m) > 2 * cfg.maxFaulty ==> p.delivered)
    && (cfg.maxFaulty > 0 ==> forall m :: Count(p.readys, m) > cfg.maxFaulty ==> p.sentReady)
    && |log| == (if p.delivered then 1 else 0)
    && (forall m :: m in log ==> Count(p.readys, m) > 2 * cfg.maxFaulty)
  }

  ghost predicate Thresholds(env: Env, s: Sys) {
    forall p :: p in s.peers && p in s.log ==> PeerThresholds(env.cfg, s.peers[p], s.log[p])
  }

  /** What the designated sender sent, if it is correct, is what correct peers echo. */
  ghost predicate Origins(env: Env, s: Sys) {
    var sender := env.cfg.senderRank;
    && (forall p, c :: (p, c) in s.handled && p in s.peers && c.code.Send? && c.src == sender ==> s.peers[p].sentEcho)
    && (sender in env.correct ==> EchoesOriginate(env, s.sent))
  }

  ghost predicate EchoesOriginate(env: Env, sent: set<Cast>) {
    forall c :: c in sent && c.code.Echo? ==> Cast(env.cfg.senderRank, Send, c.body) in sent
  }

  ghost function Senders(env: Env, sent: set<Cast>, code: Code, body: Body): set<Rank> {
    set p | p in env.correct && Cast(p, code, body) in sent
  }

  /** Enough correct peers echoed the body for a quorum to have been possible. */
  ghost predicate Supported(env: Env, sent: set<Cast>, body: Body) {
    |Senders(env, sent, Echo, body)| + Faulty(env) + Doubled(env) > EchoThreshold(env.cfg)
  }

  ghost predicate ReadysSupported(env: Env, sent: set<Cast>) {
    forall c :: c in sent && c.code.Ready? ==> Supported(env, sent, c.body)
  }

  ghost predicate Inv(env: Env, s: Sys) {
    && Domains(env, s)
    && OneShot(s.peers, s.sent)
    && Lists(env, s)
    && Thresholds(env, s)
    && Origins(env, s)
    && (Outvoted(env) ==> ReadysSupported(env, s.sent))
  }

  // ---------------------------------------------------------------- preservation

  lemma OneShotStep(s: Sys, p: Rank, c: Cast, out: Outcome)
    requires p in s.peers && p in s.log && FlagsFollow(s.peers[p], out) && OneShot(s.peers, s.sent)
    ensures var s' := Apply(s, p, c, out); OneShot(s'.peers, s'.sent)
  {
    var s' := Apply(s, p, c, out);
    forall q | q in s'.peers
      ensures s'.peers[q].sentEcho ==> HasSent(s'.sent, q, Echo)
      ensures s'.peers[q].sentReady ==> HasSent(s'.sent, q, Ready)
    {
      if HasSent(s.sent, q, Echo) {
        var m :| Cast(q, Echo, m) in s.sent;
        assert Cast(q, Echo, m) in s'.sent;
      } else if s'.peers[q].sentEcho {
        assert Cast(q, Echo, out.effect.body) in s'.sent;
      }
      if HasSent(s.sent, q, Ready) {
        var m :| Cast(q, Ready, m) in s.sent;
        assert Cast(q, Ready, m) in s'.sent;
      } else if s'.peers[q].sentReady {
        assert Cast(q, Ready, out.effect.body) in s'.sent;
      }
    }
  }

  /** Handling a cast keeps what is known of the list it may be recorded in. */
  lemma VotesStep(env: Env, s: Sys, p: Rank, c: Cast, code: Code, list: seq<Entry>, list': seq<Entry>)
    requires WellFormed(env) && c.src in All(env.cfg.maxRank) && !code.Send?
    requires c.src in env.correct && c.code == code ==> c in s.sent && (Repeats(env) || (p, c) !in s.handled)
    requires HandledWereSent(env, s.handled, s.sent) && OneShot(s.peers, s.sent)
    requires VotesOf(env, s.handled, p, code, list)
    requires ListFollows(list, list', env.cfg.scanFrom, c.code == code, Entry(c.src, c.body))
    ensures VotesOf(env, s.handled + {(p, c)}, p, code, list')
  {
    if c.code == code && c.src in env.correct {
      RecordedIsThis(env, s, p, c, list);
    }
    if !Repeats(env) {
      SubsetSize(env.correct, All(env.cfg.maxRank));
    }
    forall d | (p, d) in s.handled + {(p, c)} && d.code == code && d.src in env.correct
      ensures Entry(d.src, d.body) in list'
    {
      if (p, d) in s.handled {
        var i :| 0 <= i < |list| && list[i] == Entry(d.src, d.body);
        assert list'[i] == list[i];
      } else if !Recorded(list, env.cfg.scanFrom, c.src) {
        assert list'[|list|] == Entry(d.src, d.body);
      }
    }
  }

  /** A correct peer's rank stands in the list for this very vote. */
  lemma RecordedIsThis(env: Env, s: Sys, p: Rank, c: Cast, list: seq<Entry>)
    requires c.src in env.correct && !c.code.Send? && c in s.sent && VotesOf(env, s.handled, p, c.code, list)
    requires HandledWereSent(env, s.handled, s.sent) && OneShot(s.peers, s.sent)
    ensures forall i :: 0 <= i < |list| && list[i].rank == c.src ==> list[i].body == c.body && (p, c) in s.handled
  {
    forall i | 0 <= i < |list| && list[i].rank == c.src
      ensures list[i].body == c.body && (p, c) in s.handled
    {
      var d := Cast(list[i].rank, c.code, list[i].body);
      assert (p, d) in s.handled;
      assert d == c;
    }
  }

  /** Another peer's event leaves a list as it is. */
  lemma VotesKept(env: Env, handled: set<(Rank, Cast)>, p: Rank, c: Cast, q: Rank, code: Code, list: seq<Entry>)
    requires q != p && VotesOf(env, handled, q, code, list)
    ensures VotesOf(env, handled + {(p, c)}, q, code, list)
  {
  }

  lemma ListsStep(env: Env, s: Sys, p: Rank, c: Cast, out: Outcome)
    requires WellFormed(env) && p in s.peers && p in s.log && Enabled(env, s, Arrival(p, c)) && Lists(env, s)
    requires HandledWereSent(env, s.handled, s.sent) && OneShot(s.peers, s.sent)
    requires ListFollows(s.peers[p].echos, out.peer.echos, env.cfg.scanFrom, c.code.Echo?, Entry(c.src, c.body))
    requires ListFollows(s.peers[p].readys, out.peer.readys, env.cfg.scanFrom, c.code.Ready?, Entry(c.src, c.body))
    ensures Lists(env, Apply(s, p, c, out))
  {
    var s' := Apply(s, p, c, out);
    forall q | q in s'.peers
      ensures VotesOf(env, s'.handled, q, Echo, s'.peers[q].echos)
      ensures VotesOf(env, s'.handled, q, Ready, s'.peers[q].readys)
    {
      if q == p {
        VotesStep(env, s, p, c, Echo, s.peers[p].echos, out.peer.echos);
        VotesStep(env, s, p, c, Ready, s.peers[p].readys, out.peer.readys);
      } else {
        VotesKept(env, s.handled, p, c, q, Echo, s.peers[q].echos);
        VotesKept(env, s.handled, p, c, q, Ready, s.peers[q].readys);
      }
    }
  }

  ghost function Logged(log: seq<Body>, out: Outcome): seq<Body> {
    if out.effect.Deliver? then log + [out.effect.body] else log
  }

  lemma EchoThresholds(cfg: Config, p: Peer, log: seq<Body>, sender: Rank, body: Body)
    requires PeerThresholds(cfg, p, log)
    ensures var out := OnEcho(cfg, p, sender, body); PeerThresholds(cfg, out.peer, Logged(log, out))
  {
    forall m: Body
      ensures Count(p.echos + [Entry(sender, body)], m) == Count(p.echos, m) + if body == m then 1 else 0
    {
      CountSnoc(p.echos, Entry(sender, body), m);
    }
  }

  lemma ReadyThresholds(cfg: Config, p: Peer, log: seq<Body>, sender: Rank, body: Body)
    requires PeerThresholds(cfg, p, log)
    ensures var out := OnReady(cfg, p, sender, body); PeerThresholds(cfg, out.peer, Logged(log, out))
  {
    forall m: Body
      ensures Count(p.readys + [Entry(sender, body)], m) == Count(p.readys, m) + if body == m then 1 else 0
    {
      CountSnoc(p.readys, Entry(sender, body), m);
    }
  }

  lemma PeerThresholdsStep(cfg: Config, p: Peer, log: seq<Body>, c: Cast)
    requires PeerThresholds(cfg, p, log)
    ensures var out := On(cfg, p, c.src, c.code, c.body); PeerThresholds(cfg, out.peer, Logged(log, out))
  {
    match c.code
    case Send =>
    case Echo => EchoThresholds(cfg, p, log, c.src, c.body);
    case Ready => ReadyThresholds(cfg, p, log, c.src, c.body);
  }

  lemma OriginsStep(env: Env, s: Sys, p: Rank, c: Cast, out: Outcome)
    requires p in s.peers && p in s.log && Origins(env, s)
    requires FlagsFollow(s.peers[p], out) && Justified(env.cfg, c.src, c.code, c.body, out)
    requires c.src in env.correct ==> c in s.sent
    ensures Origins(env, Apply(s, p, c, out))
  {
  }

  lemma SupportGrows(env: Env, sent: set<Cast>, sent': set<Cast>, body: Body)
    requires sent <= sent' && Supported(env, sent, body)
    ensures Supported(env, sent', body)
  {
    SubsetSize(Senders(env, sent, Echo, body), Senders(env, sent', Echo, body));
  }

  /** Votes beyond those of correct peers are bounded by the fault assumption. */
  lemma VotesBounded(env: Env, handled: set<(Rank, Cast)>, sent: set<Cast>,
                     p: Rank, code: Code, list: seq<Entry>, body: Body)
    requires WellFormed(env) && HandledWereSent(env, handled, sent) && VotesOf(env, handled, p, code, list)
    ensures Count(list, body) <= |Senders(env, sent, code, body)| + Faulty(env) + Doubled(env)
  {
    forall i | 0 <= i < |list| && list[i].body == body && list[i].rank in env.correct
      ensures list[i].rank in Senders(env, sent, code, body)
    {
      assert (p, Cast(list[i].rank, code, list[i].body)) in handled;
    }
    CountBound(list, env.cfg.scanFrom, Repeats(env), env.cfg.maxRank,
               env.correct, Senders(env, sent, code, body), body);
  }

  /** A new READY rests on an echo quorum, or follows a READY of a correct peer for the same body. */
  lemma NewReadySupported(env: Env, s: Sys, p: Rank, c: Cast, out: Outcome)
    requires WellFormed(env) && Outvoted(env) && p in s.log && ReadysSupported(env, s.sent)
    requires HandledWereSent(env, s.handled + {(p, c)}, s.sent)
    requires out.effect.Broadcast? && out.effect.code.Ready? && Justified(env.cfg, c.src, c.code, c.body, out)
    requires VotesOf(env, s.handled + {(p, c)}, p, Echo, out.peer.echos)
    requires VotesOf(env, s.handled + {(p, c)}, p, Ready, out.peer.readys)
    ensures Supported(env, s.sent, c.body)
  {
    if c.code.Echo? {
      VotesBounded(env, s.handled + {(p, c)}, s.sent, p, Echo, out.peer.echos, c.body);
    } else {
      VotesBounded(env, s.handled + {(p, c)}, s.sent, p, Ready, out.peer.readys, c.body);
      assert |Senders(env, s.sent, Ready, c.body)| > 0;
      var q :| q in Senders(env, s.sent, Ready, c.body);
      assert Cast(q, Ready, c.body) in s.sent;
    }
  }

  lemma ReadysSupportedStep(env: Env, s: Sys, p: Rank, c: Cast, out: Outcome)
    requires p in s.log && ReadysSupported(env, s.sent)
    requires out.effect.Broadcast? && out.effect.code.Ready? ==> Supported(env, s.sent, out.effect.body)
    ensures ReadysSupported(env, Apply(s, p, c, out).sent)
  {
    var sent' := Apply(s, p, c, out).sent;
    forall d | d in sent' && d.code.Ready?
      ensures Supported(env, sent', d.body)
    {
      SupportGrows(env, s.sent, sent', d.body);
    }
  }

  lemma InvArrival(env: Env, s: Sys, p: Rank, c: Cast)
    requires WellFormed(env) && Inv(env, s) && Enabled(env, s, Arrival(p, c))
    ensures p in s.peers && p in s.log
    ensures Inv(env, Apply(s, p, c, On(env.cfg, s.peers[p], c.src, c.code, c.body)))
  {
    var out := On(env.cfg, s.peers[p], c.src, c.code, c.body);
    OnSummary(env.cfg, s.peers[p], c.src, c.code, c.body, out);
    PeerThresholdsStep(env.cfg, s.peers[p], s.log[p], c);
    InvOutcome(env, s, p, c, out);
  }

  lemma DomainsStep(env: Env, s: Sys, p: Rank, c: Cast, out: Outcome)
    requires p in env.correct && Domains(env, s) && (c.src in env.correct ==> c in s.sent)
    ensures Domains(env, Apply(s, p, c, out))
    ensures HandledWereSent(env, s.handled + {(p, c)}, s.sent)
  {
  }

  lemma InvOutcome(env: Env, s: Sys, p: Rank, c: Cast, out: Outcome)
    requires WellFormed(env) && Inv(env, s) && Enabled(env, s, Arrival(p, c))
    requires FlagsFollow(s.peers[p], out) && Justified(env.cfg, c.src, c.code, c.body, out)
    requires ListFollows(s.peers[p].echos, out.peer.echos, env.cfg.scanFrom, c.code.Echo?, Entry(c.src, c.body))
    requires ListFollows(s.peers[p].readys, out.peer.readys, env.cfg.scanFrom, c.code.Ready?, Entry(c.src, c.body))
    requires PeerThresholds(env.cfg, out.peer, Apply(s, p, c, out).log[p])
    ensures Inv(env, Apply(s, p, c, out))
  {
    DomainsStep(env, s, p, c, out);
    OneShotStep(s, p, c, out);
    ListsStep(env, s, p, c, out);
    ThresholdsStep(env, s, p, c, out);
    OriginsStep(env, s, p, c, out);
    if Outvoted(env) {
      OutvotedStep(env, s, p, c, out);
    }
  }

  lemma ThresholdsStep(env: Env, s: Sys, p: Rank, c: Cast, out: Outcome)
    requires p in s.peers && p in s.log && Thresholds(env, s)
    requires PeerThresholds(env.cfg, out.peer, Apply(s, p, c, out).log[p])
    ensures Thresholds(env, Apply(s, p, c, out))
  {
    var s' := Apply(s, p, c, out);
    forall q | q in s'.peers && q in s'.log
      ensures PeerThresholds(env.cfg, s'.peers[q], s'.log[q])
    {
      if q != p {
        assert s'.peers[q] == s.peers[q] && s'.log[q] == s.log[q];
      }
    }
  }

  lemma OutvotedStep(env: Env, s: Sys, p: Rank, c: Cast, out: Outcome)
    requires WellFormed(env) && Outvoted(env) && p in s.peers && p in s.log && ReadysSupported(env, s.sent)
    requires HandledWereSent(env, s.handled + {(p, c)}, s.sent)
    requires Justified(env.cfg, c.src, c.code, c.body, out)
    requires Lists(env, Apply(s, p, c, out))
    ensures ReadysSupported(env, Apply(s, p, c, out).sent)
  {
    if out.effect.Broadcast? && out.effect.code.Ready? {
      assert p in Apply(s, p, c, out).peers;
      NewReadySupported(env, s, p, c, out);
    }
    ReadysSupportedStep(env, s, p, c, out);
  }

  lemma RequestOneShot(peers: map<Rank, Peer>, sent: set<Cast>, c: Cast)
    requires OneShot(peers, sent) && c.code.Send?
    ensures OneShot(peers, sent + {c})
  {
    forall p, code | HasSent(sent, p, code)
      ensures HasSent(sent + {c}, p, code)
    {
      var m :| Cast(p, code, m) in sent;
      assert Cast(p, code, m) in sent + {c};
    }
  }

  lemma RequestSupported(env: Env, sent: set<Cast>, c: Cast)
    requires ReadysSupported(env, sent) && c.code.Send?
    ensures ReadysSupported(env, sent + {c})
  {
    forall d | d in sent + {c} && d.code.Ready?
      ensures Supported(env, sent + {c}, d.body)
    {
      SupportGrows(env, sent, sent + {c}, d.body);
    }
  }

  lemma RequestOrigins(env: Env, s: Sys, c: Cast)
    requires Domains(env, s) && Origins(env, s) && c.src in env.correct && c.code.Send?
    ensures var s' := s.(sent := s.sent + {c}); Domains(env, s') && Origins(env, s')
  {
  }

  lemma InvRequest(env: Env, s: Sys, p: Rank, body: Body)
    requires p in env.correct && Inv(env, s)
    ensures Inv(env, s.(sent := s.sent + {Cast(p, Send, body)}))
  {
    var c := Cast(p, Send, body);
    RequestOneShot(s.peers, s.sent, c);
    RequestOrigins(env, s, c);
    if Outvoted(env) {
      RequestSupported(env, s.sent, c);
    }
  }

  lemma {:induction false} InvRun(env: Env, es: seq<Event>, s: Sys)
    requires WellFormed(env) && Run(env, es, s)
    ensures Inv(env, s)
  {
    if |es| > 0 {
      var init, last := es[..|es| - 1], es[|es| - 1];
      var prev :| Run(env, init, prev) && Step(env, prev, last, s);
      InvRun(env, init, prev);
      InvStep(env, prev, last, s);
    }
  }

  lemma InvStep(env: Env, s: Sys, e: Event, s': Sys)
    requires WellFormed(env) && Inv(env, s) && Step(env, s, e, s')
    ensures Inv(env, s')
  {
    match e
    case Request(p, body) => InvRequest(env, s, p, body);
    case Arrival(p, c) => InvArrival(env, s, p, c);
  }

  /** Every reachable state satisfies the invariant. */
  lemma ReachableInv(env: Env, s: Sys)
    requires WellFormed(env) && Reachable(env, s)
    ensures Inv(env, s)
  {
    var es :| Run(env, es, s);
    InvRun(env, es, s);
  }
}
