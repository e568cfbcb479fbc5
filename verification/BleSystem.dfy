/**
 Runs of Byzantine leader election over authenticated links: complaints of correct peers go to all
 others; faulty peers may make any complaint arrive anywhere under their own rank, and again whatever
 a correct peer has signed. A client may complain several times, so complaints may arrive repeatedly.
 */
module BleSystem {
  import opened Ranks
  import opened BleSpec

  datatype Complaint = Complaint(src: Rank, round: nat)

  datatype Env = Env(cfg: Config, correct: set<Rank>)

  /**
   `handled` holds which peer has handled which complaint, `clients` the complaints that clients asked
   for, `trusts` the leaders announced.
   */
  datatype Sys = Sys(
    peers: map<Rank, Peer>, sent: set<Complaint>, handled: set<(Rank, Complaint)>, clients: set<Complaint>,
    trusts: map<Rank, seq<Rank>>)

  datatype Event = Complain(peer: Rank) | Arrival(peer: Rank, src: Rank, round: int)

  ghost predicate WellFormed(env: Env) {
    env.correct <= All(env.cfg.maxRank)
  }

  ghost function Faulty(env: Env): int {
    env.cfg.maxRank - |env.correct|
  }

  ghost function Init(env: Env): Sys {
    Sys(map p | p in env.correct :: FRESH_PEER, {}, {}, {}, map p | p in env.correct :: [])
  }

  /**
   Complaints are not sent to oneself, but a faulty peer can bring one back; the links add nothing in
   the name of a correct peer.
   */
  ghost predicate Enabled(env: Env, s: Sys, e: Event) {
    && e.peer in env.correct
    && (e.Arrival? ==>
          && e.src in All(env.cfg.maxRank)
          && (e.src in env.correct ==> e.round >= 0 && Complaint(e.src, e.round) in s.sent)
          && (e.src == e.peer ==> |env.correct| < env.cfg.maxRank))
  }

  ghost function Apply(env: Env, s: Sys, p: Rank, out: Outcome, client: bool): Sys
    requires p in s.peers && p in s.trusts && env.cfg.maxRank > 0
  {
    var mine := Complaint(p, s.peers[p].round);
    Sys(
      s.peers[p := out.peer],
      if out.sends then s.sent + {mine} else s.sent,
      s.handled,
      if client then s.clients + {mine} else s.clients,
      s.trusts[p := if out.advances then s.trusts[p] + [Leader(env.cfg.maxRank, out.peer.round)] else s.trusts[p]])
  }

  ghost function Next(env: Env, s: Sys, e: Event): Sys
    requires e.peer in s.peers && e.peer in s.trusts && env.cfg.maxRank > 0
  {
    match e
    case Complain(p) => Apply(env, s, p, OnComplain(s.peers[p]), true)
    case Arrival(p, src, round) =>
      var s' := Apply(env, s, p, OnComplaint(env.cfg, s.peers[p], src, round), false);
      s'.(handled := if round >= 0 then s.handled + {(p, Complaint(src, round))} else s.handled)
  }

  ghost predicate Step(env: Env, s: Sys, e: Event, s': Sys) {
    && e.peer in s.peers && e.peer in s.trusts && env.cfg.maxRank > 0
    && Enabled(env, s, e)
    && s' == Next(env, s, e)
  }

  ghost predicate Run(env: Env, es: seq<Event>, s: Sys) {
    if |es| == 0 then s == Init(env)
    else
      var init, last := es[..|es| - 1], es[|es| - 1];
      exists prev :: Run(env, init, prev) && Step(env, prev, last, s)
  }

  ghost predicate Reachable(env: Env, s: Sys) {
    exists es :: Run(env, es, s)
  }

  // ---------------------------------------------------------------- invariants

  /** The correct peers that complained about a round. */
  ghost function Complainers(env: Env, sent: set<Complaint>, round: nat): set<Rank> {
    set q | q in env.correct && Complaint(q, round) in sent
  }

  /** A correct client complained about the round. */
  ghost predicate ClientComplained(env: Env, clients: set<Complaint>, round: nat) {
    exists q :: q in env.correct && Complaint(q, round) in clients
  }

  /** A peer's list holds distinct ranks, and of correct ones only complaints sent about this round. */
  ghost predicate PeerInv(env: Env, self: Rank, p: Peer, sent: set<Complaint>) {
    && NoDuplicates(p.complains)
    && |p.complains| <= 2 * env.cfg.maxFaulty
    && (forall r :: r in p.complains ==>
          r in All(env.cfg.maxRank) && (r in env.correct ==> Complaint(r, p.round) in sent))
    && (p.complained ==> Complaint(self, p.round) in sent)
  }

  ghost predicate Announced(env: Env, round: nat, trusts: seq<Rank>) {
    && |trusts| == round
    && (env.cfg.maxRank > 0 ==> forall i :: 0 <= i < |trusts| ==> trusts[i] == Leader(env.cfg.maxRank, i + 1))
  }

  ghost predicate Domains(env: Env, s: Sys) {
    && s.peers.Keys == env.correct == s.trusts.Keys
    && (forall c :: c in s.sent ==> c.src in env.correct && c.round <= s.peers[c.src].round)
  }

  ghost predicate Peers(env: Env, s: Sys) {
    forall p :: p in s.peers && p in s.trusts ==>
      PeerInv(env, p, s.peers[p], s.sent) && Announced(env, s.peers[p].round, s.trusts[p])
  }

  /** Complaints of correct peers go back to a client, and passed rounds to f + 1 correct complainers. */
  ghost predicate Justified(env: Env, s: Sys) {
    && (forall c :: c in s.sent ==> ClientComplained(env, s.clients, c.round))
    && (forall p, r: nat :: p in s.peers && r < s.peers[p].round ==>
          |Complainers(env, s.sent, r)| >= env.cfg.maxFaulty + 1)
  }

  ghost predicate Inv(env: Env, s: Sys) {
    Domains(env, s) && Peers(env, s) && (Faulty(env) <= env.cfg.maxFaulty ==> Justified(env, s))
  }

  // ---------------------------------------------------------------- counting

  ghost function Elements(s: seq<Rank>): set<Rank> {
    set i | 0 <= i < |s| :: s[i]
  }

  lemma {:induction false} ElementsSize(s: seq<Rank>)
    requires NoDuplicates(s)
    ensures |Elements(s)| == |s|
  {
    if |s| > 0 {
      var init, last := s[..|s| - 1], s[|s| - 1];
      ElementsSize(init);
      assert Elements(s) == Elements(init) + {last};
      assert last !in Elements(init);
    } else {
      assert Elements(s) == {};
    }
  }

  /** Distinct complainers beyond the correct ones number at most the faulty peers. */
  lemma CorrectAmong(env: Env, complains: seq<Rank>, backers: set<Rank>)
    requires WellFormed(env) && NoDuplicates(complains)
    requires forall r :: r in complains ==> r in All(env.cfg.maxRank) && (r in env.correct ==> r in backers)
    ensures |complains| <= |backers| + Faulty(env)
  {
    var faulty := All(env.cfg.maxRank) - env.correct;
    assert All(env.cfg.maxRank) == faulty + env.correct;
    ElementsSize(complains);
    assert Elements(complains) <= backers + faulty;
    SubsetSize(Elements(complains), backers + faulty);
    UnionSize(backers, faulty);
  }

  // ---------------------------------------------------------------- preservation

  /** What a handler does: at most one complaint, about the old round; a round later if it advances. */
  ghost predicate Follows(cfg: Config, p: Peer, out: Outcome) {
    && out.peer.round == (if out.advances then p.round + 1 else p.round)
    && (out.peer.complained ==> !out.advances && (p.complained || out.sends))
  }

  lemma DomainsStep(env: Env, s: Sys, p: Rank, out: Outcome, client: bool)
    requires env.cfg.maxRank > 0 && Domains(env, s) && p in s.peers && Follows(env.cfg, s.peers[p], out)
    ensures Domains(env, Apply(env, s, p, out, client))
  {
  }

  lemma PeersStep(env: Env, s: Sys, p: Rank, out: Outcome, client: bool)
    requires env.cfg.maxRank > 0 && Peers(env, s) && p in s.peers && p in s.trusts && Follows(env.cfg, s.peers[p], out)
    requires PeerInv(env, p, out.peer, Apply(env, s, p, out, client).sent)
    ensures Peers(env, Apply(env, s, p, out, client))
  {
  }

  lemma ClientsGrow(env: Env, clients: set<Complaint>, clients': set<Complaint>, round: nat)
    requires clients <= clients' && ClientComplained(env, clients, round)
    ensures ClientComplained(env, clients', round)
  {
    var q :| q in env.correct && Complaint(q, round) in clients;
    assert Complaint(q, round) in clients';
  }

  /** `out.sends` must go back to a client, and an advance to f + 1 correct complainers. */
  lemma JustifiedStep(env: Env, s: Sys, p: Rank, out: Outcome, client: bool)
    requires env.cfg.maxRank > 0 && Justified(env, s) && p in s.peers && p in s.trusts && p in env.correct
    requires Follows(env.cfg, s.peers[p], out)
    requires out.sends ==> client || ClientComplained(env, s.clients, s.peers[p].round)
    requires out.advances ==> |Complainers(env, s.sent, s.peers[p].round)| >= env.cfg.maxFaulty + 1
    ensures Justified(env, Apply(env, s, p, out, client))
  {
    var s' := Apply(env, s, p, out, client);
    forall c | c in s'.sent
      ensures ClientComplained(env, s'.clients, c.round)
    {
      if c in s.sent || !client {
        ClientsGrow(env, s.clients, s'.clients, c.round);
      } else {
        assert Complaint(p, c.round) in s'.clients;
      }
    }
    forall q, r: nat | q in s'.peers && r < s'.peers[q].round
      ensures |Complainers(env, s'.sent, r)| >= env.cfg.maxFaulty + 1
    {
      SubsetSize(Complainers(env, s.sent, r), Complainers(env, s'.sent, r));
    }
  }

  lemma InvComplain(env: Env, s: Sys, p: Rank)
    requires WellFormed(env) && Inv(env, s) && p in env.correct && env.cfg.maxRank > 0
    ensures Inv(env, Apply(env, s, p, OnComplain(s.peers[p]), true))
  {
    var out := OnComplain(s.peers[p]);
    DomainsStep(env, s, p, out, true);
    PeersStep(env, s, p, out, true);
    if Faulty(env) <= env.cfg.maxFaulty {
      JustifiedStep(env, s, p, out, true);
    }
  }

  lemma OnComplaintFollows(env: Env, s: Sys, p: Rank, src: Rank, round: int, out: Outcome)
    requires p in s.peers && PeerInv(env, p, s.peers[p], s.sent) && p in s.trusts && env.cfg.maxRank > 0
    requires src in All(env.cfg.maxRank)
    requires src in env.correct ==> round >= 0 && Complaint(src, round) in s.sent
    requires out == OnComplaint(env.cfg, s.peers[p], src, round)
    ensures Follows(env.cfg, s.peers[p], out)
    ensures PeerInv(env, p, out.peer, Apply(env, s, p, out, false).sent)
  {
  }

  /** Amplification and advance need more complaints than the faulty peers can make. */
  lemma OnComplaintJustified(env: Env, s: Sys, p: Rank, src: Rank, round: int, out: Outcome)
    requires WellFormed(env) && Faulty(env) <= env.cfg.maxFaulty && Justified(env, s)
    requires p in s.peers && PeerInv(env, p, s.peers[p], s.sent)
    requires src in All(env.cfg.maxRank)
    requires src in env.correct ==> round >= 0 && Complaint(src, round) in s.sent
    requires out == OnComplaint(env.cfg, s.peers[p], src, round)
    ensures out.sends ==> ClientComplained(env, s.clients, s.peers[p].round)
    ensures out.advances ==> |Complainers(env, s.sent, s.peers[p].round)| >= env.cfg.maxFaulty + 1
  {
    var r := s.peers[p].round;
    if out.sends || out.advances {
      var complains := s.peers[p].complains + [src];
      CorrectAmong(env, complains, Complainers(env, s.sent, r));
      assert |Complainers(env, s.sent, r)| > 0;
      var q :| q in Complainers(env, s.sent, r);
      assert Complaint(q, r) in s.sent;
    }
  }

  lemma InvArrival(env: Env, s: Sys, p: Rank, src: Rank, round: int)
    requires WellFormed(env) && Inv(env, s) && Enabled(env, s, Arrival(p, src, round)) && env.cfg.maxRank > 0
    ensures p in s.peers && p in s.trusts && Inv(env, Next(env, s, Arrival(p, src, round)))
  {
    var out := OnComplaint(env.cfg, s.peers[p], src, round);
    OnComplaintFollows(env, s, p, src, round, out);
    DomainsStep(env, s, p, out, false);
    PeersStep(env, s, p, out, false);
    if Faulty(env) <= env.cfg.maxFaulty {
      OnComplaintJustified(env, s, p, src, round, out);
      JustifiedStep(env, s, p, out, false);
    }
  }

  lemma {:induction false} InvRun(env: Env, es: seq<Event>, s: Sys)
    requires WellFormed(env) && Run(env, es, s)
    ensures Inv(env, s)
  {
    if |es| > 0 {
      var init, last := es[..|es| - 1], es[|es| - 1];
      var prev :| Run(env, init, prev) && Step(env, prev, last, s);
      InvRun(env, init, prev);
      match last
      case Complain(p) => InvComplain(env, prev, p);
      case Arrival(p, src, round) => InvArrival(env, prev, p, src, round);
    }
  }

  /** Every reachable state satisfies the invariant. */
  lemma ReachableInv(env: Env, s: Sys)
    requires WellFormed(env) && Reachable(env, s)
    ensures Inv(env, s)
  {
    var es :| Run(env, es, s);
    InvRun(env, es, s);
  }
}
