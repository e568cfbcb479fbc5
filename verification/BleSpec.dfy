/** Byzantine leader election, one peer: complaints about the leader of a round make the round advance. */
module BleSpec {
  import opened Ranks

  datatype Config = Config(maxRank: nat, maxFaulty: nat)

  /** `complains` holds the ranks heard complaining about the current round. */
  datatype Peer = Peer(round: nat, complained: bool, complains: seq<Rank>)

  const FRESH_PEER := Peer(0, false, [])

  /** `sends`: the peer complains about its round to all others; `advances`: it enters the next round. */
  datatype Outcome = Outcome(peer: Peer, sends: bool, advances: bool)

  function Leader(n: nat, round: nat): Rank
    requires n > 0
  {
    round % n + 1
  }

  function OnComplain(p: Peer): Outcome {
    Outcome(p.(complained := true), true, false)
  }

  /** A complaint about another round, or a second one of the same sender, is ignored. */
  function OnComplaint(cfg: Config, p: Peer, sender: Rank, round: int): Outcome {
    if round != p.round || sender in p.complains then Outcome(p, false, false)
    else
      var complains := p.complains + [sender];
      var amplifies := |complains| > cfg.maxFaulty && !p.complained;
      if |complains| > 2 * cfg.maxFaulty
      then Outcome(Peer(p.round + 1, false, []), amplifies, true)
      else Outcome(Peer(p.round, p.complained || amplifies, complains), amplifies, false)
  }
}
