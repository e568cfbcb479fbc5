/** Eventual leader election, one peer: whoever restarted least often leads, the highest rank among equals. */
module EleSpec {
  import opened Ranks

  datatype Config = Config(localRank: Rank, localEpoch: int, maxRank: nat)

  datatype Heartbeat = Heartbeat(sender: Rank, epoch: int)

  /** `trusts`: the leaders passed to the callback; `period`: seconds until the next timeout. */
  datatype Elector = Elector(candidates: seq<Heartbeat>, leader: Rank, period: nat, trusts: seq<Rank>)

  const HEARTBEAT_INTERVAL := 4
  const HEARTBEAT_INCREMENT := 2

  function FreshElector(cfg: Config): Elector {
    Elector([], cfg.maxRank, HEARTBEAT_INTERVAL, [])
  }

  /** A first heartbeat is kept; one of a later epoch takes out the sender's entry and is not kept itself. */
  function Hear(candidates: seq<Heartbeat>, hb: Heartbeat): seq<Heartbeat> {
    if |candidates| == 0 then [hb]
    else if candidates[0].sender != hb.sender then [candidates[0]] + Hear(candidates[1..], hb)
    else if candidates[0].epoch < hb.epoch then candidates[1..]
    else candidates
  }

  predicate Better(a: Heartbeat, b: Heartbeat) {
    a.epoch < b.epoch || (a.sender > b.sender && a.epoch == b.epoch)
  }

  /** The scan of a timeout, from the front of the list. */
  function Best(candidates: seq<Heartbeat>, start: Heartbeat): Heartbeat {
    if |candidates| == 0 then start
    else
      var last, before := candidates[|candidates| - 1], Best(candidates[..|candidates| - 1], start);
      if Better(last, before) then last else before
  }

  function OnTimeout(cfg: Config, e: Elector): Elector {
    var best := Best(e.candidates, Heartbeat(cfg.localRank, cfg.localEpoch)).sender;
    if best != e.leader
    then Elector([], best, e.period + HEARTBEAT_INCREMENT, e.trusts + [best])
    else e.(candidates := [])
  }

  datatype Event = Heard(hb: Heartbeat) | Timeout

  function Run(cfg: Config, events: seq<Event>): Elector {
    if |events| == 0 then FreshElector(cfg)
    else
      var before := Run(cfg, events[..|events| - 1]);
      match events[|events| - 1]
      case Heard(hb) => before.(candidates := Hear(before.candidates, hb))
      case Timeout => OnTimeout(cfg, before)
  }
}
