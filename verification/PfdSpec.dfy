/** The perfect failure detector and the monarchical leader election that runs in its callback, one peer. */
module PfdSpec {
  import opened Ranks

  datatype Config = Config(localRank: Rank, maxRank: nat)

  predicate IsOther(cfg: Config, p: Rank) {
    1 <= p <= cfg.maxRank && p != cfg.localRank
  }

  /** The other peers up to rank n, in rank order. */
  function Others(cfg: Config, n: nat): (r: seq<Rank>)
    ensures forall p :: p in r <==> 1 <= p <= n && p != cfg.localRank
  {
    if n == 0 then [] else Others(cfg, n - 1) + if n == cfg.localRank then [] else [n]
  }

  // ---------------------------------------------------------------- election

  /** `announced`: the leaders passed to the callback when a leader crashed. */
  datatype Elector = Elector(crashed: seq<Rank>, leader: nat, announced: seq<nat>)

  /** The highest rank up to n that has not crashed, 0 if there is none. */
  function Highest(crashed: seq<Rank>, n: nat): (r: nat)
    ensures r <= n && (r !in crashed || r == 0)
    ensures forall p :: r < p <= n ==> p in crashed
  {
    if n == 0 || n !in crashed then n else Highest(crashed, n - 1)
  }

  function OnCrash(maxRank: nat, e: Elector, p: Rank): Elector {
    var crashed := e.crashed + [p];
    if p != e.leader then e.(crashed := crashed)
    else
      var leader := Highest(crashed, maxRank);
      Elector(crashed, leader, e.announced + [leader])
  }

  // ---------------------------------------------------------------- detection

  /** `alive`: who answered since the last timeout; `faulty`: who was reported. */
  datatype Peer = Peer(alive: seq<Rank>, faulty: seq<Rank>, elector: Elector)

  /** At the start everybody else counts as alive, and the highest rank leads. */
  function FreshPeer(cfg: Config): Peer {
    Peer(Others(cfg, cfg.maxRank), [], Elector([], cfg.maxRank, []))
  }

  /** What a timeout does about one rank. */
  function Check(cfg: Config, d: Peer, p: Rank): Peer {
    if p == cfg.localRank || p in d.alive || p in d.faulty then d
    else Peer(d.alive, d.faulty + [p], OnCrash(cfg.maxRank, d.elector, p))
  }

  /** A timeout in progress: ranks 1..n have been checked. */
  function Checked(cfg: Config, d: Peer, n: nat): Peer {
    if n == 0 then d else Check(cfg, Checked(cfg, d, n - 1), n)
  }

  function OnTimeout(cfg: Config, d: Peer): Peer {
    Checked(cfg, d, cfg.maxRank).(alive := [])
  }

  function OnAlive(d: Peer, sender: Rank): Peer {
    d.(alive := d.alive + [sender])
  }

  // ---------------------------------------------------------------- runs

  datatype Event = Alive(sender: Rank) | Timeout

  function Run(cfg: Config, events: seq<Event>): Peer {
    if |events| == 0 then FreshPeer(cfg)
    else
      var before := Run(cfg, events[..|events| - 1]);
      match events[|events| - 1]
      case Alive(sender) => OnAlive(before, sender)
      case Timeout => OnTimeout(cfg, before)
  }
}
