/** The eventually perfect failure detector, one peer: suspicions are withdrawn when a peer is heard again. */
module EpfdSpec {
  import opened Ranks
  import opened PfdSpec

  datatype Note = Suspect(peer: Rank) | Restore(peer: Rank)

  /** `alive`: who answered since the last timeout; `notes`: what the two callbacks were given. */
  datatype Watcher = Watcher(alive: seq<Rank>, suspected: seq<Rank>, notes: seq<Note>)

  function Zeros(n: nat): (r: seq<Rank>)
    ensures |r| == n && forall i :: 0 <= i < n ==> r[i] == 0
  {
    if n == 0 then [] else Zeros(n - 1) + [0]
  }

  /** The list of answers starts out with zeros, one for each other peer below the highest rank. */
  function FreshWatcher(cfg: Config): Watcher {
    Watcher(Zeros(|Others(cfg, if cfg.maxRank == 0 then 0 else cfg.maxRank - 1)|), [], [])
  }

  /** The list after its first entry r is taken out. */
  function Without(list: seq<Rank>, r: Rank): (rest: seq<Rank>)
  {
    if |list| == 0 then [] else if list[0] == r then list[1..] else [list[0]] + Without(list[1..], r)
  }

  /** What a timeout does about one rank. */
  function Review(cfg: Config, w: Watcher, p: Rank): Watcher {
    if p == cfg.localRank then w
    else if p !in w.alive && p !in w.suspected
    then Watcher(w.alive, w.suspected + [p], w.notes + [Suspect(p)])
    else if p in w.alive && p in w.suspected
    then Watcher(w.alive, Without(w.suspected, p), w.notes + [Restore(p)])
    else w
  }

  /** A timeout in progress: ranks 1..n have been reviewed. */
  function Reviewed(cfg: Config, w: Watcher, n: nat): Watcher {
    if n == 0 then w else Review(cfg, Reviewed(cfg, w, n - 1), n)
  }

  function OnReviewTimeout(cfg: Config, w: Watcher): Watcher {
    Reviewed(cfg, w, cfg.maxRank).(alive := [])
  }

  function Watch(cfg: Config, events: seq<Event>): Watcher {
    if |events| == 0 then FreshWatcher(cfg)
    else
      var before := Watch(cfg, events[..|events| - 1]);
      match events[|events| - 1]
      case Alive(sender) => before.(alive := before.alive + [sender])
      case Timeout => OnReviewTimeout(cfg, before)
  }
}
