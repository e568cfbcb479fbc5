/**
 Lazy reliable broadcast, one peer: messages are kept per originator and sent on only when that
 originator is reported crashed.
 */
module LazyRbSpec {
  import opened Ranks
  import opened Messages

  /** The history kept for each originator. */
  type Peer = map<Rank, seq<Msg>>

  function History(p: Peer, origin: Rank): seq<Msg> {
    if origin in p then p[origin] else []
  }

  /** A history for every peer but the peer itself. */
  ghost function NoHistory(n: nat, self: Rank): Peer {
    map o | o in All(n) && o != self :: []
  }

  predicate Duplicate(history: seq<Msg>, id: Id) {
    exists i :: 0 <= i < |history| && history[i].id == id
  }

  datatype Outcome = Outcome(peer: Peer, deliver: bool)

  /**
   What the handler does on a message of a valid originator. A peer's own message is delivered when
   it comes from the peer itself, and never kept; others are kept and delivered unless known.
   */
  function OnDelivery(self: Rank, p: Peer, sender: Rank, m: Msg): Outcome {
    if m.origin == self then Outcome(p, sender == self)
    else if Duplicate(History(p, m.origin), m.id) then Outcome(p, false)
    else Outcome(p[m.origin := History(p, m.origin) + [m]], true)
  }
}
