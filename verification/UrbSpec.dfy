/**
 Majority-ack uniform reliable broadcast, one peer: a message is relayed when first seen and
 delivered once a majority of the ranks is known to have seen it.
 */
module UrbSpec {
  import opened Ranks
  import opened Messages

  /** What a peer keeps per message id. */
  datatype Saved = Saved(acks: set<Rank>, delivered: bool)

  type Peer = map<Id, Saved>

  datatype Outcome = Outcome(peer: Peer, relay: bool, deliver: bool)

  /** The smallest majority. */
  function Quorum(n: nat): (q: nat)
    ensures 2 * q > n && 2 * (q - 1) <= n
  {
    n / 2 + 1
  }

  function Known(p: Peer, id: Id): Saved {
    if id in p then p[id] else Saved({}, false)
  }

  /** What the handler does on a message of a valid originator received from `sender`. */
  function On(n: nat, self: Rank, p: Peer, sender: Rank, m: Msg): Outcome {
    var saved := Known(p, m.id);
    var acks := saved.acks + {sender};
    var deliver := !saved.delivered && |acks| >= Quorum(n);
    Outcome(p[m.id := Saved(acks, saved.delivered || deliver)], m.id !in p && m.origin != self, deliver)
  }
}
