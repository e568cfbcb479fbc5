/**
 The detector and the election as the program has them, the election called back from inside the
 detector's timeout. They are proved to take the steps of `PfdSpec`.
 */
module Pfd {
  import opened Ranks
  import opened Messages
  import opened PfdSpec
  import Wire

  class Mle {
    const maxRank: nat
    var crashedPeers: seq<Rank>
    var leader: nat
    /** What the callback was given. */
    var announced: seq<nat>

    ghost function State(): Elector
      reads this
    {
      Elector(crashedPeers, leader, announced)
    }

    constructor (maxRank: nat)
      ensures this.maxRank == maxRank && State() == Elector([], maxRank, [])
    {
      this.maxRank := maxRank;
      crashedPeers, leader, announced := [], maxRank, [];
    }

    method CallbackOnCrash(peerId: Rank)
      modifies this
      ensures State() == OnCrash(maxRank, old(State()), peerId)
    {
      crashedPeers := crashedPeers + [peerId];
      if peerId != leader {
        return;
      }
      var candidate: nat := maxRank;
      while candidate > 0
        invariant crashedPeers == old(crashedPeers) + [peerId] && announced == old(announced)
        invariant candidate <= maxRank && Highest(crashedPeers, maxRank) == Highest(crashedPeers, candidate)
      {
        var hasCrashed := Listed(crashedPeers, candidate);
        if !hasCrashed {
          break;
        }
        candidate := candidate - 1;
      }
      leader := candidate;
      announced := announced + [candidate];
    }
  }

  class Pfd {
    const localRank: Rank
    const maxRank: nat
    const mle: Mle
    var alivePeers: seq<Rank>
    var faultyPeers: seq<Rank>
    /** What was handed to the perfect link. */
    var outbox: seq<Outgoing>

    ghost function Cfg(): Config {
      Config(localRank, maxRank)
    }

    ghost function State(): Peer
      reads this, mle
    {
      Peer(alivePeers, faultyPeers, mle.State())
    }

    constructor (localRank: Rank, maxRank: nat)
      ensures Cfg() == Config(localRank, maxRank) && mle.maxRank == maxRank && fresh(mle)
      ensures State() == FreshPeer(Cfg()) && outbox == []
    {
      this.localRank, this.maxRank := localRank, maxRank;
      mle := new Mle(maxRank);
      alivePeers, faultyPeers, outbox := [], [], [];
      new;
      var i := 1;
      while i <= maxRank
        invariant 1 <= i <= maxRank + 1 && alivePeers == Others(Cfg(), i - 1)
        invariant faultyPeers == [] && outbox == [] && mle.State() == Elector([], maxRank, [])
        invariant fresh(mle)
      {
        if i != localRank {
          alivePeers := alivePeers + [i];
        }
        i := i + 1;
      }
    }

    method CheckPeer(peerRank: Rank)
      requires mle.maxRank == maxRank && peerRank != localRank
      modifies this, mle
      ensures State() == Check(Cfg(), old(State()), peerRank) && outbox == old(outbox)
    {
      var isAlive := Listed(alivePeers, peerRank);
      var isFaulty := Listed(faultyPeers, peerRank);
      if !isAlive && !isFaulty {
        faultyPeers := faultyPeers + [peerRank];
        mle.CallbackOnCrash(peerRank);
      }
    }

    method HandleTimeout()
      requires mle.maxRank == maxRank
      modifies this, mle
      ensures State() == OnTimeout(Cfg(), old(State()))
      ensures outbox == old(outbox) + ToOthers(maxRank, localRank, "HB")
    {
      var peerRank := 1;
      while peerRank <= maxRank
        invariant 1 <= peerRank <= maxRank + 1
        invariant State() == Checked(Cfg(), old(State()), peerRank - 1)
        invariant outbox == old(outbox) + ToOthers(peerRank - 1, localRank, "HB")
      {
        if peerRank != localRank {
          CheckPeer(peerRank);
          outbox := outbox + [Outgoing(peerRank, "HB")];
        }
        peerRank := peerRank + 1;
      }
      while |alivePeers| > 0
        invariant State() == Checked(Cfg(), old(State()), maxRank).(alive := alivePeers)
        invariant outbox == old(outbox) + ToOthers(maxRank, localRank, "HB")
        decreases |alivePeers|
      {
        alivePeers := alivePeers[1..];
      }
    }

    /** A heartbeat is answered, an answer is noted, anything else is ignored. */
    method Callback(sender: Rank, text: string)
      modifies this
      ensures State() == if "IA" <= text then OnAlive(old(State()), sender) else old(State())
      ensures outbox == old(outbox) + if "HB" <= text then [Outgoing(sender, "IA")] else []
    {
      var heartbeat := Wire.TryParseMessage(text, "HB");
      if heartbeat.Some? {
        assert text[0] == 'H';
        outbox := outbox + [Outgoing(sender, "IA")];
      } else {
        var answer := Wire.TryParseMessage(text, "IA");
        if answer.Some? {
          alivePeers := alivePeers + [sender];
        }
      }
    }
  }
}
