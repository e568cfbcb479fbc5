/**
 The handlers of Byzantine leader election as the program has them. They are proved to take the
 steps of `BleSpec`.
 */
module Ble {
  import opened Ranks
  import opened Messages
  import opened BleSpec
  import Wire

  datatype ByzComplain = ByzComplain(peerRank: Rank, round: nat)

  function Complaining(complains: seq<ByzComplain>): (r: seq<Rank>)
    ensures |r| == |complains| && forall i :: 0 <= i < |r| ==> r[i] == complains[i].peerRank
  {
    seq(|complains|, i requires 0 <= i < |complains| => complains[i].peerRank)
  }

  function Complaints(n: nat, self: Rank, round: nat): seq<Outgoing> {
    ToOthers(n, self, Wire.Frame("CO", Wire.Decimal(round)))
  }

  /**
   A complaint goes to every other rank once, as the code and the number of the peer's round, and is
   handled there as a complaint of this peer about that round.
   */
  lemma ComplaintsAsHeard(n: nat, self: Rank, round: nat, r: Rank)
    requires |Wire.Decimal(round)| <= 1000
    ensures SendsTo(Complaints(n, self, round), r) == if r in All(n) && r != self then 1 else 0
    ensures forall o :: o in Complaints(n, self, round) ==> o.text == "CO," + Wire.Decimal(round)
    ensures forall o :: o in Complaints(n, self, round) ==>
              "CO" <= o.text && Wire.Atoi(Wire.Body(o.text, "CO")) == round
  {
    var text := Wire.Frame("CO", Wire.Decimal(round));
    OthersOnce(n, self, text, r);
    assert "CO" + "," + Wire.Decimal(round) == "CO," + Wire.Decimal(round);
    Wire.FrameBody("CO", Wire.Decimal(round));
    Wire.AtoiDecimal(round);
  }

  class Ble {
    const localRank: Rank
    const maxRank: nat
    const maxFaultyPeers: nat
    var round: nat
    var complained: bool
    var complains: seq<ByzComplain>
    /** What was handed to the authenticated link, and the leaders passed to the callback. */
    var outbox: seq<Outgoing>
    var trusts: seq<Rank>

    ghost function Cfg(): Config {
      Config(maxRank, maxFaultyPeers)
    }

    ghost function State(): Peer
      reads this
    {
      Peer(round, complained, Complaining(complains))
    }

    /** The object has taken the step to the outcome: new state, complaint sent, leader announced. */
    twostate predicate Took(out: Outcome)
      requires maxRank > 0
      reads this
    {
      && State() == out.peer
      && outbox == old(outbox) + (if out.sends then Complaints(maxRank, localRank, old(round)) else [])
      && trusts == old(trusts) + (if out.advances then [Leader(maxRank, out.peer.round)] else [])
    }

    constructor (localRank: Rank, maxRank: nat, maxFaultyPeers: nat)
      ensures State() == FRESH_PEER && outbox == [] && trusts == []
      ensures this.localRank == localRank && Cfg() == Config(maxRank, maxFaultyPeers)
    {
      this.localRank, this.maxRank, this.maxFaultyPeers := localRank, maxRank, maxFaultyPeers;
      round, complained, complains, outbox, trusts := 0, false, [], [], [];
    }

    /** The bound the initialiser enforces: a group is accepted exactly when N > 3f. */
    static method Accepts(maxRank: nat, maxFaultyPeers: nat) returns (ok: bool)
      ensures ok <==> maxRank > 3 * maxFaultyPeers
    {
      ok := !(maxRank as real / 3.0 <= maxFaultyPeers as real);
    }

    method GetRoundLeader() returns (leader: Rank)
      requires maxRank > 0
      ensures leader == Leader(maxRank, round)
    {
      leader := round % maxRank + 1;
    }

    method Complain()
      requires maxRank > 0
      modifies this
      ensures Took(OnComplain(old(State())))
    {
      var i := 1;
      while i <= maxRank
        invariant 1 <= i <= maxRank + 1
        invariant outbox == old(outbox) + Complaints(i - 1, localRank, round)
        invariant State() == old(State()) && trusts == old(trusts)
      {
        if i != localRank {
          outbox := outbox + [Outgoing(i, Wire.Frame("CO", Wire.Decimal(round)))];
        }
        i := i + 1;
      }
      complained := true;
    }

    /** The handler for a complaint that parsed. */
    method HandleComplaint(sender: Rank, complainRound: int)
      requires maxRank > 0
      modifies this
      ensures Took(OnComplaint(Cfg(), old(State()), sender, complainRound))
    {
      if complainRound != round {
        return;
      }
      for i := 0 to |complains|
        invariant forall j :: 0 <= j < i ==> complains[j].peerRank != sender
      {
        if complains[i].peerRank == sender {
          assert Complaining(complains)[i] == sender;
          return;
        }
      }
      complains := complains + [ByzComplain(sender, complainRound)];
      assert Complaining(complains) == old(Complaining(complains)) + [sender];
      if |complains| > maxFaultyPeers && !complained {
        Complain();
      }
      if |complains| > 2 * maxFaultyPeers {
        Advance();
      }
    }

    method Advance()
      requires maxRank > 0
      modifies this
      ensures State() == Peer(old(round) + 1, false, []) && outbox == old(outbox)
      ensures trusts == old(trusts) + [Leader(maxRank, old(round) + 1)]
    {
      round := round + 1;
      complained := false;
      while |complains| > 0
        invariant round == old(round) + 1 && !complained && outbox == old(outbox) && trusts == old(trusts)
        decreases |complains|
      {
        complains := complains[1..];
      }
      var leader := GetRoundLeader();
      trusts := trusts + [leader];
    }

    /** A message with another code changes nothing. */
    method Callback(sender: Rank, text: string)
      requires maxRank > 0
      modifies this
      ensures "CO" <= text ==> Took(OnComplaint(Cfg(), old(State()), sender, Wire.Atoi(Wire.Body(text, "CO"))))
      ensures !("CO" <= text) ==> Took(Outcome(old(State()), false, false))
      ensures forall r: nat :: text == Wire.Frame("CO", Wire.Decimal(r)) && |Wire.Decimal(r)| <= 1000 ==>
                Took(OnComplaint(Cfg(), old(State()), sender, r))
    {
      forall r: nat | text == Wire.Frame("CO", Wire.Decimal(r)) && |Wire.Decimal(r)| <= 1000
        ensures "CO" <= text && Wire.Atoi(Wire.Body(text, "CO")) == r
      {
        Wire.FrameBody("CO", Wire.Decimal(r));
        Wire.AtoiDecimal(r);
      }
      var body := Wire.TryParseMessage(text, "CO");
      if body.Some? {
        var complainRound := Wire.Atoi(body.value);
        HandleComplaint(sender, complainRound);
      }
    }
  }
}
