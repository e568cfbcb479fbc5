/** Eventual leader election as the program has it, proved to take the steps of `EleSpec`. */
module Ele {
  import opened Ranks
  import opened Messages
  import opened EleSpec
  import Wire

  class Ele {
    const localRank: Rank
    const localEpoch: nat
    const maxRank: nat
    var candidates: seq<Heartbeat>
    var leader: Rank
    var periodDurationSecs: nat
    /** What the callback was given, and what was handed to the fair-loss link. */
    var trusts: seq<Rank>
    var outbox: seq<Outgoing>

    ghost function Cfg(): Config {
      Config(localRank, localEpoch, maxRank)
    }

    ghost function State(): Elector
      reads this
    {
      Elector(candidates, leader, periodDurationSecs, trusts)
    }

    /** The epoch read from the last run, or zero, is incremented. */
    constructor (localRank: Rank, maxRank: nat, storedEpoch: nat)
      ensures Cfg() == Config(localRank, storedEpoch + 1, maxRank)
      ensures State() == FreshElector(Cfg()) && outbox == []
    {
      this.localRank, this.maxRank, localEpoch := localRank, maxRank, storedEpoch + 1;
      candidates, leader, periodDurationSecs, trusts, outbox := [], maxRank, HEARTBEAT_INTERVAL, [], [];
    }

    method HearHeartbeat(hb: Heartbeat)
      modifies `candidates
      ensures candidates == Hear(old(candidates), hb)
    {
      var i := 0;
      while i < |candidates|
        invariant i <= |candidates| && candidates == old(candidates)
        invariant Hear(candidates, hb) == candidates[..i] + Hear(candidates[i..], hb)
      {
        if candidates[i].sender == hb.sender {
          if candidates[i].epoch < hb.epoch {
            candidates := candidates[..i] + candidates[i + 1..];
          } else {
            assert candidates == candidates[..i] + candidates[i..];
          }
          return;
        }
        assert candidates[..i + 1] == candidates[..i] + [candidates[i]];
        i := i + 1;
      }
      assert candidates[..i] == candidates;
      candidates := candidates + [hb];
    }

    method BestCandidate() returns (best: Heartbeat)
      ensures best == Best(candidates, Heartbeat(localRank, localEpoch))
    {
      best := Heartbeat(localRank, localEpoch);
      for i := 0 to |candidates|
        invariant best == Best(candidates[..i], Heartbeat(localRank, localEpoch))
      {
        var lastHb := candidates[i];
        assert candidates[..i + 1][..i] == candidates[..i];
        if lastHb.epoch < best.epoch || (lastHb.sender > best.sender && lastHb.epoch == best.epoch) {
          best := lastHb;
        }
      }
      assert candidates[..|candidates|] == candidates;
    }

    method HandleTimeout()
      modifies this
      ensures State() == OnTimeout(Cfg(), old(State()))
      ensures outbox == old(outbox) + ToOthers(maxRank, localRank, Wire.Frame("HE", Wire.Decimal(localEpoch)))
    {
      var best := BestCandidate();
      if best.sender != leader {
        leader := best.sender;
        periodDurationSecs := periodDurationSecs + HEARTBEAT_INCREMENT;
        trusts := trusts + [leader];
      }
      label Chosen:
      while |candidates| > 0
        invariant State() == old@Chosen(State()).(candidates := candidates) && outbox == old(outbox)
        decreases |candidates|
      {
        candidates := candidates[1..];
      }
      var text, peerRank := Wire.Frame("HE", Wire.Decimal(localEpoch)), 1;
      while peerRank <= maxRank
        invariant 1 <= peerRank <= maxRank + 1
        invariant State() == old@Chosen(State()).(candidates := [])
        invariant outbox == old(outbox) + ToOthers(peerRank - 1, localRank, text)
      {
        if peerRank != localRank {
          outbox := outbox + [Outgoing(peerRank, text)];
        }
        peerRank := peerRank + 1;
      }
    }

    /** What another peer sends at its timeouts is heard as its epoch; other codes change nothing. */
    method Wrapper(sender: Rank, text: string)
      modifies this
      ensures State() == old(State()).(candidates := candidates) && outbox == old(outbox)
      ensures candidates == if "HE" <= text
                            then Hear(old(candidates), Heartbeat(sender, Wire.Atoi(Wire.Body(text, "HE"))))
                            else old(candidates)
      ensures forall epoch: nat :: text == Wire.Frame("HE", Wire.Decimal(epoch)) && |Wire.Decimal(epoch)| <= 1000 ==>
                candidates == Hear(old(candidates), Heartbeat(sender, epoch))
    {
      forall epoch: nat | text == Wire.Frame("HE", Wire.Decimal(epoch)) && |Wire.Decimal(epoch)| <= 1000
        ensures "HE" <= text && Wire.Atoi(Wire.Body(text, "HE")) == epoch
      {
        Wire.FrameBody("HE", Wire.Decimal(epoch));
        Wire.AtoiDecimal(epoch);
      }
      var body := Wire.TryParseMessage(text, "HE");
      if body.Some? {
        var peerEpoch := Wire.Atoi(body.value);
        HearHeartbeat(Heartbeat(sender, peerEpoch));
      }
    }
  }
}
