/**
 The handlers of lazy reliable broadcast as the program has them: one list of saved messages per
 originator, scanned and extended in place. They are proved to take the steps of `LazyRbSystem`.
 */
module LazyRb {
  import opened Ranks
  import opened Messages
  import opened LazyRbSpec
  import opened LazyRbSystem
  import Wire

  datatype SavedMessage = SavedMessage(id: Id, msg: Body)

  function Msgs(origin: Rank, saved: seq<SavedMessage>): (r: seq<Msg>)
    ensures |r| == |saved| && forall i :: 0 <= i < |saved| ==> r[i] == Msg(origin, saved[i].id, saved[i].msg)
  {
    seq(|saved|, i requires 0 <= i < |saved| => Msg(origin, saved[i].id, saved[i].msg))
  }

  /** The sends of several messages, one after the other. */
  function SendsOfAll(n: nat, msgs: seq<Msg>): seq<Outgoing> {
    if |msgs| == 0 then [] else SendsOfAll(n, msgs[..|msgs| - 1]) + RelayToAll(n, msgs[|msgs| - 1])
  }

  /** Send number i * n + dst - 1 of the loops is message i to rank dst: the order a crash cuts short. */
  lemma {:induction false} SendAt(n: nat, msgs: seq<Msg>, i: nat, dst: Rank)
    requires i < |msgs| && dst in All(n)
    ensures |SendsOfAll(n, msgs)| == Sends(n, msgs)
    ensures 1 <= Position(n, i, dst) <= |SendsOfAll(n, msgs)|
    ensures SendsOfAll(n, msgs)[Position(n, i, dst) - 1]
         == Outgoing(dst, Wire.EncodeRelay(msgs[i].origin, msgs[i].id, msgs[i].body))
  {
    var init := msgs[..|msgs| - 1];
    PositionBound(n, i, dst, |msgs|);
    SendCount(n, msgs);
    SendCount(n, init);
    if i < |msgs| - 1 {
      SendAt(n, init, i, dst);
    }
  }

  lemma {:induction false} SendCount(n: nat, msgs: seq<Msg>)
    ensures |SendsOfAll(n, msgs)| == Sends(n, msgs)
  {
    if |msgs| > 0 {
      SendCount(n, msgs[..|msgs| - 1]);
      assert |msgs| * n == (|msgs| - 1) * n + n;
    }
  }

  ghost function Histories(n: nat, self: Rank, history: seq<seq<SavedMessage>>): Peer
    requires |history| == n
  {
    map o | o in All(n) && o != self :: Msgs(o, history[o - 1])
  }

  lemma HistoryAt(n: nat, self: Rank, history: seq<seq<SavedMessage>>, o: Rank)
    requires |history| == n && o in All(n) && (o == self ==> history[o - 1] == [])
    ensures History(Histories(n, self, history), o) == Msgs(o, history[o - 1])
  {
  }

  lemma DuplicateAt(origin: Rank, saved: seq<SavedMessage>, id: Id)
    ensures Duplicate(Msgs(origin, saved), id) <==> exists i :: 0 <= i < |saved| && saved[i].id == id
  {
    var msgs := Msgs(origin, saved);
    assert forall i :: 0 <= i < |saved| ==> msgs[i].id == saved[i].id;
  }

  lemma HistoriesAppend(n: nat, self: Rank, history: seq<seq<SavedMessage>>, m: Msg)
    requires |history| == n && m.origin in All(n) && m.origin != self
    ensures var o, before := m.origin, Histories(n, self, history);
            Histories(n, self, history[o - 1 := history[o - 1] + [SavedMessage(m.id, m.body)]])
            == before[o := History(before, o) + [m]]
  {
    var o := m.origin;
    var longer := history[o - 1] + [SavedMessage(m.id, m.body)];
    HistoryAt(n, self, history, o);
    assert Msgs(o, longer) == Msgs(o, history[o - 1]) + [m];
    HistoriesUpdate(n, self, history, o, longer);
  }

  lemma HistoriesUpdate(n: nat, self: Rank, history: seq<seq<SavedMessage>>, o: Rank, saved: seq<SavedMessage>)
    requires |history| == n && o in All(n) && o != self
    ensures Histories(n, self, history[o - 1 := saved]) == Histories(n, self, history)[o := Msgs(o, saved)]
  {
  }

  class Rb {
    const localRank: Rank
    const maxRank: nat
    /** One list per rank, at index rank - 1; the local entry stays empty. */
    var history: seq<seq<SavedMessage>>
    /** What was handed to the perfect link, and to the callback of the layer above. */
    var outbox: seq<Outgoing>
    var indications: seq<Msg>

    ghost predicate Valid()
      reads `history
    {
      |history| == maxRank && (localRank in All(maxRank) ==> history[localRank - 1] == [])
    }

    ghost function State(): Peer
      requires Valid()
      reads `history
    {
      Histories(maxRank, localRank, history)
    }

    constructor (localRank: Rank, maxRank: nat)
      ensures Valid() && State() == NoHistory(maxRank, localRank) && outbox == [] && indications == []
      ensures this.localRank == localRank && this.maxRank == maxRank
    {
      this.localRank, this.maxRank := localRank, maxRank;
      history, outbox, indications := seq(maxRank, i => []), [], [];
    }

    method RbBroadcastAux(m: Msg)
      modifies `outbox
      ensures outbox == old(outbox) + RelayToAll(maxRank, m)
    {
      var peerRank := 1;
      while peerRank <= maxRank
        invariant 1 <= peerRank <= maxRank + 1
        invariant outbox == old(outbox) + RelayToAll(maxRank, m)[..peerRank - 1]
      {
        outbox := outbox + [Outgoing(peerRank, Wire.EncodeRelay(m.origin, m.id, m.body))];
        peerRank := peerRank + 1;
      }
    }

    /** The client operation, given the fresh id. */
    method Broadcast(id: Id, body: Body)
      modifies `outbox
      ensures outbox == old(outbox) + RelayToAll(maxRank, Msg(localRank, id, body))
    {
      RbBroadcastAux(Msg(localRank, id, body));
    }

    /** The callback of the failure detector. */
    method OnCrashed(peerId: Rank)
      requires Valid() && peerId in All(maxRank)
      modifies `outbox
      ensures outbox == old(outbox) + SendsOfAll(maxRank, History(State(), peerId))
    {
      HistoryAt(maxRank, localRank, history, peerId);
      Retransmit(peerId, history[peerId - 1]);
    }

    method Retransmit(peerId: Rank, peerHistory: seq<SavedMessage>)
      modifies `outbox
      ensures outbox == old(outbox) + SendsOfAll(maxRank, Msgs(peerId, peerHistory))
    {
      ghost var msgs := Msgs(peerId, peerHistory);
      for i := 0 to |peerHistory|
        invariant outbox == old(outbox) + SendsOfAll(maxRank, msgs[..i])
      {
        RbBroadcastAux(Msg(peerId, peerHistory[i].id, peerHistory[i].msg));
        assert msgs[..i + 1][..i] == msgs[..i];
      }
      assert msgs[..|peerHistory|] == msgs;
    }

    method IsMessageDuplicate(m: Msg) returns (r: bool)
      requires Valid() && m.origin in All(maxRank) && m.origin != localRank
      ensures r == Duplicate(History(State(), m.origin), m.id)
    {
      var historyFromPeer := history[m.origin - 1];
      HistoryAt(maxRank, localRank, history, m.origin);
      DuplicateAt(m.origin, historyFromPeer, m.id);
      for i := 0 to |historyFromPeer|
        invariant forall j :: 0 <= j < i ==> historyFromPeer[j].id != m.id
      {
        if historyFromPeer[i].id == m.id {
          return true;
        }
      }
      return false;
    }

    method SaveMessageToHistory(m: Msg)
      requires Valid() && m.origin in All(maxRank) && m.origin != localRank
      modifies `history
      ensures Valid() && State() == old(State())[m.origin := History(old(State()), m.origin) + [m]]
    {
      HistoriesAppend(maxRank, localRank, history, m);
      history := history[m.origin - 1 := history[m.origin - 1] + [SavedMessage(m.id, m.body)]];
    }

    /** The object has taken the step to the outcome: new state, delivery made, nothing sent. */
    twostate predicate Took(m: Msg, out: Outcome)
      requires Valid()
      reads this
    {
      && State() == out.peer
      && outbox == old(outbox)
      && indications == old(indications) + (if out.deliver then [m] else [])
    }

    /** The handler for a message that parsed and names a valid originator. */
    method OnDeliver(sender: Rank, m: Msg)
      requires Valid() && m.origin in All(maxRank)
      modifies this
      ensures Valid() && Took(m, OnDelivery(localRank, old(State()), sender, m))
    {
      if m.origin == localRank {
        if sender == localRank {
          indications := indications + [m];
        }
        return;
      }
      var duplicate := IsMessageDuplicate(m);
      if !duplicate {
        SaveMessageToHistory(m);
        indications := indications + [m];
      }
    }

    /**
     A well-formed message of a rank in the group is handled; one without the code, with too few
     fields or naming no rank of the group changes nothing.
     */
    method OnDeliveryWrapper(sender: Rank, text: string)
      requires Valid()
      modifies this
      ensures Valid()
      ensures var r := Wire.ParseRelay(text);
              if r.Some? && 1 <= r.value.0 <= maxRank
              then var m := Msg(r.value.0, r.value.1, r.value.2);
                   Took(m, OnDelivery(localRank, old(State()), sender, m))
              else State() == old(State()) && outbox == old(outbox) && indications == old(indications)
    {
      var fields := Wire.DecodeRelay(text);
      if fields.None? {
        return;
      }
      var (origin, id, body) := fields.value;
      if origin < 1 || origin > maxRank {
        return;
      }
      OnDeliver(sender, Msg(origin, id, body));
    }
  }
}
