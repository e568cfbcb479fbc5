/**
 The handler of uniform reliable broadcast as the program has it: a list of saved messages, each
 with an array of ack flags, updated in place. It is proved to take the step `UrbSpec` describes.
 */
module Urb {
  import opened Ranks
  import opened Messages
  import opened List
  import opened UrbSpec
  import Wire

  datatype SavedMessage = SavedMessage(id: Id, wasDelivered: bool, acks: seq<bool>)

  /** The ranks whose flag is set; rank r is at index r - 1. */
  ghost function AckSet(acks: seq<bool>): set<Rank> {
    set r | r in All(|acks|) && acks[r - 1]
  }

  ghost function Info(m: SavedMessage): Saved {
    Saved(AckSet(m.acks), m.wasDelivered)
  }

  /** What the list of saved messages means. */
  ghost function Abs(received: seq<SavedMessage>): Peer {
    if |received| == 0 then map[]
    else
      var last := received[|received| - 1];
      Abs(received[..|received| - 1])[last.id := Info(last)]
  }

  ghost predicate DistinctIds(received: seq<SavedMessage>) {
    forall i, j :: 0 <= i < j < |received| ==> received[i].id != received[j].id
  }

  lemma {:induction false} AbsKeys(received: seq<SavedMessage>, id: Id)
    ensures id in Abs(received) <==> exists i :: 0 <= i < |received| && received[i].id == id
  {
    if |received| > 0 {
      AbsKeys(received[..|received| - 1], id);
    }
  }

  lemma {:induction false} AbsAt(received: seq<SavedMessage>, i: nat)
    requires DistinctIds(received) && i < |received|
    ensures received[i].id in Abs(received) && Abs(received)[received[i].id] == Info(received[i])
  {
    if i < |received| - 1 {
      AbsAt(received[..|received| - 1], i);
    }
  }

  lemma MapSwap<K, V>(m: map<K, V>, a: K, x: V, b: K, y: V)
    requires a != b
    ensures m[a := x][b := y] == m[b := y][a := x]
  {
  }

  lemma {:induction false} AbsUpdate(received: seq<SavedMessage>, i: nat, m: SavedMessage)
    requires DistinctIds(received) && i < |received| && m.id == received[i].id
    ensures Abs(received[i := m]) == Abs(received)[m.id := Info(m)]
  {
    var init, last := received[..|received| - 1], received[|received| - 1];
    var updated, info := received[i := m], Info(m);
    if i < |received| - 1 {
      AbsUpdate(init, i, m);
      assert updated[..|received| - 1] == init[i := m] && updated[|received| - 1] == last;
      MapSwap(Abs(init), m.id, info, last.id, Info(last));
    } else {
      assert updated[..|received| - 1] == init;
    }
  }

  lemma AckSetUpdate(acks: seq<bool>, r: Rank)
    requires r in All(|acks|)
    ensures AckSet(acks[r - 1 := true]) == AckSet(acks) + {r}
  {
  }

  /** An ack array with no flag set. */
  function NoAcks(n: nat): (acks: seq<bool>)
    ensures |acks| == n && (forall i :: 0 <= i < n ==> !acks[i]) && AckSet(acks) == {}
  {
    seq(n, i => false)
  }

  lemma AbsAppend(received: seq<SavedMessage>, m: SavedMessage)
    requires DistinctIds(received) && m.id !in Abs(received)
    ensures DistinctIds(received + [m]) && Abs(received + [m]) == Abs(received)[m.id := Info(m)]
  {
    forall j | 0 <= j < |received|
      ensures received[j].id != m.id
    {
      AbsKeys(received, received[j].id);
    }
    assert (received + [m])[..|received|] == received;
  }

  /** Saving a blank entry first and recording the ack then is the step of the protocol. */
  lemma KnownThenAcked(n: nat, self: Rank, p: Peer, known: Peer, next: Peer, sender: Rank, m: Msg, deliver: bool)
    requires known == p[m.id := Known(p, m.id)]
    requires var saved := known[m.id];
             var acks := saved.acks + {sender};
             && deliver == (!saved.delivered && 2 * |acks| > n)
             && next == known[m.id := Saved(acks, saved.delivered || deliver)]
    ensures var out := On(n, self, p, sender, m); next == out.peer && deliver == out.deliver
  {
  }

  class Urb {
    const localRank: Rank
    const maxRank: nat
    var received: seq<SavedMessage>
    /** What was handed to best-effort broadcast, and to the callback of the layer above. */
    var outbox: seq<Outgoing>
    var indications: seq<Msg>

    ghost predicate Valid()
      reads `received
    {
      DistinctIds(received) && forall i :: 0 <= i < |received| ==> |received[i].acks| == maxRank
    }

    ghost function State(): Peer
      reads `received
    {
      Abs(received)
    }

    constructor (localRank: Rank, maxRank: nat)
      ensures Valid() && State() == map[] && outbox == [] && indications == []
      ensures this.localRank == localRank && this.maxRank == maxRank
    {
      this.localRank, this.maxRank := localRank, maxRank;
      received, outbox, indications := [], [], [];
    }

    /** Best-effort broadcast: one send per rank. */
    method BroadcastAux(m: Msg)
      modifies `outbox
      ensures outbox == old(outbox) + RelayToAll(maxRank, m)
    {
      for peerRank := 1 to maxRank + 1
        invariant outbox == old(outbox) + RelayToAll(maxRank, m)[..peerRank - 1]
      {
        outbox := outbox + [Outgoing(peerRank, Wire.EncodeRelay(m.origin, m.id, m.body))];
      }
    }

    /** The client operation, given the fresh id. */
    method Broadcast(id: Id, body: Body)
      modifies `outbox
      ensures outbox == old(outbox) + RelayToAll(maxRank, Msg(localRank, id, body))
    {
      BroadcastAux(Msg(localRank, id, body));
    }

    method GetSavedMessage(id: Id) returns (r: Option<nat>)
      requires Valid()
      ensures r.None? ==> id !in State()
      ensures r.Some? ==> r.value < |received| && received[r.value].id == id && id in State()
    {
      AbsKeys(received, id);
      for i := 0 to |received|
        invariant forall j :: 0 <= j < i ==> received[j].id != id
      {
        if received[i].id == id {
          return Some(i);
        }
      }
      return None;
    }

    static method ShouldDeliver(maxRank: nat, acks: seq<bool>) returns (r: bool)
      requires |acks| == maxRank
      ensures r <==> 2 * |AckSet(acks)| > maxRank
    {
      var acksReceived := 0;
      for i := 0 to maxRank
        invariant acksReceived == |set r | r in AckSet(acks) && r <= i|
      {
        ghost var before, after := set r | r in AckSet(acks) && r <= i, set r | r in AckSet(acks) && r <= i + 1;
        assert after == before + if acks[i] then {i + 1} else {};
        if acks[i] {
          acksReceived := acksReceived + 1;
        }
      }
      assert AckSet(acks) == set r | r in AckSet(acks) && r <= maxRank;
      return acksReceived >= maxRank / 2 + 1;
    }

    method SaveMessage(id: Id) returns (i: nat)
      requires Valid() && id !in State()
      modifies `received
      ensures Valid() && State() == old(State())[id := Saved({}, false)]
      ensures i < |received| && received[i].id == id
    {
      var blank := SavedMessage(id, false, NoAcks(maxRank));
      AbsAppend(received, blank);
      i := |received|;
      received := received + [blank];
    }

    /** Sets the sender's ack and, at a majority, the delivered flag; says whether to deliver. */
    method Acknowledge(i: nat, sender: Rank) returns (deliver: bool)
      requires Valid() && i < |received| && sender in All(maxRank)
      modifies `received
      ensures Valid()
      ensures var id := old(received)[i].id;
              && id in old(State())
              && var saved := old(State())[id];
                 var acks := saved.acks + {sender};
              && deliver == (!saved.delivered && 2 * |acks| > maxRank)
              && State() == old(State())[id := Saved(acks, saved.delivered || deliver)]
    {
      AbsAt(received, i);
      var entry := received[i];
      AckSetUpdate(entry.acks, sender);
      entry := entry.(acks := entry.acks[sender - 1 := true]);
      Update(i, entry);
      deliver := false;
      if !entry.wasDelivered {
        deliver := ShouldDeliver(maxRank, entry.acks);
        if deliver {
          Update(i, entry.(wasDelivered := true));
        }
      }
    }

    /** The fields of entry i change in place. */
    method Update(i: nat, entry: SavedMessage)
      requires Valid() && i < |received| && entry.id == received[i].id && |entry.acks| == maxRank
      modifies `received
      ensures Valid() && received == old(received)[i := entry]
      ensures State() == old(State())[entry.id := Info(entry)]
    {
      AbsUpdate(received, i, entry);
      received := received[i := entry];
    }

    /** Finds the message, or saves it and relays it unless it is the peer's own. */
    method FindOrSave(m: Msg) returns (index: nat)
      requires Valid()
      modifies `received, `outbox
      ensures Valid() && index < |received| && received[index].id == m.id
      ensures State() == old(State())[m.id := Known(old(State()), m.id)]
      ensures outbox == old(outbox)
                      + (if m.id !in old(State()) && m.origin != localRank then RelayToAll(maxRank, m) else [])
    {
      var saved := GetSavedMessage(m.id);
      if saved.Some? {
        return saved.value;
      }
      index := SaveMessage(m.id);
      if m.origin != localRank {
        BroadcastAux(m);
      }
    }

    /** The object has taken the step to the outcome: new state, relay sent, delivery made. */
    twostate predicate Took(m: Msg, out: Outcome)
      reads this
    {
      && State() == out.peer
      && outbox == old(outbox) + (if out.relay then RelayToAll(maxRank, m) else [])
      && indications == old(indications) + (if out.deliver then [m] else [])
    }

    /** The handler for a message that parsed and names a valid originator. */
    method Handle(sender: Rank, m: Msg)
      requires Valid() && sender in All(maxRank)
      modifies this
      ensures Valid() && Took(m, On(maxRank, localRank, old(State()), sender, m))
    {
      ghost var before := State();
      var index := FindOrSave(m);
      ghost var known := State();
      var deliver := Acknowledge(index, sender);
      KnownThenAcked(maxRank, localRank, before, known, State(), sender, m, deliver);
      if deliver {
        indications := indications + [m];
      }
    }

    /**
     A well-formed message of a rank in the group is handled; one without the code, with too few
     fields or naming no rank of the group changes nothing.
     */
    method Callback(sender: Rank, text: string)
      requires Valid() && sender in All(maxRank)
      modifies this
      ensures Valid()
      ensures var r := Wire.ParseRelay(text);
              if r.Some? && 1 <= r.value.0 <= maxRank
              then var m := Msg(r.value.0, r.value.1, r.value.2);
                   Took(m, On(maxRank, localRank, old(State()), sender, m))
              else State() == old(State()) && outbox == old(outbox) && indications == old(indications)
    {
      var fields := Wire.DecodeRelay(text);
      if fields.None? {
        return;
      }
      var (origin, id, body) := fields.value;
      if origin < 1 || origin > maxRank {
        return;
      }
      Handle(sender, Msg(origin, id, body));
    }
  }
}
