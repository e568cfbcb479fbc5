/**
 One peer of lazy reliable broadcast over everything that arrives at it, in order: what it delivers
 and keeps, in terms of the arrivals alone.
 */
module LazyRbPeer {
  import opened Ranks
  import opened Messages
  import opened LazyRbSpec

  datatype Arrived = Arrived(sender: Rank, msg: Msg)

  ghost function After(n: nat, self: Rank, arrivals: seq<Arrived>): Peer {
    if |arrivals| == 0 then NoHistory(n, self)
    else
      var last := arrivals[|arrivals| - 1];
      OnDelivery(self, After(n, self, arrivals[..|arrivals| - 1]), last.sender, last.msg).peer
  }

  ghost function Deliveries(n: nat, self: Rank, arrivals: seq<Arrived>): seq<Msg> {
    if |arrivals| == 0 then []
    else
      var init, last := arrivals[..|arrivals| - 1], arrivals[|arrivals| - 1];
      if OnDelivery(self, After(n, self, init), last.sender, last.msg).deliver
      then Deliveries(n, self, init) + [last.msg]
      else Deliveries(n, self, init)
  }

  /** Of some messages, those of one originator, in the same order. */
  function By(msgs: seq<Msg>, origin: Rank): seq<Msg> {
    if |msgs| == 0 then []
    else
      var last := msgs[|msgs| - 1];
      if last.origin == origin then By(msgs[..|msgs| - 1], origin) + [last] else By(msgs[..|msgs| - 1], origin)
  }

  ghost predicate Arrives(arrivals: seq<Arrived>, origin: Rank, id: Id) {
    exists i :: 0 <= i < |arrivals| && arrivals[i].msg.origin == origin && arrivals[i].msg.id == id
  }

  /** A message is kept from its first arrival on. */
  lemma {:induction false} KeptFromFirst(n: nat, self: Rank, arrivals: seq<Arrived>, origin: Rank, id: Id)
    requires origin != self
    ensures Duplicate(History(After(n, self, arrivals), origin), id) <==> Arrives(arrivals, origin, id)
  {
    if |arrivals| > 0 {
      var init, last := arrivals[..|arrivals| - 1], arrivals[|arrivals| - 1];
      KeptFromFirst(n, self, init, origin, id);
      assert arrivals == init + [last];
      ArrivesSnoc(init, last, origin, id);
      DuplicateSnoc(History(After(n, self, init), origin), last.msg, id);
    }
  }

  lemma ArrivesSnoc(arrivals: seq<Arrived>, a: Arrived, origin: Rank, id: Id)
    ensures Arrives(arrivals + [a], origin, id)
       <==> Arrives(arrivals, origin, id) || (a.msg.origin == origin && a.msg.id == id)
  {
    var longer := arrivals + [a];
    assert longer[|arrivals|] == a;
    if i :| 0 <= i < |arrivals| && arrivals[i].msg.origin == origin && arrivals[i].msg.id == id {
      assert longer[i] == arrivals[i];
    }
  }

  lemma DuplicateSnoc(history: seq<Msg>, m: Msg, id: Id)
    ensures Duplicate(history + [m], id) <==> Duplicate(history, id) || m.id == id
  {
    var longer := history + [m];
    assert longer[|history|] == m;
    if i :| 0 <= i < |history| && history[i].id == id {
      assert longer[i] == history[i];
    }
  }

  /**
   An arrival is delivered, then and there, if and only if it is the peer's own message coming from
   the peer itself, or the first arrival of another originator's message.
   */
  lemma ArrivalExactly(n: nat, self: Rank, arrivals: seq<Arrived>, a: Arrived)
    ensures Deliveries(n, self, arrivals + [a])
         == if a.msg.origin == self && a.sender == self then Deliveries(n, self, arrivals) + [a.msg]
            else if a.msg.origin != self && !Arrives(arrivals, a.msg.origin, a.msg.id)
              then Deliveries(n, self, arrivals) + [a.msg]
              else Deliveries(n, self, arrivals)
  {
    assert (arrivals + [a])[..|arrivals|] == arrivals;
    if a.msg.origin != self {
      KeptFromFirst(n, self, arrivals, a.msg.origin, a.msg.id);
    }
  }

  /** The history of another peer is what has been delivered of it, in order; nothing of one's own is kept. */
  lemma {:induction false} HistoryExactly(n: nat, self: Rank, arrivals: seq<Arrived>, origin: Rank)
    ensures History(After(n, self, arrivals), origin)
         == if origin == self then [] else By(Deliveries(n, self, arrivals), origin)
  {
    if |arrivals| > 0 {
      var init, last := arrivals[..|arrivals| - 1], arrivals[|arrivals| - 1];
      HistoryExactly(n, self, init, origin);
      var before := Deliveries(n, self, init);
      assert (before + [last.msg])[..|before|] == before;
    }
  }
}
