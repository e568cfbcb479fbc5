/**
 One peer of uniform reliable broadcast over everything that arrives at it, in order: what it relays
 and delivers, in terms of the arrivals alone.
 */
module UrbPeer {
  import opened Ranks
  import opened Messages
  import opened UrbSpec

  datatype Arrived = Arrived(sender: Rank, msg: Msg)

  /** The step the last arrival makes the peer take. */
  function Last(n: nat, self: Rank, arrivals: seq<Arrived>): Outcome
    requires |arrivals| > 0
  {
    var last := arrivals[|arrivals| - 1];
    On(n, self, After(n, self, arrivals[..|arrivals| - 1]), last.sender, last.msg)
  }

  function After(n: nat, self: Rank, arrivals: seq<Arrived>): Peer {
    if |arrivals| == 0 then map[]
    else
      var last := arrivals[|arrivals| - 1];
      On(n, self, After(n, self, arrivals[..|arrivals| - 1]), last.sender, last.msg).peer
  }

  function Relays(n: nat, self: Rank, arrivals: seq<Arrived>): seq<Msg> {
    if |arrivals| == 0 then []
    else
      Relays(n, self, arrivals[..|arrivals| - 1])
      + if Last(n, self, arrivals).relay then [arrivals[|arrivals| - 1].msg] else []
  }

  function Deliveries(n: nat, self: Rank, arrivals: seq<Arrived>): seq<Msg> {
    if |arrivals| == 0 then []
    else
      Deliveries(n, self, arrivals[..|arrivals| - 1])
      + if Last(n, self, arrivals).deliver then [arrivals[|arrivals| - 1].msg] else []
  }

  /** The peers a message with this id arrived from. */
  ghost function HeardFrom(arrivals: seq<Arrived>, id: Id): set<Rank> {
    set i | 0 <= i < |arrivals| && arrivals[i].msg.id == id :: arrivals[i].sender
  }

  lemma HeardSnoc(arrivals: seq<Arrived>, a: Arrived, id: Id)
    ensures HeardFrom(arrivals + [a], id)
         == if a.msg.id == id then HeardFrom(arrivals, id) + {a.sender} else HeardFrom(arrivals, id)
  {
    var longer := arrivals + [a];
    assert longer[|arrivals|] == a;
    forall r | r in HeardFrom(arrivals, id)
      ensures r in HeardFrom(longer, id)
    {
      var i :| 0 <= i < |arrivals| && arrivals[i].msg.id == id && arrivals[i].sender == r;
      assert longer[i] == arrivals[i];
    }
    forall r | r in HeardFrom(longer, id)
      ensures r in HeardFrom(arrivals, id) || (a.msg.id == id && r == a.sender)
    {
      var i :| 0 <= i < |longer| && longer[i].msg.id == id && longer[i].sender == r;
      assert i < |arrivals| ==> longer[i] == arrivals[i];
    }
  }

  /** What is kept for an id: whom it was heard from, and whether they are a majority. */
  lemma {:induction false} KeptExactly(n: nat, self: Rank, arrivals: seq<Arrived>, id: Id)
    ensures id in After(n, self, arrivals) <==> HeardFrom(arrivals, id) != {}
    ensures Known(After(n, self, arrivals), id)
         == Saved(HeardFrom(arrivals, id), 2 * |HeardFrom(arrivals, id)| > n)
  {
    if |arrivals| > 0 {
      var init, last := arrivals[..|arrivals| - 1], arrivals[|arrivals| - 1];
      KeptExactly(n, self, init, id);
      assert arrivals == init + [last];
      HeardSnoc(init, last, id);
      KeptStep(n, self, After(n, self, init), last, id, HeardFrom(init, id));
    } else {
      assert HeardFrom(arrivals, id) == {};
    }
  }

  lemma KeptStep(n: nat, self: Rank, p: Peer, a: Arrived, id: Id, heard: set<Rank>)
    requires (id in p <==> heard != {}) && Known(p, id) == Saved(heard, 2 * |heard| > n)
    ensures var next := On(n, self, p, a.sender, a.msg).peer;
            var now := if a.msg.id == id then heard + {a.sender} else heard;
            (id in next <==> now != {}) && Known(next, id) == Saved(now, 2 * |now| > n)
  {
    SubsetSize(heard, heard + {a.sender});
    if a.msg.id == id {
      assert a.sender in heard + {a.sender};
    }
  }

  /**
   A message is delivered by the arrival that makes the peers it was heard from a majority, and
   relayed by the first arrival under its id unless it is the peer's own.
   */
  lemma ArrivalExactly(n: nat, self: Rank, arrivals: seq<Arrived>, a: Arrived)
    ensures var heard, now := HeardFrom(arrivals, a.msg.id), HeardFrom(arrivals + [a], a.msg.id);
            && Deliveries(n, self, arrivals + [a])
               == Deliveries(n, self, arrivals) + (if 2 * |heard| <= n < 2 * |now| then [a.msg] else [])
            && Relays(n, self, arrivals + [a])
               == Relays(n, self, arrivals) + (if heard == {} && a.msg.origin != self then [a.msg] else [])
  {
    assert (arrivals + [a])[..|arrivals|] == arrivals;
    KeptExactly(n, self, arrivals, a.msg.id);
    KeptExactly(n, self, arrivals + [a], a.msg.id);
    HeardSnoc(arrivals, a, a.msg.id);
    SubsetSize(HeardFrom(arrivals, a.msg.id), HeardFrom(arrivals + [a], a.msg.id));
  }

  ghost predicate Has(msgs: seq<Msg>, id: Id) {
    exists i :: 0 <= i < |msgs| && msgs[i].id == id
  }

  ghost predicate DistinctIds(msgs: seq<Msg>) {
    forall i, j :: 0 <= i < j < |msgs| ==> msgs[i].id != msgs[j].id
  }

  /** A message is added or not. */
  ghost predicate Extends(msgs: seq<Msg>, msgs': seq<Msg>, adds: bool, m: Msg) {
    msgs' == if adds then msgs + [m] else msgs
  }

  lemma HasExtended(msgs: seq<Msg>, msgs': seq<Msg>, adds: bool, m: Msg, id: Id)
    requires Extends(msgs, msgs', adds, m) && DistinctIds(msgs) && (adds ==> !Has(msgs, m.id))
    ensures DistinctIds(msgs')
    ensures Has(msgs', id) <==> Has(msgs, id) || (adds && m.id == id)
  {
    if adds {
      assert msgs'[|msgs|] == m;
    }
    if i :| 0 <= i < |msgs| && msgs[i].id == id {
      assert msgs'[i] == msgs[i];
    }
  }

  /** Over all arrivals: an id is delivered, once, exactly if it was heard from a majority. */
  lemma {:induction false} DeliversMajorities(n: nat, self: Rank, arrivals: seq<Arrived>, id: Id)
    ensures DistinctIds(Deliveries(n, self, arrivals))
    ensures Has(Deliveries(n, self, arrivals), id) <==> 2 * |HeardFrom(arrivals, id)| > n
  {
    if |arrivals| > 0 {
      var init, last := arrivals[..|arrivals| - 1], arrivals[|arrivals| - 1];
      DeliversMajorities(n, self, init, id);
      DeliversMajorities(n, self, init, last.msg.id);
      assert arrivals == init + [last];
      var heard, now := HeardFrom(init, last.msg.id), HeardFrom(arrivals, last.msg.id);
      DeliversNext(n, self, init, last);
      HeardSnoc(init, last, id);
      HasExtended(Deliveries(n, self, init), Deliveries(n, self, arrivals), 2 * |heard| <= n < 2 * |now|, last.msg, id);
    } else {
      assert HeardFrom(arrivals, id) == {};
    }
  }

  lemma DeliversNext(n: nat, self: Rank, arrivals: seq<Arrived>, a: Arrived)
    ensures var heard, now := HeardFrom(arrivals, a.msg.id), HeardFrom(arrivals + [a], a.msg.id);
            && |heard| <= |now|
            && Extends(Deliveries(n, self, arrivals), Deliveries(n, self, arrivals + [a]),
                       2 * |heard| <= n < 2 * |now|, a.msg)
  {
    ArrivalExactly(n, self, arrivals, a);
    HeardSnoc(arrivals, a, a.msg.id);
    SubsetSize(HeardFrom(arrivals, a.msg.id), HeardFrom(arrivals + [a], a.msg.id));
  }

  ghost predicate FirstHeard(arrivals: seq<Arrived>, i: nat) {
    i < |arrivals| && forall j :: 0 <= j < i ==> arrivals[j].msg.id != arrivals[i].msg.id
  }

  ghost predicate IsFirstHeard(arrivals: seq<Arrived>, m: Msg) {
    exists i: nat :: FirstHeard(arrivals, i) && arrivals[i].msg == m
  }

  /** Over all arrivals: relayed, once per id, are the first messages heard unless they are the peer's own. */
  lemma {:induction false} RelaysFirsts(n: nat, self: Rank, arrivals: seq<Arrived>, m: Msg)
    ensures DistinctIds(Relays(n, self, arrivals))
    ensures m in Relays(n, self, arrivals) <==> m.origin != self && IsFirstHeard(arrivals, m)
    ensures Has(Relays(n, self, arrivals), m.id) ==> HeardFrom(arrivals, m.id) != {}
  {
    if |arrivals| > 0 {
      var init, last := arrivals[..|arrivals| - 1], arrivals[|arrivals| - 1];
      RelaysFirsts(n, self, init, m);
      RelaysFirsts(n, self, init, last.msg);
      assert arrivals == init + [last];
      ArrivalExactly(n, self, init, last);
      HeardSnoc(init, last, m.id);
      FirstHeardSnoc(init, last, m);
      var adds := HeardFrom(init, last.msg.id) == {} && last.msg.origin != self;
      assert Extends(Relays(n, self, init), Relays(n, self, arrivals), adds, last.msg);
      HasExtended(Relays(n, self, init), Relays(n, self, arrivals), adds, last.msg, m.id);
    }
  }

  lemma FirstHeardSnoc(arrivals: seq<Arrived>, a: Arrived, m: Msg)
    ensures IsFirstHeard(arrivals + [a], m)
       <==> IsFirstHeard(arrivals, m) || (a.msg == m && HeardFrom(arrivals, m.id) == {})
  {
    var longer := arrivals + [a];
    if IsFirstHeard(arrivals, m) {
      var i: nat :| FirstHeard(arrivals, i) && arrivals[i].msg == m;
      assert FirstHeard(longer, i) && longer[i] == arrivals[i];
    }
    if a.msg == m && HeardFrom(arrivals, m.id) == {} {
      forall j | 0 <= j < |arrivals|
        ensures longer[j].msg.id != m.id
      {
        assert arrivals[j].msg.id == m.id ==> arrivals[j].sender in HeardFrom(arrivals, m.id);
      }
      assert FirstHeard(longer, |arrivals|);
    }
    if IsFirstHeard(longer, m) {
      var i: nat :| FirstHeard(longer, i) && longer[i].msg == m;
      assert forall j :: 0 <= j < |arrivals| ==> longer[j] == arrivals[j];
      if i < |arrivals| {
        assert FirstHeard(arrivals, i);
      }
    }
  }
}
