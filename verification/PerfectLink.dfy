/**
 The perfect link over a lossy, duplicating, reordering channel: the sender keeps resending, the
 receiver drops what it has seen, remembering only the hashes of the message keys.
 */
module PerfectLink {
  import opened Messages
  import opened Wire
  import opened Djb2
  import opened TextBuffer
  import Collision

  datatype Datagram = Datagram(sender: nat, id: string, body: string)

  predicate SameKey(a: Datagram, b: Datagram) {
    a.sender == b.sender && a.id == b.id
  }

  function HashOf(d: Datagram): nat {
    Hash(Key(d.sender, d.id))
  }

  // ---------------------------------------------------------------- the receiver over a whole run

  /** The hashes remembered after some arrivals. */
  function Inbox(arrivals: seq<Datagram>): seq<nat> {
    if |arrivals| == 0 then []
    else
      var before, d := Inbox(arrivals[..|arrivals| - 1]), arrivals[|arrivals| - 1];
      if HashOf(d) in before then before else before + [HashOf(d)]
  }

  /** What has been passed up after some arrivals. */
  function Delivered(arrivals: seq<Datagram>): seq<Datagram> {
    if |arrivals| == 0 then []
    else
      var init, d := arrivals[..|arrivals| - 1], arrivals[|arrivals| - 1];
      if HashOf(d) in Inbox(init) then Delivered(init) else Delivered(init) + [d]
  }

  /** The inbox holds the hashes of the deliveries, each once, and every arrival's hash is there. */
  lemma {:induction false} InboxRefines(arrivals: seq<Datagram>)
    ensures |Inbox(arrivals)| == |Delivered(arrivals)|
    ensures forall i :: 0 <= i < |Delivered(arrivals)| ==> Inbox(arrivals)[i] == HashOf(Delivered(arrivals)[i])
    ensures forall i, j :: 0 <= i < j < |Inbox(arrivals)| ==> Inbox(arrivals)[i] != Inbox(arrivals)[j]
    ensures forall d :: d in Delivered(arrivals) ==> d in arrivals
    ensures forall d :: d in arrivals ==> HashOf(d) in Inbox(arrivals)
  {
    if |arrivals| > 0 {
      var init, last := arrivals[..|arrivals| - 1], arrivals[|arrivals| - 1];
      InboxRefines(init);
      assert arrivals == init + [last];
      if HashOf(last) in Inbox(init) {
        assert Inbox(arrivals) == Inbox(init);
      } else {
        assert Inbox(arrivals) == Inbox(init) + [HashOf(last)] && Delivered(arrivals) == Delivered(init) + [last];
      }
    }
  }

  /** Each sender and id is delivered at most once in every run, even when hashes collide. */
  lemma AtMostOnce(arrivals: seq<Datagram>, i: nat, j: nat)
    requires i < j < |Delivered(arrivals)|
    ensures !SameKey(Delivered(arrivals)[i], Delivered(arrivals)[j])
    ensures Delivered(arrivals)[i] in arrivals
  {
    InboxRefines(arrivals);
  }

  /** An arrival is passed up, then and there, if and only if none before it had the same hash. */
  lemma DeliveredFirst(arrivals: seq<Datagram>, d: Datagram)
    ensures Delivered(arrivals + [d])
         == Delivered(arrivals) + if exists a :: a in arrivals && HashOf(a) == HashOf(d) then [] else [d]
  {
    assert (arrivals + [d])[..|arrivals + [d]| - 1] == arrivals;
    InboxRefines(arrivals);
    if HashOf(d) in Inbox(arrivals) {
      var i :| 0 <= i < |Inbox(arrivals)| && Inbox(arrivals)[i] == HashOf(d);
      assert Delivered(arrivals)[i] in arrivals;
    }
  }

  ghost predicate NoCollisions(arrivals: seq<Datagram>) {
    forall a, b :: a in arrivals && b in arrivals && HashOf(a) == HashOf(b) ==> SameKey(a, b)
  }

  ghost predicate DeliversKey(arrivals: seq<Datagram>, a: Datagram) {
    exists i :: 0 <= i < |Delivered(arrivals)| && SameKey(a, Delivered(arrivals)[i])
  }

  lemma DeliversHash(arrivals: seq<Datagram>, a: Datagram) returns (i: nat)
    requires a in arrivals
    ensures i < |Delivered(arrivals)| && HashOf(Delivered(arrivals)[i]) == HashOf(a)
    ensures Delivered(arrivals)[i] in arrivals
  {
    InboxRefines(arrivals);
    i :| 0 <= i < |Inbox(arrivals)| && Inbox(arrivals)[i] == HashOf(a);
  }

  /**
   The hash inbox stands for the set of keys received, and every key received at least once is
   delivered, if and only if no two different keys received have the same hash.
   */
  lemma DeliveryExact(arrivals: seq<Datagram>)
    ensures (forall a :: a in arrivals ==> DeliversKey(arrivals, a)) <==> NoCollisions(arrivals)
  {
    if NoCollisions(arrivals) {
      forall a | a in arrivals
        ensures DeliversKey(arrivals, a)
      {
        var i := DeliversHash(arrivals, a);
      }
    }
    if forall a :: a in arrivals ==> DeliversKey(arrivals, a) {
      forall a, b | a in arrivals && b in arrivals && HashOf(a) == HashOf(b)
        ensures SameKey(a, b)
      {
        SameHashSameDelivery(arrivals, a, b);
      }
    }
  }

  lemma DeliveredHashesDiffer(arrivals: seq<Datagram>, i: nat, j: nat)
    requires i < |Delivered(arrivals)| && j < |Delivered(arrivals)| && i != j
    ensures HashOf(Delivered(arrivals)[i]) != HashOf(Delivered(arrivals)[j])
  {
    InboxRefines(arrivals);
    assert Inbox(arrivals)[i] != Inbox(arrivals)[j];
  }

  lemma SameHashSameDelivery(arrivals: seq<Datagram>, a: Datagram, b: Datagram)
    requires DeliversKey(arrivals, a) && DeliversKey(arrivals, b) && HashOf(a) == HashOf(b)
    ensures SameKey(a, b)
  {
    var i :| 0 <= i < |Delivered(arrivals)| && SameKey(a, Delivered(arrivals)[i]);
    var j :| 0 <= j < |Delivered(arrivals)| && SameKey(b, Delivered(arrivals)[j]);
    if i != j {
      DeliveredHashesDiffer(arrivals, i, j);
      assert false;
    }
  }

  /**
   Such keys exist among well-formed ones: two messages of one sender under different ids of 36
   characters have the same hash. If both arrive, the second is never delivered.
   */
  lemma CollisionLosesMessage(sender: nat, x: string, y: string)
    requires |Decimal(sender)| + 36 <= MAX_TEXT
    ensures var a, b := Datagram(sender, Collision.ID_A, x), Datagram(sender, Collision.ID_B, y);
            && |a.id| == |b.id| == 36 && ',' !in a.id && ',' !in b.id
            && !SameKey(a, b) && HashOf(a) == HashOf(b)
            && Delivered([a, b]) == [a] && !DeliversKey([a, b], b)
  {
    var a, b := Datagram(sender, Collision.ID_A, x), Datagram(sender, Collision.ID_B, y);
    Collision.IdsCollide(Decimal(sender));
    Collision.IdsDiffer();
    SecondIsLost(a, b);
  }

  lemma SecondIsLost(a: Datagram, b: Datagram)
    requires HashOf(a) == HashOf(b) && !SameKey(a, b)
    ensures Delivered([a, b]) == [a] && !DeliversKey([a, b], b)
  {
    assert [a, b][..1] == [a] && [a][..0] == [];
    assert Inbox([a]) == [HashOf(a)] && Delivered([a]) == [a];
  }

  // ---------------------------------------------------------------- the sender, and end to end

  /** What happens at a stubborn sender: a message is sent, or the retransmission timer fires. */
  datatype Op<T> = Post(d: T) | Timeout

  function Outbox<T>(ops: seq<Op<T>>): seq<T> {
    if |ops| == 0 then []
    else
      var before := Outbox(ops[..|ops| - 1]);
      match ops[|ops| - 1]
      case Post(d) => before + [d]
      case Timeout => before
  }

  /** Everything put on the channel: each message when sent, and the whole outbox at each timeout. */
  function Channel<T>(ops: seq<Op<T>>): seq<T> {
    if |ops| == 0 then []
    else
      var init := ops[..|ops| - 1];
      match ops[|ops| - 1]
      case Post(d) => Channel(init) + [d]
      case Timeout => Channel(init) + Outbox(init)
  }

  function Timeouts<T>(ops: seq<Op<T>>): nat {
    if |ops| == 0 then 0
    else Timeouts(ops[..|ops| - 1]) + if ops[|ops| - 1].Timeout? then 1 else 0
  }

  lemma {:induction false} OutboxGrows<T>(a: seq<Op<T>>, b: seq<Op<T>>, d: T)
    requires d in Outbox(a)
    ensures d in Outbox(a + b)
  {
    if |b| == 0 {
      assert a + b == a;
    } else {
      OutboxGrows(a, b[..|b| - 1], d);
      assert (a + b)[..|a + b| - 1] == a + b[..|b| - 1];
    }
  }

  /** A message sent once is put on the channel again at every later timeout, without limit. */
  lemma {:induction false} ResentForever<T>(a: seq<Op<T>>, b: seq<Op<T>>, d: T)
    requires d in Outbox(a)
    ensures multiset(Channel(a + b))[d] >= multiset(Channel(a))[d] + Timeouts(b)
  {
    if |b| == 0 {
      assert a + b == a;
    } else {
      var init := b[..|b| - 1];
      ResentForever(a, init, d);
      OutboxGrows(a, init, d);
      assert (a + b)[..|a + b| - 1] == a + init;
    }
  }

  lemma {:induction false} ChannelIsOutbox<T>(ops: seq<Op<T>>, d: T)
    ensures d in Channel(ops) <==> d in Outbox(ops)
  {
    if |ops| > 0 {
      ChannelIsOutbox(ops[..|ops| - 1], d);
    }
  }

  /**
   End to end, for any losses, duplications and reorderings: if the ids sent are never reused and
   the keys sent do not collide, what is delivered is exactly what arrived at least once, each
   message once, and nothing that was not sent.
   */
  lemma EndToEnd(ops: seq<Op<Datagram>>, arrivals: seq<Datagram>)
    requires forall a :: a in arrivals ==> a in Channel(ops)
    requires forall a, b :: a in Outbox(ops) && b in Outbox(ops) && SameKey(a, b) ==> a == b
    requires NoCollisions(Outbox(ops))
    ensures forall d :: d in Delivered(arrivals) <==> d in arrivals
    ensures forall d :: d in Delivered(arrivals) ==> d in Outbox(ops)
    ensures forall i, j :: 0 <= i < j < |Delivered(arrivals)| ==> Delivered(arrivals)[i] != Delivered(arrivals)[j]
  {
    forall a | a in arrivals
      ensures a in Outbox(ops)
    {
      ChannelIsOutbox(ops, a);
    }
    InboxRefines(arrivals);
    forall a | a in arrivals
      ensures a in Delivered(arrivals)
    {
      var i := DeliversHash(arrivals, a);
      assert SameKey(a, Delivered(arrivals)[i]);
    }
  }

  // ---------------------------------------------------------------- the program

  /** The stubborn link: `network` is what it has handed to the lossy channel, `ops` its history. */
  class StubbornLink {
    var outbox: seq<Outgoing>
    var network: seq<Outgoing>
    ghost var ops: seq<Op<Outgoing>>

    ghost predicate Valid()
      reads this
    {
      outbox == Outbox(ops) && network == Channel(ops)
    }

    constructor ()
      ensures Valid() && ops == []
    {
      outbox, network, ops := [], [], [];
    }

    method Send(e: Outgoing)
      requires Valid()
      modifies this
      ensures Valid() && ops == old(ops) + [Post(e)]
      ensures outbox == old(outbox) + [e] && network == old(network) + [e]
    {
      outbox := outbox + [e];
      network := network + [e];
      ops := ops + [Post(e)];
      assert ops[..|ops| - 1] == old(ops);
    }

    method HandleTimeout()
      requires Valid()
      modifies this
      ensures Valid() && ops == old(ops) + [Timeout]
      ensures outbox == old(outbox) && network == old(network) + outbox
    {
      for i := 0 to |outbox|
        invariant outbox == old(outbox) && ops == old(ops)
        invariant network == old(network) + outbox[..i]
      {
        network := network + [outbox[i]];
      }
      ops := ops + [Timeout];
      assert ops[..|ops| - 1] == old(ops);
    }
  }

  function Texts(ds: seq<Datagram>): (r: seq<(nat, string)>)
    ensures |r| == |ds| && forall i :: 0 <= i < |ds| ==> r[i] == (ds[i].sender, ds[i].body)
  {
    seq(|ds|, i requires 0 <= i < |ds| => (ds[i].sender, ds[i].body))
  }

  class PerfectLink {
    const stubbornLink: StubbornLink
    /** One hash per message delivered, and what was passed to the callback of the layer above. */
    var inbox: seq<nat>
    var delivered: seq<(nat, string)>
    ghost var arrivals: seq<Datagram>

    ghost predicate Valid()
      reads this
    {
      inbox == Inbox(arrivals) && delivered == Texts(Delivered(arrivals))
    }

    constructor ()
      ensures Valid() && arrivals == []
      ensures fresh(stubbornLink) && stubbornLink.Valid() && stubbornLink.ops == []
    {
      stubbornLink := new StubbornLink();
      inbox, delivered, arrivals := [], [], [];
    }

    /** The message goes out under the given fresh id. */
    method Send(id: string, e: Outgoing)
      requires stubbornLink.Valid()
      modifies stubbornLink
      ensures stubbornLink.Valid()
      ensures stubbornLink.ops == old(stubbornLink.ops) + [Post(Outgoing(e.recipient, Frame(id, e.text)))]
    {
      stubbornLink.Send(Outgoing(e.recipient, Frame(id, e.text)));
    }

    method Seen(hash: nat) returns (found: bool)
      ensures found == (hash in inbox)
    {
      for i := 0 to |inbox|
        invariant hash !in inbox[..i]
      {
        if inbox[i] == hash {
          return true;
        }
      }
      return false;
    }

    /** Copies the part before the first comma, the id. */
    static method ReadId(buf: array<char>, ghost id: string, ghost body: string) returns (copy: string)
      requires Holds(buf, id + "," + body) && ',' !in id
      ensures copy == id
    {
      ghost var text := id + "," + body;
      assert text[|id|] == ',' && text[..|id|] == id;
      assert forall k :: 0 <= k < |id| ==> text[k] == id[k] && id[k] in id;
      var idLen := CommaSpan(buf, text);
      copy := buf[..idLen];
    }

    /** Strips id and comma off the buffer and copies what is left. */
    static method StripId(buf: array<char>, idLen: nat, ghost id: string, ghost body: string) returns (up: string)
      requires Holds(buf, id + "," + body) && |id| == idLen && |body| >= idLen + 1 && buf.Length < WORD
      modifies buf
      ensures up == body && Holds(buf, body)
    {
      ghost var text := id + "," + body;
      assert text[idLen + 1..] == body;
      Strip(buf, idLen + 1, text);
      var len := StrLen(buf, body);
      up := buf[..len];
    }

    /**
     The callback of the stubborn link. The id must fit its 37-byte buffer. Unless the message is
     known already, what follows the id must be at least as long as id and separator, or the strip loop
     does not stop (`StripStopsExactly`).
     */
    method Wrapper(sender: nat, buf: array<char>, ghost id: string, ghost body: string)
      requires Valid()
      requires Holds(buf, id + "," + body) && ',' !in id && |id| <= 36
      requires Hash(Key(sender, id)) in inbox || |body| >= |id| + 1
      requires buf.Length <= MAX_TEXT + 1
      modifies this, buf
      ensures Valid() && arrivals == old(arrivals) + [Datagram(sender, id, body)]
      ensures Holds(buf, if inbox == old(inbox) then id + "," + body else body)
    {
      ghost var d := Datagram(sender, id, body);
      ArrivalStep(arrivals, d);
      var copy := ReadId(buf, id, body);
      var hash := HashText(Key(sender, copy));
      var seen := Seen(hash);
      arrivals := arrivals + [d];
      if seen {
        return;
      }
      inbox := inbox + [hash];
      assert |inbox| == |old(inbox)| + 1;
      var up := StripId(buf, |copy|, id, body);
      delivered := delivered + [(sender, up)];
    }
  }

  /** One arrival: nothing changes if its hash is known, else its hash and its text are added. */
  lemma ArrivalStep(arrivals: seq<Datagram>, d: Datagram)
    ensures var next, known := arrivals + [d], HashOf(d) in Inbox(arrivals);
            && Inbox(next) == Inbox(arrivals) + (if known then [] else [HashOf(d)])
            && Texts(Delivered(next)) == Texts(Delivered(arrivals)) + if known then [] else [(d.sender, d.body)]
  {
    assert (arrivals + [d])[..|arrivals + [d]| - 1] == arrivals;
  }
}
