/** What the components hand to the links, and the messages of the crash-stop broadcasts. */
module Messages {
  import opened Ranks
  import Wire

  type Id = string
  type Body = string

  /** A broadcast message: whose it is, and under which id. */
  datatype Msg = Msg(origin: Rank, id: Id, body: Body)

  datatype Outgoing = Outgoing(recipient: Rank, text: string)

  /** One text to every rank, in rank order. */
  function ToAll(n: nat, text: string): (r: seq<Outgoing>)
    ensures |r| == n && forall i :: 0 <= i < n ==> r[i] == Outgoing(i + 1, text)
  {
    seq(n, i requires 0 <= i < n => Outgoing(i + 1, text))
  }

  /** A message of the crash-stop broadcasts, first sent or relayed. */
  function RelayToAll(n: nat, m: Msg): (r: seq<Outgoing>)
    ensures |r| == n && forall i :: 0 <= i < n ==> r[i] == Outgoing(i + 1, Wire.EncodeRelay(m.origin, m.id, m.body))
  {
    ToAll(n, Wire.EncodeRelay(m.origin, m.id, m.body))
  }

  /** One text to every rank but one's own, in rank order. */
  function ToOthers(n: nat, self: Rank, text: string): seq<Outgoing> {
    if n == 0 then [] else ToOthers(n - 1, self, text) + if n == self then [] else [Outgoing(n, text)]
  }

  /** How often a rank is sent to. */
  function SendsTo(sends: seq<Outgoing>, r: Rank): nat {
    if |sends| == 0 then 0
    else SendsTo(sends[..|sends| - 1], r) + if sends[|sends| - 1].recipient == r then 1 else 0
  }

  lemma SendsToSnoc(sends: seq<Outgoing>, o: Outgoing, r: Rank)
    ensures SendsTo(sends + [o], r) == SendsTo(sends, r) + if o.recipient == r then 1 else 0
  {
    assert (sends + [o])[..|sends|] == sends;
  }

  lemma AllSnoc(n: nat, text: string)
    requires n > 0
    ensures ToAll(n, text) == ToAll(n - 1, text) + [Outgoing(n, text)]
  {
  }

  /** Everybody gets a text sent to all exactly once. */
  lemma {:induction false} AllOnce(n: nat, text: string, r: Rank)
    ensures SendsTo(ToAll(n, text), r) == if r in All(n) then 1 else 0
  {
    if n > 0 {
      AllOnce(n - 1, text, r);
      AllSnoc(n, text);
      SendsToSnoc(ToAll(n - 1, text), Outgoing(n, text), r);
    }
  }

  /** Everybody else gets exactly the text, exactly once, the peer itself never. */
  lemma {:induction false} OthersOnce(n: nat, self: Rank, text: string, r: Rank)
    ensures SendsTo(ToOthers(n, self, text), r) == if r in All(n) && r != self then 1 else 0
    ensures forall o :: o in ToOthers(n, self, text) ==> o.text == text
  {
    if n > 0 {
      var init := ToOthers(n - 1, self, text);
      OthersOnce(n - 1, self, text, r);
      if n == self {
        assert ToOthers(n, self, text) == init;
      } else {
        assert ToOthers(n, self, text) == init + [Outgoing(n, text)];
        SendsToSnoc(init, Outgoing(n, text), r);
      }
    }
  }
}
