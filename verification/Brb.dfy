/**
 The handlers of Byzantine reliable broadcast as the program has them: flags and two linked lists
 updated in place. Each method is proved to take exactly the step `BrbSpec` describes with the
 duplicate scans starting at index 1.
 */
module Brb {
  import opened Ranks
  import opened Messages
  import opened BrbSpec
  import opened List
  import Wire

  datatype Indication = Indication(sender: Rank, body: Body)

  function CodeText(code: Code): string {
    match code
    case Send => "SE"
    case Echo => "EC"
    case Ready => "RY"
  }

  /** The step a text makes a peer take; a text with no known code makes it take none. */
  function Handled(cfg: Config, p: Peer, sender: Rank, text: string): Outcome {
    if "SE" <= text then OnSend(cfg, p, sender, Wire.Body(text, "SE"))
    else if "EC" <= text then OnEcho(cfg, p, sender, Wire.Body(text, "EC"))
    else if "RY" <= text then OnReady(cfg, p, sender, Wire.Body(text, "RY"))
    else Outcome(p, Nothing)
  }

  /**
   The codes exclude each other, so each is handled by its own handler, whichever is tried first; a
   text with none of them changes nothing.
   */
  lemma HandledByCode(cfg: Config, p: Peer, sender: Rank, code: Code, text: string)
    ensures CodeText(code) <= text ==>
              Handled(cfg, p, sender, text) == On(cfg, p, sender, code, Wire.Body(text, CodeText(code)))
    ensures !("SE" <= text) && !("EC" <= text) && !("RY" <= text) ==>
              Handled(cfg, p, sender, text) == Outcome(p, Nothing)
  {
    if CodeText(code) <= text {
      assert text[0] == CodeText(code)[0];
    }
  }

  function Broadcasts(n: nat, code: Code, body: Body): seq<Outgoing> {
    ToAll(n, Wire.Frame(CodeText(code), body))
  }

  function SentBy(n: nat, effect: Effect): seq<Outgoing> {
    if effect.Broadcast? then Broadcasts(n, effect.code, effect.body) else []
  }

  function IndicatedBy(effect: Effect): seq<Indication> {
    if effect.Deliver? then [Indication(effect.sender, effect.body)] else []
  }

  /** The three texts on the wire. */
  lemma BroadcastTexts(n: nat, body: Body, o: Outgoing)
    requires |body| + 3 <= 1023
    ensures o in SentBy(n, Effect.Broadcast(Send, body)) ==> o.text == "SE," + body
    ensures o in SentBy(n, Effect.Broadcast(Echo, body)) ==> o.text == "EC," + body
    ensures o in SentBy(n, Effect.Broadcast(Ready, body)) ==> o.text == "RY," + body
  {
    assert "SE" + "," + body == "SE," + body;
    assert "EC" + "," + body == "EC," + body;
    assert "RY" + "," + body == "RY," + body;
  }

  /**
   A broadcast goes to every rank exactly once, and what arrives makes every peer take the step of
   its code with its body.
   */
  lemma HandledAsSent(n: nat, code: Code, body: Body, r: Rank, o: Outgoing, cfg: Config, p: Peer, sender: Rank)
    requires |body| + 3 <= 1023
    ensures SendsTo(SentBy(n, Effect.Broadcast(code, body)), r) == if r in All(n) then 1 else 0
    ensures o in SentBy(n, Effect.Broadcast(code, body)) ==>
              Handled(cfg, p, sender, o.text) == On(cfg, p, sender, code, body)
  {
    var text := Wire.Frame(CodeText(code), body);
    AllOnce(n, text, r);
    Wire.FrameBody(CodeText(code), body);
    HandledByCode(cfg, p, sender, code, text);
  }

  /**
   Any text's step, seen from outside: a delivery is passed on with the sender of the text that
   completed it and the body; nothing is both sent and passed on.
   */
  lemma IndicatedAsDelivered(n: nat, cfg: Config, p: Peer, sender: Rank, text: string)
    ensures var out := Handled(cfg, p, sender, text);
            && |IndicatedBy(out.effect)| == (if out.peer.delivered && !p.delivered then 1 else 0)
            && (out.effect.Deliver? ==>
                  "RY" <= text && IndicatedBy(out.effect) == [Indication(sender, Wire.Body(text, "RY"))])
            && (IndicatedBy(out.effect) != [] ==> SentBy(n, out.effect) == [])
  {
  }

  class Brb {
    const localRank: Rank
    const maxRank: nat
    const senderRank: Rank
    const maxFaultyNodes: nat
    var sentEcho: bool
    var sentReady: bool
    var delivered: bool
    const readys: List<Entry>
    const echos: List<Entry>
    /** What was handed to the authenticated link, and to the callback of the layer above. */
    var outbox: seq<Outgoing>
    var indications: seq<Indication>

    ghost predicate Valid()
      reads echos, readys, echos.nodes, readys.nodes
    {
      && echos.Valid() && readys.Valid()
      && echos != readys
      && forall i, j :: 0 <= i < |echos.nodes| && 0 <= j < |readys.nodes| ==> echos.nodes[i] != readys.nodes[j]
    }

    ghost function Cfg(): Config {
      Config(maxRank, maxFaultyNodes, senderRank, 1)
    }

    ghost function State(): Peer
      reads this, echos, readys
    {
      Peer(sentEcho, sentReady, delivered, echos.contents, readys.contents)
    }

    /** The object has taken the step to the outcome: new state, messages sent, deliveries made. */
    twostate predicate Took(out: Outcome)
      reads this, echos, readys
    {
      && State() == out.peer
      && outbox == old(outbox) + SentBy(maxRank, out.effect)
      && indications == old(indications) + IndicatedBy(out.effect)
    }

    constructor (localRank: Rank, maxRank: nat, senderRank: Rank, maxFaultyNodes: nat)
      ensures Valid() && State() == FRESH_PEER && outbox == [] && indications == []
      ensures Cfg() == Config(maxRank, maxFaultyNodes, senderRank, 1)
    {
      this.localRank, this.maxRank := localRank, maxRank;
      this.senderRank, this.maxFaultyNodes := senderRank, maxFaultyNodes;
      sentEcho, sentReady, delivered := false, false, false;
      readys := new List<Entry>();
      echos := new List<Entry>();
      outbox, indications := [], [];
    }

    method BroadcastAux(body: Body, code: Code)
      modifies `outbox
      ensures outbox == old(outbox) + Broadcasts(maxRank, code, body)
    {
      var peerRank := 1;
      while peerRank <= maxRank
        invariant 1 <= peerRank <= maxRank + 1
        invariant outbox == old(outbox) + Broadcasts(maxRank, code, body)[..peerRank - 1]
      {
        outbox := outbox + [Outgoing(peerRank, Wire.Frame(CodeText(code), body))];
        peerRank := peerRank + 1;
      }
    }

    /** The client operation: the SEND that starts a broadcast. */
    method Broadcast(body: Body)
      modifies `outbox
      ensures outbox == old(outbox) + Broadcasts(maxRank, Send, body)
    {
      BroadcastAux(body, Send);
    }

    method HandleSend(sender: Rank, body: Body)
      requires Valid()
      modifies this
      ensures Valid() && Took(OnSend(Cfg(), old(State()), sender, body))
    {
      if sentEcho || sender != senderRank {
        return;
      }
      sentEcho := true;
      BroadcastAux(body, Echo);
    }

    static method GetCount(list: List<Entry>, body: Body) returns (count: nat)
      requires list.Valid()
      ensures count == Count(list.contents, body)
    {
      count := 0;
      for i := 0 to list.count
        invariant count == Count(list.contents[..i], body)
      {
        var entry := list.Get(i);
        assert list.contents[..i + 1] == list.contents[..i] + [list.contents[i]];
        CountSnoc(list.contents[..i], list.contents[i], body);
        if entry.value.body == body {
          count := count + 1;
        }
      }
      assert list.contents[..list.count] == list.contents;
    }

    /** The duplicate scan; it does not look at entry 0. */
    static method Scan(list: List<Entry>, sender: Rank) returns (found: bool)
      requires list.Valid()
      ensures found == Recorded(list.contents, 1, sender)
    {
      var i := 1;
      while i < list.count
        invariant 1 <= i && forall j :: 1 <= j < i && j < list.count ==> list.contents[j].rank != sender
      {
        var entry := list.Get(i);
        if entry.value.rank == sender {
          return true;
        }
        i := i + 1;
      }
      return false;
    }

    /** The first half of both vote handlers: scan, append, count. */
    static method Record(list: List<Entry>, sender: Rank, body: Body) returns (added: bool, count: nat)
      requires list.Valid()
      modifies list, list.nodes
      ensures list.Valid() && list.Grown()
      ensures added == !Recorded(old(list.contents), 1, sender)
      ensures list.contents == if added then old(list.contents) + [Entry(sender, body)] else old(list.contents)
      ensures added ==> count == Count(list.contents, body)
    {
      var known := Scan(list, sender);
      if known {
        return false, 0;
      }
      list.Add(Entry(sender, body));
      count := GetCount(list, body);
      return true, count;
    }

    method RecordEcho(sender: Rank, body: Body) returns (added: bool, count: nat)
      requires Valid()
      modifies echos, echos.nodes
      ensures Valid() && readys.contents == old(readys.contents)
      ensures added == !Recorded(old(echos.contents), 1, sender)
      ensures echos.contents == if added then old(echos.contents) + [Entry(sender, body)] else old(echos.contents)
      ensures added ==> count == Count(echos.contents, body)
    {
      added, count := Record(echos, sender, body);
    }

    method RecordReady(sender: Rank, body: Body) returns (added: bool, count: nat)
      requires Valid()
      modifies readys, readys.nodes
      ensures Valid() && echos.contents == old(echos.contents)
      ensures added == !Recorded(old(readys.contents), 1, sender)
      ensures readys.contents == if added then old(readys.contents) + [Entry(sender, body)] else old(readys.contents)
      ensures added ==> count == Count(readys.contents, body)
    {
      added, count := Record(readys, sender, body);
    }

    method HandleEcho(sender: Rank, body: Body)
      requires Valid()
      modifies this, echos, echos.nodes
      ensures Valid() && Took(OnEcho(Cfg(), old(State()), sender, body))
    {
      var added, echoCount := RecordEcho(sender, body);
      if !added {
        return;
      }
      ApplyEcho(echoCount, body);
    }

    method ApplyEcho(echoCount: nat, body: Body)
      requires Valid()
      modifies this
      ensures Valid() && Took(Echoed(Cfg(), old(State()), echoCount, body))
    {
      var quorumSize := ((maxRank + maxFaultyNodes) as real / 2.0).Floor;
      ThresholdExact(Cfg(), echoCount);
      if echoCount > quorumSize && !sentReady {
        sentReady := true;
        BroadcastAux(body, Ready);
      }
    }

    method HandleReady(sender: Rank, body: Body)
      requires Valid()
      modifies this, readys, readys.nodes
      ensures Valid() && Took(OnReady(Cfg(), old(State()), sender, body))
    {
      var added, readyCount := RecordReady(sender, body);
      if !added {
        return;
      }
      ApplyReady(readyCount, sender, body);
    }

    method ApplyReady(readyCount: nat, sender: Rank, body: Body)
      requires Valid()
      modifies this
      ensures Valid() && Took(Readied(Cfg(), old(State()), readyCount, sender, body))
    {
      if readyCount > 2 * maxFaultyNodes && !delivered {
        delivered := true;
        indications := indications + [Indication(sender, body)];
      } else if readyCount > maxFaultyNodes && !sentReady {
        sentReady := true;
        BroadcastAux(body, Ready);
      }
    }

    /** The codes are tried one after the other; a message with an unknown one changes nothing. */
    method Callback(sender: Rank, text: string)
      requires Valid()
      modifies this, echos, echos.nodes, readys, readys.nodes
      ensures Valid() && Took(Handled(Cfg(), old(State()), sender, text))
    {
      var body := Wire.TryParseMessage(text, "SE");
      if body.Some? {
        HandleSend(sender, body.value);
        return;
      }
      body := Wire.TryParseMessage(text, "EC");
      if body.Some? {
        HandleEcho(sender, body.value);
        return;
      }
      body := Wire.TryParseMessage(text, "RY");
      if body.Some? {
        HandleReady(sender, body.value);
        return;
      }
    }
  }
}
