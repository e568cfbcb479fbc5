/** The eventually perfect detector as the program has it, proved to take the steps of `EpfdSpec`. */
module Epfd {
  import opened Ranks
  import opened Messages
  import opened PfdSpec
  import opened EpfdSpec
  import Wire

  lemma {:induction false} WithoutFirst(list: seq<Rank>, i: nat)
    requires i < |list| && list[i] !in list[..i]
    ensures Without(list, list[i]) == list[..i] + list[i + 1..]
  {
    if i > 0 {
      assert list[0] == list[..i][0];
      assert forall j :: 0 <= j < i - 1 ==> list[1..][j] == list[..i][j + 1];
      WithoutFirst(list[1..], i - 1);
      assert list == [list[0]] + list[1..];
    }
  }

  lemma {:induction false} WithoutNone(list: seq<Rank>, r: Rank)
    requires r !in list
    ensures Without(list, r) == list
  {
    if |list| > 0 {
      WithoutNone(list[1..], r);
      assert list == [list[0]] + list[1..];
    }
  }

  class Epfd {
    const localRank: Rank
    const maxRank: nat
    var alivePeers: seq<Rank>
    var suspectedPeers: seq<Rank>
    /** What the two callbacks were given, and what was handed to the perfect link. */
    var notes: seq<Note>
    var outbox: seq<Outgoing>

    ghost function Cfg(): Config {
      Config(localRank, maxRank)
    }

    ghost function State(): Watcher
      reads this
    {
      Watcher(alivePeers, suspectedPeers, notes)
    }

    /** The ranks in the list of answers are left at zero. */
    constructor (localRank: Rank, maxRank: nat)
      ensures Cfg() == Config(localRank, maxRank) && State() == FreshWatcher(Cfg()) && outbox == []
    {
      this.localRank, this.maxRank := localRank, maxRank;
      alivePeers, suspectedPeers, notes, outbox := [], [], [], [];
      new;
      var i := 1;
      while i < maxRank
        invariant 1 <= i && (i <= maxRank || (maxRank == 0 && i == 1))
        invariant alivePeers == Zeros(|Others(Cfg(), i - 1)|)
        invariant suspectedPeers == [] && notes == [] && outbox == []
      {
        if i != localRank {
          alivePeers := alivePeers + [0];
        }
        i := i + 1;
      }
    }

    method RemoveSuspect(peerRank: Rank)
      modifies `suspectedPeers
      ensures suspectedPeers == Without(old(suspectedPeers), peerRank)
    {
      var i := 0;
      while i < |suspectedPeers|
        invariant i <= |suspectedPeers| && suspectedPeers == old(suspectedPeers)
        invariant peerRank !in suspectedPeers[..i]
      {
        if suspectedPeers[i] == peerRank {
          WithoutFirst(suspectedPeers, i);
          suspectedPeers := suspectedPeers[..i] + suspectedPeers[i + 1..];
          return;
        }
        i := i + 1;
      }
      assert suspectedPeers[..i] == suspectedPeers;
      WithoutNone(suspectedPeers, peerRank);
    }

    method ReviewPeer(peerRank: Rank)
      requires peerRank != localRank
      modifies this
      ensures State() == Review(Cfg(), old(State()), peerRank) && outbox == old(outbox)
    {
      var isAlive := Listed(alivePeers, peerRank);
      var isFaulty := Listed(suspectedPeers, peerRank);
      if !isAlive && !isFaulty {
        suspectedPeers := suspectedPeers + [peerRank];
        notes := notes + [Suspect(peerRank)];
      } else if isAlive && isFaulty {
        RemoveSuspect(peerRank);
        notes := notes + [Restore(peerRank)];
      }
    }

    method HandleTimeout()
      modifies this
      ensures State() == OnReviewTimeout(Cfg(), old(State()))
      ensures outbox == old(outbox) + ToOthers(maxRank, localRank, "HB")
    {
      var peerRank := 1;
      while peerRank <= maxRank
        invariant 1 <= peerRank <= maxRank + 1
        invariant State() == Reviewed(Cfg(), old(State()), peerRank - 1)
        invariant outbox == old(outbox) + ToOthers(peerRank - 1, localRank, "HB")
      {
        if peerRank != localRank {
          ReviewPeer(peerRank);
          outbox := outbox + [Outgoing(peerRank, "HB")];
        }
        peerRank := peerRank + 1;
      }
      while |alivePeers| > 0
        invariant State() == Reviewed(Cfg(), old(State()), maxRank).(alive := alivePeers)
        invariant outbox == old(outbox) + ToOthers(maxRank, localRank, "HB")
        decreases |alivePeers|
      {
        alivePeers := alivePeers[1..];
      }
    }

    /** A heartbeat is answered, an answer is noted, anything else is ignored. */
    method Callback(sender: Rank, text: string)
      modifies this
      ensures suspectedPeers == old(suspectedPeers) && notes == old(notes)
      ensures alivePeers == old(alivePeers) + if "IA" <= text then [sender] else []
      ensures outbox == old(outbox) + if "HB" <= text then [Outgoing(sender, "IA")] else []
    {
      var heartbeat := Wire.TryParseMessage(text, "HB");
      if heartbeat.Some? {
        assert text[0] == 'H';
        outbox := outbox + [Outgoing(sender, "IA")];
      } else {
        var answer := Wire.TryParseMessage(text, "IA");
        if answer.Some? {
          alivePeers := alivePeers + [sender];
        }
      }
    }
  }
}
