/**
 How many crashes uniform reliable broadcast survives, exactly: fewer than half of the peers. With
 half of them gone a run is built in which a peer delivers what no peer that lives ever does.
 */
module UrbBounds {
  import opened Ranks
  import opened Messages
  import opened UrbSpec
  import opened UrbSystem
  import opened UrbTheorems

  /** A settled state of a group of n with at most c crashes. */
  ghost predicate Settled(n: nat, c: nat, s: Sys) {
    Reachable(n, s) && Quiescent(s) && |s.crashed| <= c
  }

  /** What any peer delivered, all live peers have delivered. */
  ghost predicate Uniform(n: nat, c: nat) {
    forall s, p, m, r :: Settled(n, c, s) && p in s.log && m in s.log[p] && r in Alive(n, s) ==>
      r in s.log && m in s.log[r]
  }

  /** What a live peer broadcast, all live peers have delivered. */
  ghost predicate Valid(n: nat, c: nat) {
    forall s, m, r :: Settled(n, c, s) && m in s.registry.Values && m.origin in Alive(n, s) && r in Alive(n, s) ==>
      r in s.log && m in s.log[r]
  }

  /**
   Agreement and validity hold with up to c crashes if and only if c is less than half of n, or nobody
   else is there.
   */
  lemma MajorityExact(n: nat, c: nat)
    ensures Uniform(n, c) <==> 2 * c < n || n <= 1
    ensures Valid(n, c) <==> 2 * c < n || n <= 1
  {
    if 2 * c < n || n <= 1 {
      MajorityIsUniform(n, c);
      MajorityIsValid(n, c);
    } else {
      var s := HalfGone(n);
      assert Settled(n, c, s);
      assert s.registry[M.id] == M && M in s.registry.Values;
    }
  }

  lemma MajorityIsUniform(n: nat, c: nat)
    requires 2 * c < n || n <= 1
    ensures Uniform(n, c)
  {
    forall s, p, m, r | Settled(n, c, s) && p in s.log && m in s.log[p] && r in Alive(n, s)
      ensures r in s.log && m in s.log[r]
    {
      EnoughAlive(n, c, s, r);
      UniformAgreement(n, s, p, m);
    }
  }

  lemma MajorityIsValid(n: nat, c: nat)
    requires 2 * c < n || n <= 1
    ensures Valid(n, c)
  {
    forall s, m, r | Settled(n, c, s) && m in s.registry.Values && m.origin in Alive(n, s) && r in Alive(n, s)
      ensures r in s.log && m in s.log[r]
    {
      EnoughAlive(n, c, s, r);
      RegisteredUnderId(n, s, m);
      Validity(n, s, m);
    }
  }

  lemma EnoughAlive(n: nat, c: nat, s: Sys, r: Rank)
    requires Settled(n, c, s) && r in Alive(n, s) && (2 * c < n || n <= 1)
    ensures MajorityAlive(n, s)
  {
    assert s.crashed <= All(n) by {
      ReachableInv(n, s);
    }
    assert All(n) == Alive(n, s) + s.crashed;
    SubsetSize({r}, Alive(n, s));
  }

  lemma RegisteredUnderId(n: nat, s: Sys, m: Msg)
    requires Reachable(n, s) && m in s.registry.Values
    ensures m.id in s.registry && s.registry[m.id] == m
  {
    ReachableInv(n, s);
  }

  // ---------------------------------------------------------------- the run with half of the peers gone

  const M := Msg(1, "id", "body")

  /** M has been broadcast, and sent on to everybody by the ranks up to k; what was handled, who crashed. */
  ghost predicate Underway(n: nat, s: Sys, k: nat, handled: set<Packet>, crashed: set<Rank>) {
    && Reachable(n, s) && s.registry == map[M.id := M]
    && (forall q, d :: q in All(k) && d in All(n) ==> Packet(q, d, M) in s.sent)
    && s.handled == handled && s.crashed == crashed
    && s.peers.Keys == All(n) == s.log.Keys
  }

  /** The packets of rank 1 to the ranks up to k. */
  ghost function FromFirst(k: nat): set<Packet> {
    set q | q in All(k) :: Packet(1, q, M)
  }

  /** The packets of the ranks up to k to rank n. */
  ghost function ToLast(n: nat, k: nat): set<Packet> {
    set q | q in All(k) :: Packet(q, n, M)
  }

  /** The ranks above h up to k. */
  ghost function Upper(h: nat, k: nat): set<Rank> {
    All(k) - All(h)
  }

  lemma Broadcast(n: nat) returns (s: Sys)
    requires n >= 2
    ensures Underway(n, s, 1, {}, {}) && forall q :: q in All(n) ==> s.peers[q] == map[]
  {
    var e := Request(1, M.id, M.body, n);
    assert Run(n, [], Init(n));
    s := Next(n, Init(n), e);
    assert Step(n, Init(n), e, s);
    Extend(n, Init(n), e, s);
    assert forall q :: q in All(1) ==> q == 1;
  }

  /** Everybody up to k has heard from rank 1, and relayed. */
  lemma {:induction false} HearFirst(n: nat, k: nat) returns (s: Sys)
    requires n >= 2 && k <= n
    ensures Underway(n, s, if k == 0 then 1 else k, FromFirst(k), {})
    ensures forall q :: q in All(n) && q > k ==> s.peers[q] == map[]
  {
    if k == 0 {
      s := Broadcast(n);
    } else {
      var before := HearFirst(n, k - 1);
      s := HearOne(n, before, k);
    }
  }

  lemma HearOne(n: nat, before: Sys, k: nat) returns (s: Sys)
    requires n >= 2 && 1 <= k <= n && Underway(n, before, if k == 1 then 1 else k - 1, FromFirst(k - 1), {})
    requires forall q :: q in All(n) && q >= k ==> before.peers[q] == map[]
    ensures Underway(n, s, k, FromFirst(k), {})
    ensures forall q :: q in All(n) && q > k ==> s.peers[q] == map[]
  {
    var p := Packet(1, k, M);
    var e := Arrival(k, p, n + 1);
    assert 1 in All(k) && p in before.sent;
    s := Next(n, before, e);
    assert Step(n, before, e, s);
    Extend(n, before, e, s);
    assert FromFirst(k) == FromFirst(k - 1) + {p};
    FirstRelay(n, before, k);
    OneMoreSends(n, before.sent, s.sent, k);
  }

  /** The arrival from rank 1 makes every other rank relay, and only then changes the rest of the state. */
  lemma FirstRelay(n: nat, before: Sys, k: nat)
    requires k in before.peers && k in before.log && before.peers[k] == map[]
    ensures var s := Next(n, before, Arrival(k, Packet(1, k, M), n + 1));
            && s.sent == (if k == 1 then before.sent else before.sent + Loop(k, M, n))
            && s.registry == before.registry && s.crashed == before.crashed
            && s.handled == before.handled + {Packet(1, k, M)}
            && s.peers.Keys == before.peers.Keys && s.log.Keys == before.log.Keys
            && forall q :: q in before.peers && q != k ==> s.peers[q] == before.peers[q]
  {
    var out := On(n, k, map[], 1, M);
    assert out.relay <==> k != 1;
    var relayed := if out.relay then before.(sent := before.sent + Loop(k, M, n)) else before;
    FinishedKeeps(relayed, k, Packet(1, k, M), out);
  }

  lemma OneMoreSends(n: nat, sent: set<Packet>, sent': set<Packet>, k: nat)
    requires k >= 1 && sent' == if k == 1 then sent else sent + Loop(k, M, n)
    requires forall q, d :: q in All(if k == 1 then 1 else k - 1) && d in All(n) ==> Packet(q, d, M) in sent
    ensures forall q, d :: q in All(k) && d in All(n) ==> Packet(q, d, M) in sent'
  {
    forall q, d | q in All(k) && d in All(n)
      ensures Packet(q, d, M) in sent'
    {
      if q < k || k == 1 {
        assert Packet(q, d, M) in sent;
      } else {
        assert Packet(q, d, M) in Loop(k, M, n);
      }
    }
  }

  /** Rank n has heard from everybody up to k as well. */
  lemma {:induction false} LastHears(n: nat, k: nat) returns (s: Sys)
    requires n >= 2 && 1 <= k <= n
    ensures Underway(n, s, n, FromFirst(n) + ToLast(n, k), {})
  {
    if k == 1 {
      s := HearFirst(n, n);
      assert ToLast(n, 1) == {Packet(1, n, M)};
      assert FromFirst(n) + ToLast(n, 1) == FromFirst(n);
    } else {
      var before := LastHears(n, k - 1);
      s := LastHearsOne(n, before, k);
    }
  }

  lemma LastHearsOne(n: nat, before: Sys, k: nat) returns (s: Sys)
    requires n >= 2 && 2 <= k <= n && Underway(n, before, n, FromFirst(n) + ToLast(n, k - 1), {})
    ensures Underway(n, s, n, FromFirst(n) + ToLast(n, k), {})
  {
    var p := Packet(k, n, M);
    var e := Arrival(n, p, n + 1);
    assert p in before.sent && p !in before.handled;
    s := Next(n, before, e);
    assert Step(n, before, e, s);
    Extend(n, before, e, s);
    NothingLost(n, before, p);
    ToLastSnoc(n, k);
  }

  lemma NothingLost(n: nat, before: Sys, p: Packet)
    requires p.dst in before.peers && p.dst in before.log
    ensures var s := Next(n, before, Arrival(p.dst, p, n + 1));
            && before.sent <= s.sent && s.registry == before.registry && s.crashed == before.crashed
            && s.handled == before.handled + {p}
            && s.peers.Keys == before.peers.Keys && s.log.Keys == before.log.Keys
  {
    var out := On(n, p.dst, before.peers[p.dst], p.src, p.msg);
    if out.relay {
      FinishedKeeps(before.(sent := before.sent + Loop(p.dst, p.msg, n)), p.dst, p, out);
    } else {
      FinishedKeeps(before, p.dst, p, out);
    }
  }

  lemma FinishedKeeps(before: Sys, q: Rank, p: Packet, out: Outcome)
    requires q in before.peers && q in before.log
    ensures var s := Finished(before, q, p, out);
            && s.sent == before.sent && s.registry == before.registry && s.crashed == before.crashed
            && s.handled == before.handled + {p}
            && s.peers.Keys == before.peers.Keys && s.log.Keys == before.log.Keys
            && forall r :: r in before.peers && r != q ==> s.peers[r] == before.peers[r]
  {
  }

  lemma ToLastSnoc(n: nat, k: nat)
    requires k >= 1
    ensures FromFirst(n) + ToLast(n, k) == FromFirst(n) + ToLast(n, k - 1) + {Packet(k, n, M)}
  {
    assert ToLast(n, k) == ToLast(n, k - 1) + {Packet(k, n, M)};
  }

  /** The ranks above h up to k crash. */
  lemma {:induction false} CrashUpper(n: nat, before: Sys, h: nat, k: nat) returns (s: Sys)
    requires n >= 2 && h <= k <= n && Underway(n, before, n, FromFirst(n) + ToLast(n, n), {})
    ensures Underway(n, s, n, FromFirst(n) + ToLast(n, n), Upper(h, k)) && s.log == before.log
  {
    if k == h {
      s := before;
      assert Upper(h, k) == {};
    } else {
      var mid := CrashUpper(n, before, h, k - 1);
      var e := Crash(k);
      s := Next(n, mid, e);
      assert Step(n, mid, e, s);
      Extend(n, mid, e, s);
      assert Upper(h, k) == Upper(h, k - 1) + {k};
    }
  }

  /** Having heard M from everybody, rank n has delivered it. */
  lemma LastDelivered(n: nat, s: Sys)
    requires n >= 2 && Underway(n, s, n, FromFirst(n) + ToLast(n, n), {})
    ensures M in s.log[n]
  {
    ReachableInv(n, s);
    forall q | q in All(n)
      ensures M.id in s.peers[n] && q in s.peers[n][M.id].acks
    {
      assert Packet(q, n, M) in s.handled;
    }
    assert 1 in All(n);
    SubsetSize(All(n), s.peers[n][M.id].acks);
    assert PeerLogged(n, s.peers[n], s.log[n], s.registry);
  }

  /** Half of the peers, rounded up, are gone; one of them delivered M, and of those that live nobody has. */
  lemma HalfGone(n: nat) returns (s: Sys)
    requires n >= 2
    ensures Reachable(n, s) && Quiescent(s) && s.crashed == Upper(n / 2, n) && |s.crashed| == n - n / 2
    ensures n in s.log && M in s.log[n] && s.registry == map[M.id := M]
    ensures 1 in Alive(n, s) && forall r :: r in Alive(n, s) ==> r in s.log && M !in s.log[r]
  {
    var h := n / 2;
    var heard := LastHears(n, n);
    LastDelivered(n, heard);
    var gone := CrashUpper(n, heard, h, n);
    s := Drain(n, gone);
    assert gone.log[n] <= s.log[n];
    UpperSize(h, n);
    LiveHaveNot(n, gone, s);
  }

  lemma UpperSize(h: nat, n: nat)
    requires h <= n
    ensures |Upper(h, n)| == n - h && All(n) - Upper(h, n) == All(h)
  {
    assert All(n) == All(h) + Upper(h, n);
  }

  lemma LiveHaveNot(n: nat, before: Sys, s: Sys)
    requires n >= 2 && Underway(n, before, n, FromFirst(n) + ToLast(n, n), Upper(n / 2, n))
    requires Reachable(n, s) && s.crashed == before.crashed && s.registry == before.registry
    requires forall k :: k in s.handled && k !in before.handled ==> k.src !in s.crashed
    ensures forall r :: r in Alive(n, s) ==> r in s.log && M !in s.log[r]
  {
    forall r | r in Alive(n, s)
      ensures r in s.log && M !in s.log[r]
    {
      LiveHearLive(n, before, s, r);
    }
  }

  /** A live peer has heard M from at most the live half. */
  lemma LiveHearLive(n: nat, before: Sys, s: Sys, r: Rank)
    requires n >= 2 && Underway(n, before, n, FromFirst(n) + ToLast(n, n), Upper(n / 2, n))
    requires Reachable(n, s) && s.crashed == before.crashed && s.registry == before.registry && r in Alive(n, s)
    requires forall k :: k in s.handled && k !in before.handled ==> k.src !in s.crashed
    ensures r in s.log && M !in s.log[r]
  {
    ReachableInv(n, s);
    assert PeerLogged(n, s.peers[r], s.log[r], s.registry);
    if M in s.log[r] {
      LiveAcks(n, before, s, r);
      SubsetSize(s.peers[r][M.id].acks, All(n / 2));
      assert false;
    }
  }

  lemma LiveAcks(n: nat, before: Sys, s: Sys, r: Rank)
    requires n >= 2 && s.crashed == Upper(n / 2, n) && r in Alive(n, s) && r in s.peers && M.id in s.peers[r]
    requires before.handled == FromFirst(n) + ToLast(n, n)
    requires forall q :: q in s.peers[r][M.id].acks ==> Packet(q, r, M) in s.handled
    requires forall k :: k in s.handled ==> k.src in All(n) && (k !in before.handled ==> k.src !in s.crashed)
    ensures s.peers[r][M.id].acks <= All(n / 2)
  {
    assert n in s.crashed && r != n;
    forall q | q in s.peers[r][M.id].acks
      ensures q in All(n / 2)
    {
      var k := Packet(q, r, M);
      if k in before.handled {
        assert k !in ToLast(n, n);
        assert q == 1;
      }
    }
  }
}
