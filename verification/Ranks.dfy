/** Peers carry the ranks 1..n. This module holds the finite-set facts the quorum arguments rest on. */
module Ranks {

  type Rank = nat

  /** The ranks of a group of n peers. */
  function All(n: nat): (s: set<Rank>)
    ensures forall r: Rank :: r in s <==> 1 <= r <= n
    ensures |s| == n
  {
    if n == 0 then {} else All(n - 1) + {n}
  }

  lemma SubsetSize<T>(a: set<T>, b: set<T>)
    requires a <= b
    ensures |a| <= |b|
    ensures |a| == |b| ==> a == b
  {
    assert b == a + (b - a);
  }

  lemma UnionSize<T>(a: set<T>, b: set<T>)
    ensures |a + b| <= |a| + |b|
    ensures a !! b ==> |a + b| == |a| + |b|
  {
    assert a + b == a + (b - a);
    SubsetSize(b - a, b);
    if a !! b {
      assert b - a == b;
    }
  }

  /** Two sets that together outnumber the universe they live in share a member. */
  lemma Overlap<T>(a: set<T>, b: set<T>, universe: set<T>) returns (r: T)
    requires a <= universe && b <= universe
    requires |a| + |b| > |universe|
    ensures r in a && r in b
  {
    var shared := a * b;
    if |shared| == 0 {
      UnionSize(a, b);
      SubsetSize(a + b, universe);
    }
    assert |shared| > 0;
    r :| r in shared;
  }

  /** A set larger than another has a member outside it. */
  lemma Outsider<T>(a: set<T>, b: set<T>) returns (r: T)
    requires |a| > |b|
    ensures r in a && r !in b
  {
    var rest := a - b;
    if |rest| == 0 {
      SubsetSize(a, b);
    }
    assert |rest| > 0;
    r :| r in rest;
  }

  /** The scan the detectors and electors make over their lists of ranks. */
  method Listed(list: seq<Rank>, r: Rank) returns (found: bool)
    ensures found == (r in list)
  {
    for i := 0 to |list|
      invariant r !in list[..i]
    {
      if list[i] == r {
        return true;
      }
    }
    return false;
  }

  ghost predicate NoDuplicates<T>(list: seq<T>) {
    forall i, j :: 0 <= i < j < |list| ==> list[i] != list[j]
  }
}
