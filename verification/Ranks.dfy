/** Renumbering: the place a slot takes when the live slots are moved together. */
module Ranks {
  import opened Base

  /** How many live slots lie below n. */
  function Rank(live: set<nat>, n: nat): (r: nat)
    ensures r <= n
  {
    if n == 0 then 0 else Rank(live, n - 1) + if n - 1 in live then 1 else 0
  }

  lemma {:induction false} RankMonotone(live: set<nat>, m: nat, n: nat)
    requires m <= n
    ensures Rank(live, m) <= Rank(live, n)
    ensures m in live && m < n ==> Rank(live, m) < Rank(live, n)
  {
    if m < n {
      RankMonotone(live, m, n - 1);
    }
  }

  lemma {:induction false} RankTotal(live: set<nat>, n: nat)
    requires live <= Below(n)
    ensures Rank(live, n) == |live|
  {
    if n > 0 {
      var rest := live - {n - 1};
      RankTotal(rest, n - 1);
      RankSame(live, rest, n - 1);
    }
  }

  lemma {:induction false} RankSame(a: set<nat>, b: set<nat>, n: nat)
    requires forall k: nat | k < n :: k in a <==> k in b
    ensures Rank(a, n) == Rank(b, n)
  {
    if n > 0 {
      RankSame(a, b, n - 1);
    }
  }

  lemma {:induction false} RankOnto(live: set<nat>, n: nat, j: nat) returns (l: nat)
    requires j < Rank(live, n)
    ensures l < n && l in live && Rank(live, l) == j
  {
    if n - 1 in live && Rank(live, n - 1) == j {
      l := n - 1;
    } else {
      l := RankOnto(live, n - 1, j);
    }
  }

  lemma RankOrder(live: set<nat>, l: nat, m: nat)
    requires l in live && m in live
    ensures l < m <==> Rank(live, l) < Rank(live, m)
  {
    if l < m { RankMonotone(live, l, m); } else { RankMonotone(live, m, l); }
  }

  lemma RankBelow(live: set<nat>, n: nat, l: nat)
    requires live <= Below(n) && l in live
    ensures Rank(live, l) < |live|
  {
    RankTotal(live, n);
    RankMonotone(live, l, n);
  }

  function RankSet(live: set<nat>): set<nat> {
    set l | l in live :: Rank(live, l)
  }

  /** With RankOrder: on the live slots below n, Rank is an order-preserving bijection onto
      0, ..., |live| - 1. */
  lemma RanksFillAPrefix(live: set<nat>, n: nat, j: nat)
    requires live <= Below(n)
    ensures j in RankSet(live) <==> j < |live|
  {
    if j < |live| {
      RankTotal(live, n);
      var l := RankOnto(live, n, j);
    } else if j in RankSet(live) {
      var l :| l in live && Rank(live, l) == j;
      RankBelow(live, n, l);
    }
  }

  lemma RankSetIsPrefix(live: set<nat>, n: nat)
    requires live <= Below(n)
    ensures RankSet(live) == Below(|live|)
  {
    var ranks, prefix := RankSet(live), Below(|live|);
    forall j | j in ranks ensures j in prefix { RanksFillAPrefix(live, n, j); }
    forall j | j in prefix ensures j in ranks { RanksFillAPrefix(live, n, j); }
  }
}
