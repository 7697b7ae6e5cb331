/** In-place compaction as a relation between the index before and after compact_data. */
module Compaction {
  import opened Base
  import opened Ranks
  import opened Consolidation

  /** new_location: live slots close ranks, every other slot is sent to `max`, the frozen slot. */
  function NewLocation(live: set<nat>, max: nat, x: nat): nat {
    if x in live then Rank(live, x) else max
  }

  function Renamed(live: set<nat>, max: nat, list: seq<nat>): (r: seq<nat>)
    ensures |r| == |list|
  {
    seq(|list|, k requires 0 <= k < |list| => NewLocation(live, max, list[k]))
  }

  /** An edge of a slot that stays, to a slot that does not: compact_data throws on it. */
  ghost predicate Dangling(g: Graph, live: set<nat>, max: nat, l: nat) {
    l < |g| && exists x :: x in g[l] && x !in live && x != max
  }

  ghost predicate Broken(g: Graph, live: set<nat>, max: nat, l: nat) {
    (l in live || l == max) && Dangling(g, live, max, l)
  }

  ghost predicate SomeBroken(g: Graph, live: set<nat>, max: nat) {
    exists l: nat :: l <= max && Broken(g, live, max, l)
  }

  ghost predicate NoneBroken(g: Graph, live: set<nat>, max: nat, n: nat) {
    forall l: nat | l < n :: !Broken(g, live, max, l)
  }

  lemma NoneIsNotSome(g: Graph, live: set<nat>, max: nat)
    ensures NoneBroken(g, live, max, max + 1) <==> !SomeBroken(g, live, max)
  {}

  /** Every surviving slot's list, renamed, is at its new place, if that lies below `count`; what lies above is
      empty. */
  ghost predicate GraphCompacted(g: Graph, g': Graph, live: set<nat>, max: nat, count: nat)
    requires live <= Below(max) && |g| == |g'| == max + 1
  {
    && (forall l | l in live && Rank(live, l) < count :: g'[Rank(live, l)] == Renamed(live, max, g[l]))
    && (forall k | 0 <= k < max && (|live| <= k || count <= k) :: g'[k] == [])
    && g'[max] == Renamed(live, max, g[max])
  }

  ghost predicate DataCompacted<V>(d: seq<V>, d': seq<V>, live: set<nat>, max: nat)
    requires live <= Below(max) && |d| == |d'| == max + 1
  {
    (forall l | l in live :: d'[Rank(live, l)] == d[l]) && d'[max] == d[max]
  }

  /** The state of the moving loop when it stands at slot `at`: slots below have been moved or cleared,
      slots from `at` on have not been touched. */
  ghost predicate Moved<V>(g: Graph, d: seq<V>, g': Graph, d': seq<V>, live: set<nat>, max: nat, at: nat)
    requires |g| == |g'| == |d| == |d'| == max + 1 && at <= max + 1
  {
    && (forall l | l in live && l < at && l < max ::
          g'[Rank(live, l)] == Renamed(live, max, g[l]) && d'[Rank(live, l)] == d[l])
    && (forall l | at <= l <= max :: g'[l] == g[l] && d'[l] == d[l])
    && (forall k | Rank(live, at) <= k < at && k < max :: g'[k] == [])
    && (at == max + 1 ==> g'[max] == Renamed(live, max, g[max]) && d'[max] == d[max])
  }

  /** Moving a live slot down: its place is free, so the swap leaves an empty list behind. */
  lemma MoveLive<V>(g: Graph, d: seq<V>, g1: Graph, d1: seq<V>, g2: Graph, d2: seq<V>, live: set<nat>, max: nat,
                    at: nat)
    requires |g| == |g1| == |g2| == |d| == |d1| == |d2| == max + 1 && live <= Below(max) && at in live
    requires Moved(g, d, g1, d1, live, max, at)
    requires var r := Rank(live, at);
      && g2[r] == Renamed(live, max, g1[at]) && d2[r] == d1[at]
      && (r != at ==> g2[at] == g1[r])
      && (forall k | 0 <= k <= max && k != r && k != at :: g2[k] == g1[k])
      && (forall k | 0 <= k <= max && k != r :: d2[k] == d1[k])
    ensures Moved(g, d, g2, d2, live, max, at + 1)
  {
    var r := Rank(live, at);
    forall l | l in live && l < at + 1
      ensures g2[Rank(live, l)] == Renamed(live, max, g[l]) && d2[Rank(live, l)] == d[l]
    {
      if l < at {
        RankMonotone(live, l, at);
        assert g2[Rank(live, l)] == g1[Rank(live, l)];
      }
    }
    forall k | r + 1 <= k < at + 1 && k < max ensures g2[k] == [] {
      assert g1[r] == [];
    }
  }

  lemma DropDead<V>(g: Graph, d: seq<V>, g1: Graph, d1: seq<V>, live: set<nat>, max: nat, at: nat)
    requires |g| == |g1| == |d| == |d1| == max + 1 && live <= Below(max) && at !in live && at < max
    requires Moved(g, d, g1, d1, live, max, at)
    ensures Moved(g, d, g1[at := []], d1, live, max, at + 1)
  {
    forall l | l in live && l < at + 1
      ensures g1[at := []][Rank(live, l)] == Renamed(live, max, g[l]) && d1[Rank(live, l)] == d[l]
    {
      RankMonotone(live, l, at);
    }
  }

  lemma RenameFrozen<V>(g: Graph, d: seq<V>, g1: Graph, d1: seq<V>, live: set<nat>, max: nat)
    requires |g| == |g1| == |d| == |d1| == max + 1 && live <= Below(max)
    requires Moved(g, d, g1, d1, live, max, max)
    ensures Moved(g, d, g1[max := Renamed(live, max, g1[max])], d1, live, max, max + 1)
  {
    var g2 := g1[max := Renamed(live, max, g1[max])];
    assert max !in live;
    forall l | l in live
      ensures g2[Rank(live, l)] == Renamed(live, max, g[l]) && d1[Rank(live, l)] == d[l]
    {
      RankMonotone(live, l, max);
      assert g2[Rank(live, l)] == g1[Rank(live, l)];
    }
  }

  lemma MovedAll<V>(g: Graph, d: seq<V>, g': Graph, d': seq<V>, live: set<nat>, max: nat)
    requires |g| == |g'| == |d| == |d'| == max + 1 && live <= Below(max)
    requires Moved(g, d, g', d', live, max, max + 1)
    ensures GraphCompacted(g, g', live, max, max) && DataCompacted(d, d', live, max)
  {
    RankTotal(live, max);
    assert max !in live;
  }
}
