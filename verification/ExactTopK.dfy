/** Ground truth for the refresh test: the live set is a base collection plus extra vectors minus deleted ids,
    and the exact nearest K are found with a bounded buffer. */
module ExactTopK {
  import opened Base
  import opened Vectors
  import Sorting

  /** Ids are 32 bits wide. */
  const IDS: nat := 0x1_0000_0000

  datatype Neighbor = Neighbor(id: nat, dist: real)

  /** neighbor_less. */
  predicate Less(a: Neighbor, b: Neighbor) {
    if a.dist != b.dist then a.dist < b.dist else a.id < b.id
  }

  predicate AtMost(a: Neighbor, b: Neighbor) {
    !Less(b, a)
  }

  lemma AtMostIsAnOrder()
    ensures Sorting.TotalPreorder(AtMost)
  {}

  ghost predicate Ascending(ids: seq<nat>) {
    forall i, j | 0 <= i < j < |ids| :: ids[i] < ids[j]
  }

  ghost predicate AscendingFrom(ids: seq<nat>, first: nat) {
    Ascending(ids) && forall i | 0 <= i < |ids| :: first <= ids[i]
  }

  /** An ascending list of ids below `bound`. */
  ghost predicate AscendingBelow(ids: seq<nat>, bound: nat) {
    Ascending(ids) && forall i | 0 <= i < |ids| :: ids[i] < bound
  }

  lemma OneMore(ids: seq<nat>, id: nat, first: nat)
    ensures AscendingFrom(ids + [id], first) <==> AscendingFrom(ids, first) && first <= id && AscendingBelow(ids, id)
  {
    var all := ids + [id];
    assert all[|ids|] == id && forall i | 0 <= i < |ids| :: all[i] == ids[i];
  }

  /** What a LiveVectors holds. */
  datatype Collection = Collection(base: seq<Point>, extraIds: seq<nat>, extra: seq<Point>, extraSlot: map<nat, nat>,
                                   deleted: set<nat>) {
    /** Every extra id has a slot, one at which it was added. */
    ghost predicate Ok() {
      && |base| < IDS && |extra| == |extraIds|
      && (forall i | 0 <= i < |extraIds| :: extraIds[i] in extraSlot)
      && forall id | id in extraSlot :: extraSlot[id] < |extraIds| && extraIds[extraSlot[id]] == id
    }

    /** Extra ids come after the base ids, in ascending order. */
    ghost predicate InOrder() {
      AscendingFrom(extraIds, |base|)
    }

    /** ptr, with None for a null pointer. */
    function Ptr(id: nat): Option<Point> {
      if id in deleted then None
      else if id < |base| then Some(base[id])
      else if id in extraSlot && extraSlot[id] < |extra| then Some(extra[extraSlot[id]])
      else None
    }

    /** Live ids, each with its vector. */
    ghost predicate Packed(ids: seq<nat>, packed: seq<Point>) {
      |packed| == |ids| && forall i | 0 <= i < |ids| :: Ptr(ids[i]) == Some(packed[i])
    }

    /** Exactly the live ids, each with its vector; in ascending order if the extra ids are. */
    ghost predicate Lists(ids: seq<nat>, packed: seq<Point>) {
      && Packed(ids, packed)
      && (forall id: nat | Ptr(id).Some? :: id in ids)
      && (InOrder() ==> Ascending(ids))
    }

    /** Where the list stands after i extra ids. */
    ghost predicate PackedUpTo(ids: seq<nat>, packed: seq<Point>, i: nat)
      requires i <= |extraIds|
    {
      && Packed(ids, packed)
      && (forall id: nat | id < |base| && Ptr(id).Some? :: id in ids)
      && (forall k | 0 <= k < i && Ptr(extraIds[k]).Some? :: extraIds[k] in ids)
      && (InOrder() ==> AscendingBelow(ids, if i == 0 then |base| else extraIds[i - 1] + 1))
    }

    lemma OneMoreExtra(ids: seq<nat>, packed: seq<Point>, i: nat)
      requires i < |extraIds| && PackedUpTo(ids, packed, i)
      ensures if Ptr(extraIds[i]).Some?
        then PackedUpTo(ids + [extraIds[i]], packed + [Ptr(extraIds[i]).value], i + 1)
        else PackedUpTo(ids, packed, i + 1)
    {}

    lemma AllListed(ids: seq<nat>, packed: seq<Point>)
      requires Ok() && PackedUpTo(ids, packed, |extraIds|)
      ensures Lists(ids, packed)
    {}
  }

  class LiveVectors {
    const base: seq<Point>
    var extraIds: seq<nat>
    var extra: seq<Point>
    var extraSlot: map<nat, nat>
    var deleted: set<nat>

    function View(): Collection
      reads this
    {
      Collection(base, extraIds, extra, extraSlot, deleted)
    }

    ghost predicate Valid()
      reads this
    {
      View().Ok()
    }

    /** A collection without extras or deletions. */
    constructor (base: seq<Point>)
      requires |base| < IDS
      ensures Valid() && this.base == base && View().InOrder()
      ensures forall id: nat :: View().Ptr(id) == if id < |base| then Some(base[id]) else None
    {
      this.base := base;
      extraIds, extra, extraSlot, deleted := [], [], map[], {};
    }

    /** add_extra. An id of the base keeps its base vector; one added before gets the new vector. */
    method AddExtra(id: nat, v: Point)
      requires Valid() && id < IDS
      modifies this`extraIds, this`extra, this`extraSlot
      ensures Valid()
      ensures View().Ptr(id) == if id in deleted then None else if id < |base| then Some(base[id]) else Some(v)
      ensures forall other: nat | other != id :: View().Ptr(other) == old(View()).Ptr(other)
      ensures View().InOrder() <==> old(View()).InOrder() && |base| <= id && AscendingBelow(old(extraIds), id)
    {
      extraSlot := extraSlot[id := |extraIds|];
      extraIds := extraIds + [id];
      extra := extra + [v];
      OneMore(old(extraIds), id, |base|);
    }

    method MarkDeleted(id: nat)
      requires Valid()
      modifies this`deleted
      ensures Valid() && View().Ptr(id) == None && (View().InOrder() <==> old(View()).InOrder())
      ensures forall other: nat | other != id :: View().Ptr(other) == old(View()).Ptr(other)
    {
      deleted := deleted + {id};
    }
  }

  /** pack_live: base ids first, extra ids after them. */
  method PackLive(live: LiveVectors) returns (ids: seq<nat>, packed: seq<Point>)
    requires live.Valid()
    ensures live.View().Lists(ids, packed)
  {
    var view := live.View();
    ids, packed := PackBase(view);
    for i := 0 to |view.extraIds|
      invariant view.PackedUpTo(ids, packed, i)
    {
      var v := view.Ptr(view.extraIds[i]);
      view.OneMoreExtra(ids, packed, i);
      if v.Some? {
        ids, packed := ids + [view.extraIds[i]], packed + [v.value];
      }
    }
    view.AllListed(ids, packed);
  }

  method PackBase(live: Collection) returns (ids: seq<nat>, packed: seq<Point>)
    ensures live.PackedUpTo(ids, packed, 0)
  {
    ids, packed := [], [];
    for id := 0 to |live.base|
      invariant live.Packed(ids, packed) && AscendingBelow(ids, id)
      invariant forall other: nat | other < id && live.Ptr(other).Some? :: other in ids
    {
      var v := live.Ptr(id);
      if v.Some? {
        ids, packed := ids + [id], packed + [v.value];
      }
    }
  }

  // ---------------------------------------------------------------- the bounded buffer

  /** The candidates of a query, in the order of the live ids. */
  function Candidates(query: Point, ids: seq<nat>, packed: seq<Point>): (r: seq<Neighbor>)
    requires |packed| == |ids| && Points(packed, |query|)
    ensures |r| == |ids|
  {
    seq(|ids|, i requires 0 <= i < |ids| => Neighbor(ids[i], Dist(query, packed[i])))
  }

  /** The K least of `all`, in order: what is left out comes after everything kept. */
  ghost predicate IsTopK(best: seq<Neighbor>, all: seq<Neighbor>, K: nat) {
    && |best| == K
    && (forall i, j | 0 <= i < j < |best| :: Less(best[i], best[j]))
    && (forall i | 0 <= i < |best| :: best[i] in all)
    && forall n | n in all && n !in best :: forall i | 0 <= i < |best| :: Less(best[i], n)
  }

  /** Candidates come with ascending ids. */
  ghost predicate ById(all: seq<Neighbor>) {
    forall i, j | 0 <= i < j < |all| :: all[i].id < all[j].id
  }

  lemma SortedIsStrict(s: seq<Neighbor>, r: seq<Neighbor>)
    requires NoRepeats(s) && multiset(r) == multiset(s) && Sorting.SortedBy(r, AtMost)
    ensures forall i, j | 0 <= i < j < |r| :: Less(r[i], r[j])
    ensures forall n :: n in r <==> n in s
  {
    forall n ensures n in r <==> n in s {
      assert n in multiset(r) <==> n in multiset(s);
    }
    PermutedNoRepeats(s, r);
    forall i, j | 0 <= i < j < |r| ensures Less(r[i], r[j]) {
      assert AtMost(r[i], r[j]);
    }
  }

  /** The buffer has just filled up and was sorted. */
  lemma Filled(all: seq<Neighbor>, best: seq<Neighbor>)
    requires ById(all) && multiset(best) == multiset(all) && Sorting.SortedBy(best, AtMost)
    ensures IsTopK(best, all, |all|)
  {
    assert |multiset(best)| == |best| && |multiset(all)| == |all|;
    SortedIsStrict(all, best);
  }

  /** A later candidate that is no nearer than the last is beaten by it: equal distances are told apart by the
      id, and its id is larger. */
  lemma Rejected(all: seq<Neighbor>, best: seq<Neighbor>, n: Neighbor, K: nat)
    requires K > 0 && IsTopK(best, all, K) && ById(all + [n]) && n.dist >= best[K - 1].dist
    ensures IsTopK(best, all + [n], K)
  {
    forall i | 0 <= i < K ensures Less(best[i], n) && n != best[i] {
      var k :| 0 <= k < |all| && all[k] == best[i];
      assert (all + [n])[k].id < (all + [n])[|all|].id;
      assert i < K - 1 ==> Less(best[i], best[K - 1]);
    }
  }

  /** A nearer one takes the place of the last. */
  lemma Replaced(all: seq<Neighbor>, best: seq<Neighbor>, n: Neighbor, K: nat, sorted: seq<Neighbor>)
    requires K > 0 && IsTopK(best, all, K) && ById(all + [n]) && n.dist < best[K - 1].dist
    requires multiset(sorted) == multiset(best[K - 1 := n]) && Sorting.SortedBy(sorted, AtMost)
    ensures IsTopK(sorted, all + [n], K)
  {
    var s := best[K - 1 := n];
    forall i | 0 <= i < K ensures best[i] != n {
      var k :| 0 <= k < |all| && all[k] == best[i];
      assert (all + [n])[k].id < (all + [n])[|all|].id;
    }
    SortedIsStrict(s, sorted);
    assert |multiset(sorted)| == |sorted| && |multiset(s)| == |s|;
    forall m, i | m in all + [n] && m !in sorted && 0 <= i < |sorted| ensures Less(sorted[i], m) {
      assert m !in s && s[K - 1] == n && sorted[i] in s;
      LeftOut(all, best, n, K, m, sorted[i]);
    }
    forall i | 0 <= i < |sorted| ensures sorted[i] in all + [n] { assert sorted[i] in s; }
  }

  lemma LeftOut(all: seq<Neighbor>, best: seq<Neighbor>, n: Neighbor, K: nat, m: Neighbor, kept: Neighbor)
    requires K > 0 && IsTopK(best, all, K) && n.dist < best[K - 1].dist
    requires m in all && m !in best[K - 1 := n] && kept in best[K - 1 := n]
    ensures Less(kept, m)
  {
    var last := best[K - 1];
    assert Less(kept, last) by {
      var k :| 0 <= k < K && best[K - 1 := n][k] == kept;
    }
    if m != last {
      forall k | 0 <= k < K ensures best[k] != m {
        assert k < K - 1 ==> best[K - 1 := n][k] == best[k];
      }
      assert Less(last, m);
    }
  }

  /** What the buffer holds after the candidates in `all`: all of them, in their order, as long as there is
      room; from then on the K least. */
  ghost predicate Holds(best: seq<Neighbor>, all: seq<Neighbor>, K: nat) {
    if |all| < K then best == all else IsTopK(best, all, K)
  }

  /** The same without regard to ids: in the order of distance once full, and nothing left out is nearer. */
  ghost predicate HoldsNearest(best: seq<Neighbor>, all: seq<Neighbor>, K: nat) {
    if |all| < K then best == all else
      && |best| == K && ByDistance(best)
      && (forall b | b in best :: b in all)
      && (K > 0 ==> forall n | n in all && n !in best :: best[K - 1].dist <= n.dist)
  }

  ghost predicate ByDistance(s: seq<Neighbor>) {
    forall i, j | 0 <= i < j < |s| :: s[i].dist <= s[j].dist
  }

  lemma SortedByDistance(s: seq<Neighbor>, r: seq<Neighbor>)
    requires multiset(r) == multiset(s) && Sorting.SortedBy(r, AtMost)
    ensures |r| == |s| && ByDistance(r) && forall n :: n in r <==> n in s
  {
    assert |multiset(r)| == |r| && |multiset(s)| == |s|;
    forall n ensures n in r <==> n in s {
      assert n in multiset(r) <==> n in multiset(s);
    }
    forall i, j | 0 <= i < j < |r| ensures r[i].dist <= r[j].dist {
      assert AtMost(r[i], r[j]);
    }
  }

  lemma NearerReplaces(all: seq<Neighbor>, best: seq<Neighbor>, n: Neighbor, K: nat, sorted: seq<Neighbor>)
    requires K > 0 && |all| >= K && HoldsNearest(best, all, K) && n.dist < best[K - 1].dist
    requires multiset(sorted) == multiset(best[K - 1 := n]) && Sorting.SortedBy(sorted, AtMost)
    ensures HoldsNearest(sorted, all + [n], K)
  {
    var s, last := best[K - 1 := n], best[K - 1].dist;
    SortedByDistance(s, sorted);
    forall b | b in sorted ensures b in all + [n] && b.dist <= last {
      var k :| 0 <= k < K && s[k] == b;
      assert k < K - 1 ==> b == best[k] && b.dist <= last;
    }
    assert s[K - 1] == n && sorted[K - 1] in sorted;
    assert forall k | 0 <= k < K - 1 :: best[k] == s[k] && s[k] in sorted;
    forall m | m in all + [n] && m !in sorted ensures sorted[K - 1].dist <= m.dist {
      if m in best {
        var k :| 0 <= k < K && best[k] == m;
      }
    }
  }

  /** The loop over the candidates of one query. */
  method NearestOf(query: Point, ids: seq<nat>, packed: seq<Point>, K: nat) returns (best: seq<Neighbor>)
    requires K > 0 && |packed| == |ids| && Points(packed, |query|)
    ensures HoldsNearest(best, Candidates(query, ids, packed), K)
    ensures Ascending(ids) ==> Holds(best, Candidates(query, ids, packed), K)
  {
    ghost var all := Candidates(query, ids, packed);
    AtMostIsAnOrder();
    best := [];
    for i := 0 to |ids|
      invariant HoldsNearest(best, all[..i], K)
      invariant Ascending(ids) ==> Holds(best, all[..i], K)
    {
      var nb := Neighbor(ids[i], Dist(query, packed[i]));
      assert all[..i + 1] == all[..i] + [nb];
      if |best| < K {
        best := best + [nb];
        if |best| == K {
          best := Sorting.Sort(best, AtMost);
          SortedByDistance(all[..i + 1], best);
          if Ascending(ids) { Filled(all[..i + 1], best); }
        }
      } else {
        best := Consider(all[..i], best, nb, K, Ascending(ids));
      }
    }
    assert all[..|ids|] == all;
  }

  /** A candidate against the full buffer. */
  method Consider(ghost all: seq<Neighbor>, best: seq<Neighbor>, nb: Neighbor, K: nat, ghost byId: bool)
    returns (best': seq<Neighbor>)
    requires K > 0 && |all| >= K && HoldsNearest(best, all, K)
    requires byId ==> Holds(best, all, K) && ById(all + [nb])
    ensures HoldsNearest(best', all + [nb], K)
    ensures byId ==> Holds(best', all + [nb], K)
  {
    AtMostIsAnOrder();
    best' := best;
    if nb.dist < best[|best| - 1].dist {
      best' := Sorting.Sort(best[|best| - 1 := nb], AtMost);
      NearerReplaces(all, best, nb, K, best');
      if byId { Replaced(all, best, nb, K, best'); }
    } else if byId {
      Rejected(all, best, nb, K);
    }
  }

  /** A neighbour of the query in the live collection. */
  ghost predicate LiveNeighbor(live: Collection, query: Point, n: Neighbor)
  {
    var p := live.Ptr(n.id);
    p.Some? && |p.value| == |query| && n.dist == Dist(query, p.value)
  }

  /** The answer for one query: with K or more live vectors, the K nearest by distance and then id, in that
      order; with fewer, all of them, in the order of their ids. */
  ghost predicate IsAnswer(live: Collection, query: Point, best: seq<Neighbor>, K: nat)
  {
    && (forall i | 0 <= i < |best| :: LiveNeighbor(live, query, best[i]))
    && |best| <= K
    && if |best| == K then
         && (forall i, j | 0 <= i < j < K :: Less(best[i], best[j]))
         && forall n | LiveNeighbor(live, query, n) && n !in best :: forall i | 0 <= i < K :: Less(best[i], n)
       else
         && ById(best)
         && forall n | LiveNeighbor(live, query, n) :: n in best
  }

  /** The same whatever the order of the extra ids: once there are K entries, in the order of distance, and no live
      vector left out is nearer than the last. */
  ghost predicate AreNearest(live: Collection, query: Point, best: seq<Neighbor>, K: nat)
  {
    && (forall i | 0 <= i < |best| :: LiveNeighbor(live, query, best[i]))
    && |best| <= K
    && if |best| == K then
         && ByDistance(best)
         && forall n | LiveNeighbor(live, query, n) && n !in best :: K > 0 ==> best[K - 1].dist <= n.dist
       else
         forall n | LiveNeighbor(live, query, n) :: n in best
  }

  lemma CandidatesAreLive(live: Collection, query: Point, ids: seq<nat>, packed: seq<Point>, n: Neighbor)
    requires live.Lists(ids, packed) && Points(packed, |query|)
    ensures n in Candidates(query, ids, packed) <==> LiveNeighbor(live, query, n)
  {
    var all := Candidates(query, ids, packed);
    if n in all {
      var i :| 0 <= i < |all| && all[i] == n;
      assert live.Ptr(ids[i]) == Some(packed[i]);
    }
    if LiveNeighbor(live, query, n) {
      assert n.id in ids;
      var i :| 0 <= i < |ids| && ids[i] == n.id;
      assert all[i] == n;
    }
  }

  lemma HeldIsAnswer(live: Collection, query: Point, ids: seq<nat>, packed: seq<Point>, best: seq<Neighbor>, K: nat)
    requires live.Lists(ids, packed) && Points(packed, |query|)
    requires HoldsNearest(best, Candidates(query, ids, packed), K)
    requires live.InOrder() ==> Holds(best, Candidates(query, ids, packed), K)
    ensures AreNearest(live, query, best, K) && (live.InOrder() ==> IsAnswer(live, query, best, K))
  {
    forall n ensures n in Candidates(query, ids, packed) <==> LiveNeighbor(live, query, n) {
      CandidatesAreLive(live, query, ids, packed, n);
    }
  }

  /** compute_exact_gt. */
  method ComputeExactGt(queries: seq<Point>, nEval: nat, live: LiveVectors, K: nat, ghost dim: nat)
    returns (lists: seq<seq<Neighbor>>)
    requires live.Valid() && K > 0 && nEval <= |queries| && Points(queries, dim)
    requires forall id: nat | live.View().Ptr(id).Some? :: |live.View().Ptr(id).value| == dim
    ensures |lists| == nEval
    ensures forall q | 0 <= q < nEval :: AreNearest(live.View(), queries[q], lists[q], K)
    ensures live.View().InOrder() ==> forall q | 0 <= q < nEval :: IsAnswer(live.View(), queries[q], lists[q], K)
  {
    ghost var view := live.View();
    var ids, packed := PackLive(live);
    lists := [];
    for q := 0 to nEval
      invariant |lists| == q
      invariant forall p | 0 <= p < q :: AreNearest(view, queries[p], lists[p], K)
      invariant view.InOrder() ==> forall p | 0 <= p < q :: IsAnswer(view, queries[p], lists[p], K)
    {
      assert Points(packed, |queries[q]|) by {
        forall d | 0 <= d < |packed| ensures |packed[d]| == dim { assert view.Ptr(ids[d]) == Some(packed[d]); }
      }
      var best := NearestOf(queries[q], ids, packed, K);
      HeldIsAnswer(view, queries[q], ids, packed, best, K);
      lists := lists + [best];
    }
  }

  // ---------------------------------------------------------------- when the answer is sorted

  /** Strictly ascending by neighbor_less. */
  ghost predicate Strict(s: seq<Neighbor>) {
    forall i, j | 0 <= i < j < |s| :: Less(s[i], s[j])
  }

  /** The answer is sorted exactly if the buffer filled up, or the candidates happened to come in the order of
      their distances. */
  lemma SortedIff(query: Point, ids: seq<nat>, packed: seq<Point>, K: nat, best: seq<Neighbor>)
    requires |packed| == |ids| && Points(packed, |query|) && Ascending(ids)
    requires Holds(best, Candidates(query, ids, packed), K)
    ensures Strict(best) <==>
      |ids| >= K || forall i, j | 0 <= i < j < |ids| :: Dist(query, packed[i]) <= Dist(query, packed[j])
  {
    var all := Candidates(query, ids, packed);
    forall i, j | 0 <= i < j < |ids|
      ensures Less(all[i], all[j]) <==> Dist(query, packed[i]) <= Dist(query, packed[j])
    {}
  }

  /** Two live vectors, three asked for: the farther one comes first. */
  method UnsortedAnswer() returns (lists: seq<seq<Neighbor>>)
    ensures lists == [[Neighbor(0, 4.0), Neighbor(1, 1.0)]] && !Strict(lists[0])
  {
    var live := new LiveVectors([[2.0], [1.0]]);
    lists := ComputeExactGt([[0.0]], 1, live, 3, 1);
    TwoLive(live.View(), lists[0]);
    assert !Less(lists[0][0], lists[0][1]);
  }

  lemma OneDimension(x: real, y: real)
    ensures Dist([x], [y]) == (x - y) * (x - y)
  {
    assert [x][..0] == [] && [y][..0] == [];
  }

  lemma TwoLive(live: Collection, best: seq<Neighbor>)
    requires live.InOrder() && live.base == [[2.0], [1.0]]
    requires forall id: nat :: live.Ptr(id) == if id < 2 then Some(live.base[id]) else None
    requires IsAnswer(live, [0.0], best, 3)
    ensures best == [Neighbor(0, 4.0), Neighbor(1, 1.0)]
  {
    OneDimension(0.0, 2.0);
    OneDimension(0.0, 1.0);
    var zero, one := Neighbor(0, 4.0), Neighbor(1, 1.0);
    assert live.Ptr(0) == Some([2.0]) && live.Ptr(1) == Some([1.0]);
    assert LiveNeighbor(live, [0.0], zero) && LiveNeighbor(live, [0.0], one);
    forall i | 0 <= i < |best| ensures best[i] == zero || best[i] == one {
      assert LiveNeighbor(live, [0.0], best[i]);
    }
    assert zero in best && one in best;
    var i :| 0 <= i < |best| && best[i] == zero;
    var j :| 0 <= j < |best| && best[j] == one;
    assert best[0].id == 0 && best[1].id == 1;
  }
}
