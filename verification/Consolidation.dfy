/** Delete consolidation as a function of the graph it starts from: what consolidate_deletes leaves in
    each adjacency list. */
module Consolidation {
  import opened Base
  import opened Neighbors
  import opened Occlusion

  type Graph = seq<seq<nat>>

  /** The build parameters. `dist` compares the vectors of two slots. `tie` orders equally far
      candidates of a node, standing for whatever order std::sort leaves them in. */
  datatype Params = Params(dist: (nat, nat) -> real, tie: (nat, nat) -> int, alpha: real, range: nat, maxc: nat)

  ghost predicate EdgesInRange(g: Graph) {
    forall i, x | 0 <= i < |g| && x in g[i] :: x < |g|
  }

  predicate NamesDeleted(list: seq<nat>, deleted: set<nat>) {
    exists x :: x in list && x in deleted
  }

  /** A deleted neighbour stands for its own surviving neighbours. */
  function Candidates(g: Graph, deleted: set<nat>, i: nat): (r: set<nat>)
    requires i < |g| && forall x | x in g[i] :: x < |g|
    ensures forall x :: x in r <==> x !in deleted && (x in g[i] || exists d :: d in g[i] && d in deleted && x in g[d])
  {
    (set j | j in g[i] && j !in deleted) +
    (set d, j | d in g[i] && d in deleted && j in g[d] && j !in deleted :: j)
  }

  lemma TheCandidates(g: Graph, deleted: set<nat>, i: nat, s: set<nat>)
    requires i < |g| && forall x | x in g[i] :: x < |g|
    requires forall x :: x in s <==> x !in deleted && (x in g[i] || exists d :: d in g[i] && d in deleted && x in g[d])
    ensures s == Candidates(g, deleted, i)
  {}

  // ---------------------------------------------------------------- sorting a candidate set

  /** Nearer to slot i, or equally near and earlier. */
  predicate Before(p: Params, i: nat, x: nat, y: nat) {
    || p.dist(i, x) < p.dist(i, y)
    || (p.dist(i, x) == p.dist(i, y) && (p.tie(i, x) < p.tie(i, y) || (p.tie(i, x) == p.tie(i, y) && x <= y)))
  }

  ghost predicate IsFirst(p: Params, i: nat, s: set<nat>, m: nat) {
    m in s && forall y | y in s :: Before(p, i, m, y)
  }

  lemma FirstExists(p: Params, i: nat, s: set<nat>) returns (m: nat)
    requires s != {}
    ensures IsFirst(p, i, s, m)
    decreases |s|
  {
    m :| m in s;
    if s != {m} {
      var n := m;
      var k := FirstExists(p, i, s - {n});
      if Before(p, i, k, n) { m := k; }
      forall y | y in s ensures Before(p, i, m, y) {
        if y != n {
          assert Before(p, i, k, y);
          BeforeIsTransitive(p, i, n, k, y);
        }
      }
    }
  }

  lemma BeforeIsTransitive(p: Params, i: nat, x: nat, y: nat, z: nat)
    ensures Before(p, i, x, y) && Before(p, i, y, z) ==> Before(p, i, x, z)
    ensures Before(p, i, x, y) || Before(p, i, y, x)
  {}

  lemma FirstIsUnique(p: Params, i: nat, s: set<nat>, m: nat, n: nat)
    requires IsFirst(p, i, s, m) && IsFirst(p, i, s, n)
    ensures m == n
  {
    assert Before(p, i, m, n) && Before(p, i, n, m);
  }

  /** The candidates in the order in which occlude_list sees them. */
  ghost function Listing(p: Params, i: nat, s: set<nat>): (r: seq<nat>)
    decreases |s|
  {
    if s == {} then []
    else
      assert exists m :: IsFirst(p, i, s, m) by { var m := FirstExists(p, i, s); }
      var m :| IsFirst(p, i, s, m);
      [m] + Listing(p, i, s - {m})
  }

  lemma {:induction false} ListingIsSorted(p: Params, i: nat, s: set<nat>)
    ensures var r := Listing(p, i, s);
      && |r| == |s|
      && (forall x :: x in r <==> x in s)
      && (forall a, b | 0 <= a < b < |r| :: Before(p, i, r[a], r[b]) && r[a] != r[b])
    decreases |s|
  {
    if s != {} {
      var m := Listing(p, i, s)[0];
      ListingIsSorted(p, i, s - {m});
      var rest := Listing(p, i, s - {m});
      assert Listing(p, i, s) == [m] + rest;
      forall b | 0 <= b < |rest| ensures Before(p, i, m, rest[b]) && m != rest[b] {
        assert rest[b] in rest;
      }
    }
  }

  method List(p: Params, i: nat, s: set<nat>) returns (r: seq<nat>)
    ensures r == Listing(p, i, s)
  {
    r := [];
    var rest := s;
    while rest != {}
      invariant r + Listing(p, i, rest) == Listing(p, i, s)
      decreases |rest|
    {
      ghost var first := FirstExists(p, i, rest);
      var m :| m in rest && forall y | y in rest :: Before(p, i, m, y);
      ghost var f := Listing(p, i, rest)[0];
      assert IsFirst(p, i, rest, f) && IsFirst(p, i, rest, m);
      FirstIsUnique(p, i, rest, f, m);
      assert Listing(p, i, rest) == [m] + Listing(p, i, rest - {m});
      assert r + ([m] + Listing(p, i, rest - {m})) == (r + [m]) + Listing(p, i, rest - {m});
      r, rest := r + [m], rest - {m};
    }
  }

  // ---------------------------------------------------------------- repairing one list

  function AsNeighbors(p: Params, i: nat, ids: seq<nat>): (r: seq<Neighbor>)
    ensures |r| == |ids|
    ensures forall k | 0 <= k < |ids| :: r[k].id == ids[k] && r[k].distance == p.dist(i, ids[k])
  {
    seq(|ids|, k requires 0 <= k < |ids| => Neighbor(ids[k], p.dist(i, ids[k]), true))
  }

  function PruneProblem(p: Params, i: nat, ids: seq<nat>): Problem {
    Problem(AsNeighbors(p, i, ids), p.dist, p.alpha, p.range, p.maxc)
  }

  /** The copying loop: the ids of the picks, without i and without deleted ones. */
  function Survivors(result: seq<Neighbor>, i: nat, deleted: set<nat>): (r: seq<nat>)
    ensures |r| <= |result|
  {
    if result == [] then []
    else
      var k := |result| - 1;
      var front := Survivors(result[..k], i, deleted);
      if result[k].id != i && result[k].id !in deleted then front + [result[k].id] else front
  }

  lemma {:induction false} SurvivorsAre(result: seq<Neighbor>, i: nat, deleted: set<nat>)
    ensures forall x :: x in Survivors(result, i, deleted) <==> x != i && x !in deleted && Has(result, x)
  {
    if result != [] {
      var k := |result| - 1;
      var front := Survivors(result[..k], i, deleted);
      SurvivorsAre(result[..k], i, deleted);
      forall x ensures Has(result, x) <==> Has(result[..k], x) || x == result[k].id {
        if Has(result[..k], x) {
          var j :| 0 <= j < k && result[..k][j].id == x;
          assert result[j].id == x;
        }
        if Has(result, x) && x != result[k].id {
          var j :| 0 <= j < |result| && result[j].id == x;
          assert result[..k][j].id == x;
        }
      }
    }
  }

  /** At most one is dropped if no id occurs twice and none is deleted. */
  lemma {:induction false} SurvivorsCount(result: seq<Neighbor>, i: nat, deleted: set<nat>)
    requires Distinct(result) && forall k | 0 <= k < |result| :: result[k].id !in deleted
    ensures |Survivors(result, i, deleted)| == |result| - if Has(result, i) then 1 else 0
    ensures !Has(result, i) ==> forall k | 0 <= k < |result| :: Survivors(result, i, deleted)[k] == result[k].id
  {
    if result != [] {
      var k := |result| - 1;
      SurvivorsCount(result[..k], i, deleted);
      assert forall j | 0 <= j < k :: result[..k][j] == result[j];
      if result[k].id == i {
        assert forall j | 0 <= j < k :: result[j].id != i;
      } else if Has(result, i) {
        var j :| 0 <= j < |result| && result[j].id == i;
        assert result[..k][j].id == i;
      }
    }
  }

  ghost function Repaired(p: Params, g: Graph, deleted: set<nat>, i: nat): seq<nat>
    requires i < |g| && forall x | x in g[i] :: x < |g|
  {
    var c := PruneProblem(p, i, Listing(p, i, Candidates(g, deleted, i)));
    assert InRange(Picks(c), |c.pool|) by { PicksAreGreedy(c, Picks(c)); }
    Survivors(Chosen(c, Picks(c)), i, deleted)
  }

  /** What the pass leaves in slot i's list: only retained slots with a deleted neighbour change. */
  ghost function NewList(p: Params, g: Graph, deleted: set<nat>, empty: set<nat>, i: nat): seq<nat>
    requires i < |g| && EdgesInRange(g)
  {
    if i !in deleted && i !in empty && NamesDeleted(g[i], deleted) then Repaired(p, g, deleted, i) else g[i]
  }

  ghost function Consolidated(p: Params, g: Graph, deleted: set<nat>, empty: set<nat>): (r: Graph)
    requires EdgesInRange(g)
    ensures |r| == |g|
  {
    seq(|g|, i requires 0 <= i < |g| => NewList(p, g, deleted, empty, i))
  }

  /** A list depends on nothing but itself and the lists of deleted slots, which nobody writes. */
  lemma CandidatesAreLocal(g: Graph, g': Graph, deleted: set<nat>, i: nat)
    requires |g| == |g'| && i < |g| && g[i] == g'[i] && forall x | x in g[i] :: x < |g|
    requires forall d | d in deleted && d < |g| :: g[d] == g'[d]
    ensures Candidates(g, deleted, i) == Candidates(g', deleted, i)
  {}

  /** c asks for at most `range` of the first maxc slots of `order`, seen from i. */
  ghost predicate Poses(p: Params, i: nat, order: seq<nat>, c: Problem) {
    && |c.pool| == |order|
    && (forall k | 0 <= k < |order| :: c.pool[k].id == order[k] && c.pool[k].distance == p.dist(i, order[k]))
    && c.dist == p.dist && c.alpha == p.alpha && c.degree == p.range && c.maxc == p.maxc
  }

  /** The repair of a list, from the graph alone: the neighbours that stay and those of deleted neighbours, in
      order of distance, are pruned, and the picks are kept, except i itself. */
  ghost predicate RepairedFrom(p: Params, g: Graph, deleted: set<nat>, i: nat, order: seq<nat>, picks: seq<nat>,
                               r: seq<nat>)
    requires i < |g| && forall x | x in g[i] :: x < |g|
  {
    && NoRepeats(order)
    && (forall x :: x in order <==> x !in deleted && (x in g[i] || exists d :: d in g[i] && d in deleted && x in g[d]))
    && (forall a, b | 0 <= a < b < |order| :: p.dist(i, order[a]) <= p.dist(i, order[b]))
    && Poses(p, i, order, PruneProblem(p, i, order)) && Greedy(PruneProblem(p, i, order), picks)
    && NoRepeats(r)
    && (forall x :: x in r <==> x != i && exists k :: 0 <= k < |picks| && picks[k] < |order| && order[picks[k]] == x)
  }

  lemma PicksDistinct(c: Problem, picks: seq<nat>)
    requires Greedy(c, picks) && Distinct(c.pool)
    ensures Distinct(Chosen(c, picks))
  {
    forall a: nat, b: nat | a < b < |picks| ensures c.pool[picks[a]].id != c.pool[picks[b]].id {
      PicksDiffer(c, picks, a, b);
    }
  }

  lemma SurvivorsDistinct(result: seq<Neighbor>, i: nat, deleted: set<nat>)
    requires Distinct(result)
    ensures NoRepeats(Survivors(result, i, deleted))
  {
    if result != [] {
      var k := |result| - 1;
      SurvivorsDistinct(result[..k], i, deleted);
      SurvivorsAre(result[..k], i, deleted);
      var front := Survivors(result[..k], i, deleted);
      forall a | 0 <= a < |front| ensures front[a] != result[k].id {
        assert front[a] in front;
        var j :| 0 <= j < k && result[..k][j].id == front[a];
        assert result[..k][j] == result[j];
      }
    }
  }

  /** The ids that are kept of the picks out of an order without deleted slots. */
  lemma KeptAre(p: Params, i: nat, order: seq<nat>, picks: seq<nat>, deleted: set<nat>)
    requires NoRepeats(order) && (forall x | x in order :: x !in deleted)
    requires Greedy(PruneProblem(p, i, order), picks)
    ensures var r := Survivors(Chosen(PruneProblem(p, i, order), picks), i, deleted);
      && NoRepeats(r)
      && (forall x :: x in r <==> x != i && exists k :: 0 <= k < |picks| && order[picks[k]] == x)
      && |r| <= |picks| <= |r| + 1 && (|r| < |picks| ==> i in order)
  {
    var c := PruneProblem(p, i, order);
    var chosen := Chosen(c, picks);
    PicksDistinct(c, picks);
    SurvivorsAre(chosen, i, deleted);
    SurvivorsDistinct(chosen, i, deleted);
    assert forall k | 0 <= k < |picks| :: chosen[k].id == order[picks[k]] && order[picks[k]] in order;
    SurvivorsCount(chosen, i, deleted);
  }

  lemma RepairIsGreedy(p: Params, g: Graph, deleted: set<nat>, i: nat) returns (order: seq<nat>, picks: seq<nat>)
    requires i < |g| && forall x | x in g[i] :: x < |g|
    ensures RepairedFrom(p, g, deleted, i, order, picks, Repaired(p, g, deleted, i))
    ensures var r := Repaired(p, g, deleted, i);
      |r| <= |picks| <= p.range && |picks| <= |r| + 1 && (|r| < |picks| ==> i in order)
  {
    order := Listing(p, i, Candidates(g, deleted, i));
    ListingIsSorted(p, i, Candidates(g, deleted, i));
    picks := Picks(PruneProblem(p, i, order));
    PicksAreGreedy(PruneProblem(p, i, order), picks);
    KeptAre(p, i, order, picks, deleted);
  }

  /** A repaired list: at most `range` entries, no self loop, nothing twice, nothing deleted, and only
      candidates. */
  lemma RepairedIsSound(p: Params, g: Graph, deleted: set<nat>, i: nat)
    requires i < |g| && forall x | x in g[i] :: x < |g|
    ensures var r := Repaired(p, g, deleted, i);
      && |r| <= p.range && NoRepeats(r)
      && forall x | x in r ::
           x != i && x !in deleted && (x in g[i] || exists d :: d in g[i] && d in deleted && x in g[d])
  {
    var order, picks := RepairIsGreedy(p, g, deleted, i);
    forall x | x in Repaired(p, g, deleted, i) ensures x in order {
      var k :| 0 <= k < |picks| && picks[k] < |order| && order[picks[k]] == x;
    }
  }

  /** There are maxc candidates before x. */
  ghost predicate Crowded(p: Params, g: Graph, deleted: set<nat>, i: nat, x: nat)
    requires i < |g| && forall x | x in g[i] :: x < |g|
  {
    exists ys: seq<nat> :: |ys| == p.maxc && NoRepeats(ys)
      && forall y | y in ys ::
           && y != x && y !in deleted && (y in g[i] || exists d :: d in g[i] && d in deleted && y in g[d])
           && p.dist(i, y) <= p.dist(i, x)
  }

  /** A kept slot, or i itself, that is no farther occludes x at an alpha within a factor 1.2 of the last. */
  ghost predicate Shadowed(p: Params, i: nat, r: seq<nat>, x: nat) {
    exists y: nat, last: real ::
      && (y in r || y == i) && 1.0 <= last <= p.alpha < last * 1.2
      && p.dist(i, y) <= p.dist(i, x) && QuotientExceeds(p.dist(i, x), p.dist(x, y), last)
  }

  lemma LeftOut(p: Params, g: Graph, deleted: set<nat>, i: nat, order: seq<nat>, picks: seq<nat>, r: seq<nat>, t: nat)
    requires i < |g| && (forall x | x in g[i] :: x < |g|) && RepairedFrom(p, g, deleted, i, order, picks, r)
    requires |picks| < p.range && p.alpha >= 1.0 && t < |order| && t < p.maxc && t !in picks
    ensures Shadowed(p, i, r, order[t])
  {
    var c := PruneProblem(p, i, order);
    assert Step(0) == 1.0;
    var m := LastStep(p.alpha, 0);
    assert NothingFree(c, picks, Step(m));
    var k :| 0 <= k < |picks| && picks[k] < t && c.Occludes(picks[k], t, Step(m));
    var y := order[picks[k]];
    assert p.dist(i, y) <= p.dist(i, order[t]);
    assert y in r || y == i;
  }

  /** Nothing is lost without a reason: a neighbour that stays, or a neighbour of a deleted one, is in the repaired
      list, or is i, or the list is full, or maxc others come before it, or a kept one shadows it. */
  lemma NothingIsLost(p: Params, g: Graph, deleted: set<nat>, i: nat, x: nat)
    requires i < |g| && (forall y | y in g[i] :: y < |g|) && p.alpha >= 1.0
    requires x !in deleted && (x in g[i] || exists d :: d in g[i] && d in deleted && x in g[d])
    ensures var r := Repaired(p, g, deleted, i);
      || x in r || x == i
      || |r| == p.range
      || (|r| + 1 == p.range && i !in deleted && (i in g[i] || exists d :: d in g[i] && d in deleted && i in g[d]))
      || Crowded(p, g, deleted, i, x)
      || Shadowed(p, i, r, x)
  {
    var r := Repaired(p, g, deleted, i);
    var order, picks := RepairIsGreedy(p, g, deleted, i);
    var t :| 0 <= t < |order| && order[t] == x;
    if t >= p.maxc {
      var ys := order[..p.maxc];
      forall y | y in ys ensures y in order && y != x && p.dist(i, y) <= p.dist(i, x) {
        var a :| 0 <= a < |ys| && ys[a] == y;
        assert order[a] == y && p.dist(i, order[a]) <= p.dist(i, order[t]);
      }
      assert NoRepeats(ys);
      assert Crowded(p, g, deleted, i, x);
    } else if t in picks {
      var k :| 0 <= k < |picks| && picks[k] == t;
    } else if |picks| < p.range {
      LeftOut(p, g, deleted, i, order, picks, r, t);
    }
  }

  /** No edge from a retained slot leads to a deleted one any more, lists without deleted neighbours and
      lists of slots that are not retained are untouched, and repaired lists are sound. */
  lemma ConsolidationIsSound(p: Params, g: Graph, deleted: set<nat>, empty: set<nat>, i: nat)
    requires EdgesInRange(g) && i < |g|
    ensures var r := Consolidated(p, g, deleted, empty);
      && (i in deleted || i in empty || (forall d | d in g[i] :: d !in deleted) ==> r[i] == g[i])
      && (i !in deleted && i !in empty ==> forall x | x in r[i] :: x !in deleted)
      && (i !in deleted && i !in empty && (exists d :: d in g[i] && d in deleted) ==>
            && |r[i]| <= p.range && i !in r[i]
            && (forall x | x in r[i] :: x in g[i] || exists d :: d in g[i] && d in deleted && x in g[d])
            && NoRepeats(r[i]))
  {
    RepairedIsSound(p, g, deleted, i);
  }

  /** And complete: what a deleted neighbour led to is kept, or there is a reason. */
  lemma ConsolidationKeeps(p: Params, g: Graph, deleted: set<nat>, empty: set<nat>, i: nat, x: nat)
    requires EdgesInRange(g) && i < |g| && i !in deleted && i !in empty && p.alpha >= 1.0 && x !in deleted
    requires x in g[i] || exists d :: d in g[i] && d in deleted && x in g[d]
    ensures var r := Consolidated(p, g, deleted, empty)[i];
      || x in r || x == i
      || |r| == p.range
      || (|r| + 1 == p.range && (i in g[i] || exists d :: d in g[i] && d in deleted && i in g[d]))
      || Crowded(p, g, deleted, i, x)
      || Shadowed(p, i, r, x)
  {
    assert Consolidated(p, g, deleted, empty)[i] == NewList(p, g, deleted, empty, i);
    if NamesDeleted(g[i], deleted) {
      NothingIsLost(p, g, deleted, i, x);
    } else {
      assert x in g[i];
    }
  }

  /** And the whole of it: every repaired list is the greedy pruning of those candidates. */
  lemma ConsolidationIsGreedy(p: Params, g: Graph, deleted: set<nat>, empty: set<nat>, i: nat)
    returns (order: seq<nat>, picks: seq<nat>)
    requires EdgesInRange(g) && i < |g| && i !in deleted && i !in empty && exists d :: d in g[i] && d in deleted
    ensures RepairedFrom(p, g, deleted, i, order, picks, Consolidated(p, g, deleted, empty)[i])
  {
    assert NamesDeleted(g[i], deleted);
    order, picks := RepairIsGreedy(p, g, deleted, i);
  }
}
