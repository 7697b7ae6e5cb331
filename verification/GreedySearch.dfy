/** Best-first search over the Vamana graph, iterate_to_fixed_point. Slots are numbers below |graph|;
    q is the distance of a slot's vector from the query. */
module GreedySearch {
  import opened Base
  import opened Neighbors
  import Sorting

  /** `pool` is ordered, free of duplicates, and holds the L closest of the visited slots: whatever was
      visited and is not in it lost to a full list. */
  ghost predicate ClosestOf(pool: seq<Neighbor>, L: nat, q: nat -> real, visited: set<nat>) {
    && |pool| <= L && Sorted(pool) && Distinct(pool)
    && (forall i | 0 <= i < |pool| :: pool[i].id in visited && pool[i].distance == q(pool[i].id))
    && (forall v | v in visited && !Has(pool, v) ::
          |pool| == L && L > 0 && q(v) >= pool[L - 1].distance)
  }

  /** The list with nn put in at place r, cut to L entries. */
  function Inserted(pool: seq<Neighbor>, L: nat, nn: Neighbor, r: nat): seq<Neighbor>
    requires r <= |pool| <= L && (|pool| == L ==> r < L)
  {
    if |pool| < L then pool[..r] + [nn] + pool[r..] else pool[..r] + [nn] + pool[r..L - 1]
  }

  lemma InsertedIsOrdered(pool: seq<Neighbor>, L: nat, q: nat -> real, visited: set<nat>, nn: Neighbor, r: nat)
    requires ClosestOf(pool, L, q, visited) && nn.id !in visited && nn.distance == q(nn.id)
    requires r <= |pool| && (|pool| == L ==> r < L)
    requires Sorted(pool[..r] + [nn] + pool[r..])
    ensures var added := Inserted(pool, L, nn, r);
      && |added| <= L && Sorted(added) && Distinct(added)
      && forall i | 0 <= i < |added| :: added[i].id in visited + {nn.id} && added[i].distance == q(added[i].id)
  {
    var full := pool[..r] + [nn] + pool[r..];
    var added := Inserted(pool, L, nn, r);
    assert added == full[..|added|];
  }

  /** What is not in the list any more, or was not before, lost to a full list. */
  lemma InsertedBeatsRest(pool: seq<Neighbor>, L: nat, q: nat -> real, visited: set<nat>, nn: Neighbor, r: nat, v: nat)
    requires ClosestOf(pool, L, q, visited) && r <= |pool| && (|pool| == L ==> r < L)
    requires Sorted(pool[..r] + [nn] + pool[r..])
    requires v in visited + {nn.id} && !Has(Inserted(pool, L, nn, r), v)
    ensures var added := Inserted(pool, L, nn, r); |added| == L > 0 && q(v) >= added[L - 1].distance
  {
    var full := pool[..r] + [nn] + pool[r..];
    var added := Inserted(pool, L, nn, r);
    assert added == full[..|added|];
    assert added[r] == nn;
    if i :| 0 <= i < |pool| && pool[i].id == v {
      var j := if i < r then i else i + 1;
      assert full[j] == pool[i];
      assert j >= |added|;
    } else {
      assert full[L] == pool[L - 1];
    }
  }

  lemma InsertedIsClosest(pool: seq<Neighbor>, L: nat, q: nat -> real, visited: set<nat>, nn: Neighbor, r: nat)
    requires ClosestOf(pool, L, q, visited) && nn.id !in visited && nn.distance == q(nn.id)
    requires r <= |pool| && (|pool| == L ==> r < L)
    requires Sorted(pool[..r] + [nn] + pool[r..])
    ensures ClosestOf(Inserted(pool, L, nn, r), L, q, visited + {nn.id})
  {
    InsertedIsOrdered(pool, L, q, visited, nn, r);
    forall v | v in visited + {nn.id} && !Has(Inserted(pool, L, nn, r), v)
      ensures |Inserted(pool, L, nn, r)| == L > 0 && q(v) >= Inserted(pool, L, nn, r)[L - 1].distance
    {
      InsertedBeatsRest(pool, L, q, visited, nn, r, v);
    }
  }

  lemma SkippedIsClosest(pool: seq<Neighbor>, L: nat, q: nat -> real, visited: set<nat>, id: nat)
    requires ClosestOf(pool, L, q, visited) && |pool| == L > 0 && q(id) >= pool[L - 1].distance
    ensures ClosestOf(pool, L, q, visited + {id})
  {}

  /** Offers an unvisited slot to the list best[..l]; a full list drops its last entry, or refuses a
      slot that is no closer. Returns the new length and the place, if the slot was taken. */
  method Offer(best: array<Neighbor>, l: nat, L: nat, q: nat -> real, id: nat, ghost visited: set<nat>)
    returns (l': nat, place: Option<nat>)
    requires 0 < l <= L < best.Length && ClosestOf(best[..l], L, q, visited) && id !in visited
    modifies best
    ensures l <= l' <= L && ClosestOf(best[..l'], L, q, visited + {id})
    ensures place.None? ==> best[..l'] == old(best[..l])
    ensures place.Some? ==>
      && place.value <= l && (l == L ==> place.value < L)
      && best[..l'] == Inserted(old(best[..l]), L, Neighbor(id, q(id), true), place.value)
  {
    ghost var all, pool := best[..], best[..l];
    assert all[..l] == pool;
    var dist := q(id);
    if dist >= best[l - 1].distance && l == L {
      SkippedIsClosest(pool, L, q, visited, id);
      return l, None;
    }
    var nn := Neighbor(id, dist, true);
    assert !Has(pool, id);
    var r := InsertIntoPool(best, l, nn);
    ghost var longer := best[..][..l + 1];
    Shifted(all, best[..], l, r, nn);
    l' := if l < L then l + 1 else l;
    CutIsClosest(pool, longer, L, q, visited, nn, r);
    assert best[..l'] == longer[..l'];
    place := Some(r);
  }

  lemma Shifted(before: seq<Neighbor>, after: seq<Neighbor>, l: nat, r: nat, nn: Neighbor)
    requires r <= l < |before| && after == before[..r] + [nn] + before[r..l] + before[l + 1..]
    ensures after[..l + 1] == before[..l][..r] + [nn] + before[..l][r..]
  {}

  /** The list one longer than before, cut back to L entries. */
  lemma CutIsClosest(pool: seq<Neighbor>, longer: seq<Neighbor>, L: nat, q: nat -> real, visited: set<nat>,
                     nn: Neighbor, r: nat)
    requires ClosestOf(pool, L, q, visited) && nn.id !in visited && nn.distance == q(nn.id)
    requires 0 < |pool| && r <= |pool| && longer == pool[..r] + [nn] + pool[r..] && Sorted(longer)
    requires nn.distance < pool[|pool| - 1].distance || |pool| < L
    ensures |pool| == L ==> r < L
    ensures longer[..if |pool| < L then |pool| + 1 else L] == Inserted(pool, L, nn, r)
    ensures ClosestOf(Inserted(pool, L, nn, r), L, q, visited + {nn.id})
  {
    PlaceIsInside(pool, L, nn, r);
    InsertedIsPrefix(pool, L, nn, r);
    InsertedIsClosest(pool, L, q, visited, nn, r);
  }

  lemma InsertedIsPrefix(pool: seq<Neighbor>, L: nat, nn: Neighbor, r: nat)
    requires r <= |pool| <= L && (|pool| == L ==> r < L)
    ensures (pool[..r] + [nn] + pool[r..])[..if |pool| < L then |pool| + 1 else L] == Inserted(pool, L, nn, r)
  {}

  lemma PlaceIsInside(pool: seq<Neighbor>, L: nat, nn: Neighbor, r: nat)
    requires 0 < |pool| <= L && r <= |pool| && Sorted(pool[..r] + [nn] + pool[r..])
    requires nn.distance < pool[|pool| - 1].distance || |pool| < L
    ensures |pool| == L ==> r < L
  {
    if r == |pool| {
      var full := pool[..r] + [nn] + pool[r..];
      assert full[r] == nn && full[r - 1] == pool[r - 1];
    }
  }

  /** The flag of a listed slot says that it has not been expanded. */
  ghost predicate FlagsMatch(pool: seq<Neighbor>, expanded: set<nat>) {
    forall i | 0 <= i < |pool| :: pool[i].flag <==> pool[i].id !in expanded
  }

  /** The entries up to place k, as far as they lie before nk, have been expanded. */
  ghost predicate Clear(pool: seq<Neighbor>, nk: nat, k: nat) {
    forall i | 0 <= i < |pool| && i < nk && i <= k :: !pool[i].flag
  }

  function Earlier(nk: nat, place: Option<nat>): nat {
    match place
    case None => nk
    case Some(r) => if r < nk then r else nk
  }

  lemma OfferKeepsFlags(pool: seq<Neighbor>, pool': seq<Neighbor>, L: nat, nn: Neighbor, place: Option<nat>,
                        nk: nat, k: nat, expanded: set<nat>)
    requires |pool| <= L && nn.flag && nn.id !in expanded
    requires place.None? ==> pool' == pool
    requires place.Some? ==>
      && place.value <= |pool| && (|pool| == L ==> place.value < L)
      && pool' == Inserted(pool, L, nn, place.value)
    requires FlagsMatch(pool, expanded) && Clear(pool, nk, k)
    ensures FlagsMatch(pool', expanded) && Clear(pool', Earlier(nk, place), k)
  {}

  /** Offers every unvisited out-neighbour to the list. nk is the smallest place that changed. */
  method Expand(best: array<Neighbor>, l: nat, L: nat, q: nat -> real, des: seq<nat>, k: nat,
                visited: set<nat>, ghost expanded: set<nat>)
    returns (l': nat, nk: nat, visited': set<nat>, cmps: nat)
    requires k < l <= L < best.Length && ClosestOf(best[..l], L, q, visited)
    requires FlagsMatch(best[..l], expanded) && expanded <= visited && Clear(best[..l], l, k)
    modifies best
    ensures l <= l' <= L && ClosestOf(best[..l'], L, q, visited')
    ensures FlagsMatch(best[..l'], expanded) && Clear(best[..l'], nk, k)
    ensures forall x :: x in visited' <==> x in visited || x in des
    ensures |visited'| == |visited| + cmps
  {
    l', nk, visited', cmps := l, l, visited, 0;
    for m := 0 to |des|
      invariant l <= l' <= L && ClosestOf(best[..l'], L, q, visited')
      invariant FlagsMatch(best[..l'], expanded) && Clear(best[..l'], nk, k)
      invariant forall x :: x in visited' <==> x in visited || x in des[..m]
      invariant |visited'| == |visited| + cmps
    {
      var id := des[m];
      assert des[..m + 1] == des[..m] + [id];
      if id !in visited' {
        ghost var pool := best[..l'];
        var l1, place := Offer(best, l', L, q, id, visited');
        OfferKeepsFlags(pool, best[..l1], L, Neighbor(id, q(id), true), place, nk, k, expanded);
        visited', cmps := visited' + {id}, cmps + 1;
        l', nk := l1, Earlier(nk, place);
      }
    }
    assert des[..|des|] == des;
  }

  /** The start: the first L different slots of init_ids. */
  function Seeds(ids: seq<nat>, L: nat): (r: set<nat>)
    ensures forall x | x in r :: x in ids
  {
    if ids == [] then {}
    else
      var r := Seeds(ids[..|ids| - 1], L);
      if |r| == L then r else r + {ids[|ids| - 1]}
  }

  function Elements(s: seq<nat>): set<nat> {
    set x | x in s
  }

  /** An id is a seed if it has an occurrence before which it does not occur, nor L others. */
  ghost predicate ComesEarly(ids: seq<nat>, L: nat, x: nat) {
    exists i :: 0 <= i < |ids| && ids[i] == x && x !in ids[..i] && |Elements(ids[..i])| < L
  }

  lemma OneMoreElement(ids: seq<nat>)
    requires ids != []
    ensures Elements(ids) == Elements(ids[..|ids| - 1]) + {ids[|ids| - 1]}
    ensures |Elements(ids)| == |Elements(ids[..|ids| - 1])| + if ids[|ids| - 1] in ids[..|ids| - 1] then 0 else 1
  {
    var front, last := ids[..|ids| - 1], ids[|ids| - 1];
    assert ids == front + [last];
    assert Elements(ids) == Elements(front) + {last};
    if last in front {
      assert Elements(front) + {last} == Elements(front);
    }
  }

  /** All of them, as long as they are fewer than L. */
  lemma {:induction false} SeedsCount(ids: seq<nat>, L: nat)
    ensures |Elements(ids)| < L ==> Seeds(ids, L) == Elements(ids)
    ensures |Elements(ids)| >= L ==> |Seeds(ids, L)| == L
  {
    if ids == [] {
      assert Elements(ids) == {};
    } else {
      SeedsCount(ids[..|ids| - 1], L);
      OneMoreElement(ids);
    }
  }

  lemma {:induction false} SeedsAreFirst(ids: seq<nat>, L: nat)
    ensures forall x :: x in Seeds(ids, L) <==> ComesEarly(ids, L, x)
  {
    if ids != [] {
      var front, last := ids[..|ids| - 1], ids[|ids| - 1];
      SeedsAreFirst(front, L);
      SeedsCount(front, L);
      forall x ensures x in Seeds(ids, L) <==> ComesEarly(ids, L, x) {
        EarlyGrows(ids, L, x);
        assert x in Elements(front) <==> x in front;
      }
    }
  }

  lemma EarlyGrows(ids: seq<nat>, L: nat, x: nat)
    requires ids != []
    ensures var front, last := ids[..|ids| - 1], ids[|ids| - 1];
      ComesEarly(ids, L, x) <==> ComesEarly(front, L, x) || (x == last && x !in front && |Elements(front)| < L)
  {
    var l := |ids| - 1;
    var front := ids[..l];
    forall i | 0 <= i < l ensures front[i] == ids[i] && front[..i] == ids[..i] {}
    if ComesEarly(front, L, x) {
      var i :| 0 <= i < |front| && front[i] == x && x !in front[..i] && |Elements(front[..i])| < L;
      assert ids[i] == x && ids[..i] == front[..i];
    }
    if ComesEarly(ids, L, x) {
      var i :| 0 <= i < |ids| && ids[i] == x && x !in ids[..i] && |Elements(ids[..i])| < L;
      if i < l { assert front[i] == x && front[..i] == ids[..i]; }
    }
  }

  ghost predicate ClosedUnderEdges(graph: seq<seq<nat>>, C: set<nat>) {
    forall u, j | u in C && u < |graph| && 0 <= j < |graph[u]| :: graph[u][j] in C
  }

  ghost predicate Reached(graph: seq<seq<nat>>, seeds: set<nat>, visited: set<nat>) {
    && seeds <= visited
    && visited <= Below(|graph|)
    && forall C: set<nat> {:trigger ClosedUnderEdges(graph, C)} | ClosedUnderEdges(graph, C) && seeds <= C ::
         visited <= C
  }

  ghost predicate NeighboursIn(graph: seq<seq<nat>>, us: set<nat>, visited: set<nat>) {
    forall u, j | u in us && u < |graph| && 0 <= j < |graph[u]| :: graph[u][j] in visited
  }

  lemma SeedsGrow(ids: seq<nat>, m: nat, L: nat)
    requires m < |ids| && |Seeds(ids[..m], L)| < L
    ensures var r := Seeds(ids[..m], L); Seeds(ids[..m + 1], L) == if ids[m] in r then r else r + {ids[m]}
  {
    assert ids[..m + 1][..m] == ids[..m];
    var r := Seeds(ids[..m], L);
    assert ids[m] in r ==> r + {ids[m]} == r;
  }

  /** The seeds are listed in the order of init_ids, each once, until L are listed. */
  method ListSeeds(best: array<Neighbor>, q: nat -> real, L: nat, initIds: seq<nat>)
    returns (l: nat, visited: set<nat>)
    requires L >= 1 && best.Length == L + 1
    modifies best
    ensures l <= L && l == |visited| && visited == Seeds(initIds, L) && Listed(best[..l], q, visited)
  {
    l, visited := 0, {};
    var m := 0;
    while m < |initIds| && (m == 0 || l != L)
      invariant m <= |initIds| && l <= L && (m == 0 ==> l == 0)
      invariant visited == Seeds(initIds[..m], L) && l == |visited|
      invariant Listed(best[..l], q, visited)
    {
      SeedsGrow(initIds, m, L);
      l, visited := AddSeed(best, l, q, initIds[m], visited);
      m := m + 1;
    }
    SeedsStop(initIds, m, L);
  }

  /** A seed that is not listed yet goes to the end of the list. */
  method AddSeed(best: array<Neighbor>, l: nat, q: nat -> real, id: nat, visited: set<nat>)
    returns (l': nat, visited': set<nat>)
    requires l < best.Length && l == |visited| && Listed(best[..l], q, visited)
    modifies best
    ensures l' == |visited'| <= l + 1 && Listed(best[..l'], q, visited')
    ensures visited' == if id in visited then visited else visited + {id}
  {
    l', visited' := l, visited;
    if id !in visited {
      ghost var pool := best[..l];
      ListedAppend(pool, q, visited, id);
      best[l] := Neighbor(id, q(id), true);
      assert best[..l + 1] == pool + [Neighbor(id, q(id), true)];
      l', visited' := l + 1, visited + {id};
    }
  }

  /** The search before its loop: the seeds listed and sorted, nothing expanded. */
  method Start(q: nat -> real, L: nat, initIds: seq<nat>) returns (best: array<Neighbor>, l: nat, visited: set<nat>)
    requires L >= 1
    ensures fresh(best) && best.Length == L + 1 && l <= L
    ensures visited == Seeds(initIds, L) && ClosestOf(best[..l], L, q, visited)
    ensures FlagsMatch(best[..l], {})
    ensures l == |visited|
  {
    best := new Neighbor[L + 1](_ => Neighbor(0, 0.0, false));
    l, visited := ListSeeds(best, q, L, initIds);
    ghost var unsorted := best[..l];
    var sorted := Sorting.Sort(best[..l], (x: Neighbor, y: Neighbor) => x.distance <= y.distance);
    forall i | 0 <= i < l { best[i] := sorted[i]; }
    assert best[..l] == sorted;
    SortedIsClosest(unsorted, sorted, L, q, visited);
  }

  /** Every seed, once, not yet expanded. */
  ghost predicate Listed(pool: seq<Neighbor>, q: nat -> real, visited: set<nat>) {
    && Distinct(pool)
    && (forall i | 0 <= i < |pool| :: pool[i].id in visited && pool[i].distance == q(pool[i].id) && pool[i].flag)
    && (forall v | v in visited :: Has(pool, v))
  }

  lemma ListedAppend(pool: seq<Neighbor>, q: nat -> real, visited: set<nat>, id: nat)
    requires Listed(pool, q, visited) && id !in visited
    ensures Listed(pool + [Neighbor(id, q(id), true)], q, visited + {id})
  {
    var added := pool + [Neighbor(id, q(id), true)];
    assert added[|pool|].id == id;
    forall v | v in visited ensures Has(added, v) {
      var i :| 0 <= i < |pool| && pool[i].id == v;
      assert added[i].id == v;
    }
  }

  lemma SeedsStop(ids: seq<nat>, m: nat, L: nat)
    requires m <= |ids| && L >= 1 && (m == |ids| || |Seeds(ids[..m], L)| == L)
    ensures Seeds(ids[..m], L) == Seeds(ids, L)
    decreases |ids|
  {
    if m < |ids| {
      var front := ids[..|ids| - 1];
      assert front[..m] == ids[..m];
      SeedsStop(front, m, L);
    } else {
      assert ids[..m] == ids;
    }
  }

  lemma SortedIsClosest(pool: seq<Neighbor>, sorted: seq<Neighbor>, L: nat, q: nat -> real, visited: set<nat>)
    requires |pool| <= L && Listed(pool, q, visited) && multiset(sorted) == multiset(pool)
    requires Sorting.SortedBy(sorted, (x: Neighbor, y: Neighbor) => x.distance <= y.distance)
    ensures ClosestOf(sorted, L, q, visited) && FlagsMatch(sorted, {})
  {
    forall i | 0 <= i < |sorted|
      ensures sorted[i].id in visited && sorted[i].distance == q(sorted[i].id) && sorted[i].flag
    {
      assert sorted[i] in multiset(sorted);
      assert sorted[i] in pool;
    }
    assert |sorted| == |multiset(sorted)| == |pool|;
    forall i, j | 0 <= i < j < |sorted| ensures sorted[i].id != sorted[j].id {
      if sorted[i].id == sorted[j].id {
        assert sorted[i] == sorted[j];
        TwiceInMultiset(sorted, i, j);
        OnceInMultiset(pool, sorted[i]);
      }
    }
    forall v | v in visited ensures Has(sorted, v) {
      var i :| 0 <= i < |pool| && pool[i].id == v;
      assert pool[i] in multiset(pool);
      assert pool[i] in sorted;
    }
  }

  lemma TwiceInMultiset<T>(s: seq<T>, i: nat, j: nat)
    requires i < j < |s| && s[i] == s[j]
    ensures multiset(s)[s[i]] >= 2
  {
    assert s == s[..i] + [s[i]] + s[i + 1..j] + [s[j]] + s[j + 1..];
  }

  lemma OnceInMultiset(s: seq<Neighbor>, e: Neighbor)
    requires Distinct(s)
    ensures multiset(s)[e] <= 1
  {
    if e in s {
      var i :| 0 <= i < |s| && s[i] == e;
      assert s == s[..i] + [e] + s[i + 1..];
      assert e !in s[..i] && e !in s[i + 1..];
    }
  }

  /** The copy of a list made before it is walked: out-neighbours, or the first id that is no slot. */
  method CopyNeighbours(list: seq<nat>, total: nat) returns (wrong: Option<nat>, des: seq<nat>)
    ensures wrong.None? ==> des == list && forall x | x in list :: x < total
    ensures wrong.Some? ==> wrong.value in list && wrong.value >= total
  {
    des := [];
    for m := 0 to |list|
      invariant des == list[..m] && forall x | x in des :: x < total
    {
      if list[m] >= total {
        return Some(list[m]), des;
      }
      des := des + [list[m]];
    }
    wrong := None;
  }

  /** The slots the caller learns about: all expanded ones, except the frozen start unless asked for. */
  function Reported(expanded: set<nat>, ep: nat, frozen: bool, retFrozen: bool): (r: set<nat>)
    ensures forall x :: x in r <==> x in expanded && (x == ep && frozen ==> retFrozen)
  {
    if frozen && !retFrozen then expanded - {ep} else expanded
  }

  ghost predicate InfoMatches(info: seq<Neighbor>, q: nat -> real, ids: set<nat>) {
    && Distinct(info)
    && (forall i | 0 <= i < |info| :: info[i].id in ids && info[i].distance == q(info[i].id) && !info[i].flag)
    && (forall v | v in ids :: Has(info, v))
  }

  /** Where the search stops: the list holds the L closest of everything visited, all of it has been
      expanded, and no edge of a listed slot leads to an unvisited one. */
  ghost predicate FixedPoint(graph: seq<seq<nat>>, L: nat, q: nat -> real, pool: seq<Neighbor>, visited: set<nat>,
                             expanded: set<nat>) {
    && ClosestOf(pool, L, q, visited)
    && (forall i | 0 <= i < |pool| :: !pool[i].flag && pool[i].id in expanded)
    && expanded <= visited
    && NeighboursIn(graph, expanded, visited)
  }

  /** What holds whenever the scan stands at place k. */
  ghost predicate SearchOk(graph: seq<seq<nat>>, L: nat, q: nat -> real, seeds: set<nat>, pool: seq<Neighbor>, k: nat,
                           visited: set<nat>, expanded: set<nat>) {
    && ClosestOf(pool, L, q, visited) && FlagsMatch(pool, expanded)
    && (forall i | 0 <= i < |pool| && i < k :: !pool[i].flag)
    && expanded <= visited && NeighboursIn(graph, expanded, visited)
    && Reached(graph, seeds, visited)
  }

  /** One round of the search loop: expands the entry at place k. */
  method ExpandAt(best: array<Neighbor>, l: nat, graph: seq<seq<nat>>, L: nat, q: nat -> real, ghost seeds: set<nat>,
                  k: nat, visited: set<nat>, ghost expanded: set<nat>)
    returns (wrong: Option<nat>, l': nat, k': nat, visited': set<nat>, cmps: nat)
    requires k < l <= L < best.Length && best[k].flag
    requires SearchOk(graph, L, q, seeds, best[..l], k, visited, expanded)
    modifies best
    ensures wrong.Some? ==>
      && visited' == visited
      && wrong.value >= |graph| && exists u :: u in visited && u < |graph| && wrong.value in graph[u]
    ensures wrong.None? ==>
      && k' <= l' <= L
      && SearchOk(graph, L, q, seeds, best[..l'], k', visited', expanded + {old(best[k].id)})
      && |visited'| == |visited| + cmps
  {
    ghost var before := best[..l];
    var n := best[k].id;
    assert before[k].id == n && n in visited;
    best[k] := best[k].(flag := false);
    ghost var expanded' := expanded + {n};
    assert forall i | 0 <= i < |before| && i != k :: before[i].id != n;
    FlagCleared(before, k, L, q, visited, expanded');
    assert best[..l] == before[k := before[k].(flag := false)];
    l', k', visited', cmps := l, k, visited, 0;
    var des: seq<nat>;
    wrong, des := CopyNeighbours(graph[n], |graph|);
    if wrong.Some? {
      return;
    }
    var nk: nat;
    l', nk, visited', cmps := Expand(best, l, L, q, des, k, visited, expanded');
    VisitedGrows(graph, seeds, visited, expanded', n, visited');
    k' := if nk <= k then nk else k + 1;
  }

  method IterateToFixedPoint(graph: seq<seq<nat>>, q: nat -> real, L: nat, initIds: seq<nat>, ep: nat,
                             frozen: bool, retFrozen: bool)
    returns (wrong: Option<nat>, pool: seq<Neighbor>, visited: set<nat>, info: seq<Neighbor>,
             expandedIds: set<nat>, hops: nat, cmps: nat, ghost expanded: set<nat>)
    requires L >= 1
    requires forall x | x in initIds :: x < |graph|
    ensures Reached(graph, Seeds(initIds, L), visited)
    ensures wrong.None? ==> FixedPoint(graph, L, q, pool, visited, expanded)
    ensures wrong.Some? ==> wrong.value >= |graph| && exists u :: u in visited && u < |graph| && wrong.value in graph[u]
    ensures wrong.None? ==>
      expandedIds == Reported(expanded, ep, frozen, retFrozen) && InfoMatches(info, q, expandedIds)
    ensures wrong.None? ==> |visited| == |Seeds(initIds, L)| + cmps && hops == 0
  {
    var best: array<Neighbor>, l: nat;
    ghost var seeds := Seeds(initIds, L);
    best, l, visited := Start(q, L, initIds);
    info, expandedIds, hops, cmps, expanded, pool := [], {}, 0, 0, {}, [];
    var k := 0;
    while k < l
      invariant 0 <= k <= l <= L && best.Length == L + 1
      invariant SearchOk(graph, L, q, seeds, best[..l], k, visited, expanded)
      invariant Records(q, info, expandedIds, expanded, ep, frozen, retFrozen) && |visited| == |seeds| + cmps
      decreases Below(|graph|) - expanded, l - k
    {
      wrong, l, k, visited, info, expandedIds, cmps, expanded :=
        Turn(best, l, graph, L, q, seeds, k, visited, expanded, info, expandedIds, ep, frozen, retFrozen, cmps);
      if wrong.Some? {
        return;
      }
    }
    wrong, pool := None, best[..l];
  }

  /** What is recorded of the expanded slots. */
  ghost predicate Records(q: nat -> real, info: seq<Neighbor>, ids: set<nat>, expanded: set<nat>, ep: nat, frozen: bool,
                          retFrozen: bool) {
    ids == Reported(expanded, ep, frozen, retFrozen) && InfoMatches(info, q, ids)
  }

  /** One turn of the loop: an entry that has been expanded is passed, any other is recorded and expanded. */
  method Turn(best: array<Neighbor>, l: nat, graph: seq<seq<nat>>, L: nat, q: nat -> real, ghost seeds: set<nat>,
              k: nat, visited: set<nat>, ghost expanded: set<nat>, info: seq<Neighbor>, ids: set<nat>, ep: nat,
              frozen: bool, retFrozen: bool, cmps: nat)
    returns (wrong: Option<nat>, l': nat, k': nat, visited': set<nat>, info': seq<Neighbor>, ids': set<nat>,
             cmps': nat, ghost expanded': set<nat>)
    requires k < l <= L < best.Length && SearchOk(graph, L, q, seeds, best[..l], k, visited, expanded)
    requires Records(q, info, ids, expanded, ep, frozen, retFrozen)
    modifies best
    ensures wrong.Some? ==>
      && visited' == visited
      && wrong.value >= |graph| && exists u :: u in visited && u < |graph| && wrong.value in graph[u]
    ensures wrong.None? ==>
      && k' <= l' <= L && SearchOk(graph, L, q, seeds, best[..l'], k', visited', expanded')
      && Records(q, info', ids', expanded', ep, frozen, retFrozen)
      && |visited'| - cmps' == |visited| - cmps
      && ((expanded' == expanded && l' - k' < l - k) || Below(|graph|) - expanded' < Below(|graph|) - expanded)
  {
    wrong, l', k', visited', info', ids', cmps', expanded' := None, l, k + 1, visited, info, ids, cmps, expanded;
    if best[k].flag {
      Unexpanded(graph, L, q, seeds, best[..l], k, visited, expanded);
      var e := best[k].(flag := false);
      info', ids' := Note(q, info, ids, e, ep, frozen, retFrozen, expanded);
      var c: nat;
      wrong, l', k', visited', c := ExpandAt(best, l, graph, L, q, seeds, k, visited, expanded);
      expanded' := expanded + {e.id};
      cmps' := cmps + c;
      assert e.id in Below(|graph|) - expanded && e.id !in Below(|graph|) - expanded';
    }
  }

  lemma Unexpanded(graph: seq<seq<nat>>, L: nat, q: nat -> real, seeds: set<nat>, pool: seq<Neighbor>, k: nat,
                   visited: set<nat>, expanded: set<nat>)
    requires SearchOk(graph, L, q, seeds, pool, k, visited, expanded)
    requires k < |pool| && pool[k].flag
    ensures var id := pool[k].id; id !in expanded && id in visited && id in Below(|graph|)
    ensures pool[k].distance == q(pool[k].id)
  {}

  /** Records an expanded entry, unless it is the frozen start and that is not asked for. */
  method Note(q: nat -> real, info: seq<Neighbor>, ids: set<nat>, e: Neighbor, ep: nat, frozen: bool, retFrozen: bool,
              ghost expanded: set<nat>)
    returns (info': seq<Neighbor>, ids': set<nat>)
    requires ids == Reported(expanded, ep, frozen, retFrozen) && InfoMatches(info, q, ids)
    requires e.id !in expanded && e.distance == q(e.id) && !e.flag
    ensures ids' == Reported(expanded + {e.id}, ep, frozen, retFrozen) && InfoMatches(info', q, ids')
  {
    info', ids' := info, ids;
    if !(e.id == ep && frozen && !retFrozen) {
      InfoAppend(info, q, ids, e);
      info', ids' := info + [e], ids + {e.id};
    }
  }

  lemma InfoAppend(info: seq<Neighbor>, q: nat -> real, ids: set<nat>, e: Neighbor)
    requires InfoMatches(info, q, ids) && e.id !in ids && e.distance == q(e.id) && !e.flag
    ensures InfoMatches(info + [e], q, ids + {e.id})
  {
    var added := info + [e];
    assert added[|info|].id == e.id;
    forall v | v in ids ensures Has(added, v) {
      var i :| 0 <= i < |info| && info[i].id == v;
      assert added[i].id == v;
    }
  }

  lemma FlagCleared(pool: seq<Neighbor>, k: nat, L: nat, q: nat -> real, visited: set<nat>, expanded: set<nat>)
    requires k < |pool| && ClosestOf(pool, L, q, visited) && pool[k].id in expanded
    requires forall i | 0 <= i < |pool| && i != k :: pool[i].flag <==> pool[i].id !in expanded
    ensures var pool' := pool[k := pool[k].(flag := false)];
      ClosestOf(pool', L, q, visited) && FlagsMatch(pool', expanded)
  {
    var pool' := pool[k := pool[k].(flag := false)];
    forall v | v in visited && !Has(pool', v)
      ensures |pool'| == L && L > 0 && q(v) >= pool'[L - 1].distance
    {
      forall i | 0 <= i < |pool| ensures pool[i].id != v {
        assert pool'[i].id == pool[i].id;
      }
      assert !Has(pool, v);
    }
  }

  lemma VisitedGrows(graph: seq<seq<nat>>, seeds: set<nat>, visited: set<nat>, expanded: set<nat>, n: nat,
                     visited': set<nat>)
    requires Reached(graph, seeds, visited) && n in visited && n < |graph| && n in expanded
    requires forall x | x in graph[n] :: x < |graph|
    requires forall x :: x in visited' <==> x in visited || x in graph[n]
    requires NeighboursIn(graph, expanded - {n}, visited)
    ensures Reached(graph, seeds, visited') && NeighboursIn(graph, expanded, visited')
  {
    forall C: set<nat> | ClosedUnderEdges(graph, C) && seeds <= C ensures visited' <= C {
      assert visited <= C && n in C;
    }
  }

  // ---------------------------------------------------------------- what a fixed point means

  /** No edge out of the result leads to a slot that belongs in it. */
  lemma NoBetterNeighbour(graph: seq<seq<nat>>, L: nat, q: nat -> real, pool: seq<Neighbor>, visited: set<nat>,
                          expanded: set<nat>, i: nat, j: nat)
    requires FixedPoint(graph, L, q, pool, visited, expanded)
    requires i < |pool| && pool[i].id < |graph| && j < |graph[pool[i].id]|
    ensures var x := graph[pool[i].id][j];
      Has(pool, x) || (|pool| == L && L > 0 && q(x) >= pool[L - 1].distance)
  {
    assert graph[pool[i].id][j] in visited;
  }

  /** A list that never filled up is the exact answer: it holds every slot reachable from the seeds. */
  lemma ExactUnlessFull(graph: seq<seq<nat>>, L: nat, q: nat -> real, seeds: set<nat>, pool: seq<Neighbor>,
                        visited: set<nat>, expanded: set<nat>)
    requires FixedPoint(graph, L, q, pool, visited, expanded) && Reached(graph, seeds, visited)
    requires |pool| < L
    ensures ClosedUnderEdges(graph, visited)
    ensures forall v :: v in visited <==> Has(pool, v)
    ensures forall C: set<nat> | ClosedUnderEdges(graph, C) && seeds <= C ::
              forall i | 0 <= i < |pool| :: pool[i].id in C
  {
    forall v | v in visited ensures v in expanded {
      assert Has(pool, v);
    }
  }
}
