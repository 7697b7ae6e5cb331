/** The two ways QVCache looks a query up in its shards, and when they agree. The state of the cache is
    fixed while a query is answered; a hit only moves shards in the LRU order. */
module SearchStrategies {
  import opened Base
  import opened ResultMerge
  import opened MergeExactness

  const MAX_TAG: nat := 0xFFFF_FFFF

  /** What a query meets. tags[s] and dists[s] are what search_with_tags returns for shard s, active[s] its
      number of live vectors. `theta` is the threshold of the query's region and K, None while
      uninitialised. Tags are backend ids plus one. */
  datatype Cache = Cache(K: nat, active: seq<nat>, tags: seq<seq<nat>>, dists: seq<seq<real>>, deleted: set<nat>,
                         theta: Option<real>, deviation: real) {
    function Total(): nat {
      Sum(active)
    }

    function ListOf(s: nat): seq<Entry>
      requires s < |tags| == |dists|
    {
      Zip(tags[s], dists[s])
    }
  }

  function Sum(s: seq<nat>): nat {
    if s == [] then 0 else Sum(s[..|s| - 1]) + s[|s| - 1]
  }

  /** The contract of search_with_tags: at most K results, nearest first, no tag twice. */
  ghost predicate Answered(c: Cache) {
    && |c.active| == |c.tags| == |c.dists|
    && forall s: nat | s < |c.tags| ::
         && |c.tags[s]| == |c.dists[s]| <= c.K
         && Ascending(c.ListOf(s)) && DistinctTags(c.ListOf(s))
         && (c.active[s] == 0 ==> c.tags[s] == [])
  }

  // ---------------------------------------------------------------- isHit

  predicate LiveTag(c: Cache, tag: nat) {
    tag != 0 && tag != MAX_TAG && tag - 1 !in c.deleted
  }

  /** has_k_live_results. */
  predicate HasKLive(c: Cache, list: seq<Entry>) {
    |list| >= c.K && forall j | 0 <= j < c.K :: LiveTag(c, list[j].tag)
  }

  predicate NearEnough(c: Cache, d: real) {
    c.theta.Some? && d <= (1.0 + c.deviation) * c.theta.value
  }

  predicate IsHit(c: Cache, list: seq<Entry>) {
    HasKLive(c, list) && c.Total() >= c.K && c.K != 0 && NearEnough(c, list[c.K - 1].distance)
  }

  /** All that a hit asks for. */
  lemma HitMeans(c: Cache, list: seq<Entry>)
    ensures IsHit(c, list) <==>
      && 0 < c.K <= |list| && c.Total() >= c.K
      && (forall j | 0 <= j < c.K ::
            list[j].tag != 0 && list[j].tag != 0xFFFF_FFFF && list[j].tag - 1 !in c.deleted)
      && c.theta.Some? && list[c.K - 1].distance - c.theta.value <= c.deviation * c.theta.value
  {
    if c.theta.Some? { assert (1.0 + c.deviation) * c.theta.value == c.theta.value + c.deviation * c.theta.value; }
  }

  /** The total counts every shard's vectors. */
  lemma {:induction false} SumChanges(s: seq<nat>, i: nat, x: nat)
    requires i < |s|
    ensures Sum(s[i := x]) == Sum(s) - s[i] + x
  {
    var l := |s| - 1;
    if i < l {
      SumChanges(s[..l], i, x);
      assert s[i := x][..l] == s[..l][i := x];
    } else {
      assert s[i := x][..l] == s[..l];
    }
  }

  lemma {:induction false} SumOfNone(s: seq<nat>)
    ensures Sum(s) == 0 <==> forall i | 0 <= i < |s| :: s[i] == 0
  {
    if s != [] {
      SumOfNone(s[..|s| - 1]);
      assert s == s[..|s| - 1] + [s[|s| - 1]];
    }
  }

  // ---------------------------------------------------------------- the two strategies

  /** A look-up: whether it hit, the result, and the shards it moves to the front of the LRU order. */
  datatype Outcome = Outcome(hit: bool, result: seq<Entry>, touched: seq<nat>)

  const MISS := Outcome(false, [], [])

  /** An LRU order: every shard, once. */
  ghost predicate IsOrder(order: seq<nat>, n: nat) {
    && (forall s: nat :: s in order <==> s < n)
    && (forall j | 0 <= j < |order| :: order[j] < n)
    && forall i, j | 0 <= i < j < |order| :: order[i] != order[j]
  }

  /** The shards of `order` that hold live vectors. */
  function Occupied(c: Cache, order: seq<nat>): (r: seq<nat>)
    requires forall j | 0 <= j < |order| :: order[j] < |c.active|
    ensures forall s: nat :: s in r <==> s in order && s < |c.active| && c.active[s] > 0
    ensures forall j | 0 <= j < |r| :: r[j] < |c.active|
  {
    if order == [] then []
    else
      var front, s := Occupied(c, order[..|order| - 1]), order[|order| - 1];
      assert order == order[..|order| - 1] + [s];
      if c.active[s] > 0 then front + [s] else front
  }

  function UpTo(n: nat): (r: seq<nat>)
    ensures |r| == n && forall i: nat :: i in r <==> i < n
    ensures forall j | 0 <= j < |r| :: r[j] < n
  {
    if n == 0 then [] else UpTo(n - 1) + [n - 1]
  }

  /** Everything the shards answered, with the best distance of each tag. */
  ghost function Content(c: Cache): map<nat, real> {
    Distances(BestOf(Listed(c.tags, c.dists, UpTo(|c.tags|))))
  }

  /** The merge does not depend on the order of the shards, nor on shards that list nothing. */
  lemma ContentFrom(c: Cache, ids: seq<nat>)
    requires Answered(c) && forall s: nat | s < |c.tags| && c.tags[s] != [] :: s in ids
    ensures Distances(BestOf(Listed(c.tags, c.dists, ids))) == Content(c)
  {
    var all := UpTo(|c.tags|);
    Covers(c, ids, all);
    Covers(c, all, ids);
  }

  lemma Covers(c: Cache, ids: seq<nat>, ids': seq<nat>)
    requires Answered(c) && forall s: nat | s < |c.tags| && c.tags[s] != [] :: s in ids'
    ensures var b := Distances(BestOf(Listed(c.tags, c.dists, ids)));
      var b' := Distances(BestOf(Listed(c.tags, c.dists, ids')));
      forall t | t in b :: t in b' && b'[t] <= b[t]
  {
    var all := Listed(c.tags, c.dists, ids);
    var b, b' := Distances(BestOf(all)), Distances(BestOf(Listed(c.tags, c.dists, ids')));
    forall t | t in b ensures t in b' && b'[t] <= b[t] {
      var i := BestOfIsFirst(all, t);
      ListedIsSound(c.tags, c.dists, ids, i);
      ListedInBest(c.tags, c.dists, ids', all[i].source, b');
    }
  }

  /** A shard with K results has no nearer K-th result than the merge. */
  lemma MergedIsNoWorse(c: Cache, s: nat, merged: seq<Entry>)
    requires Answered(c) && s < |c.tags| && TopK(merged, Content(c), c.K)
    requires c.K > 0 && |c.ListOf(s)| >= c.K
    ensures |merged| == c.K && merged[c.K - 1].distance <= c.ListOf(s)[c.K - 1].distance
  {
    ListedInBest(c.tags, c.dists, UpTo(|c.tags|), s, Content(c));
    ListWithin(c.ListOf(s), Content(c), c.K, merged);
  }

  lemma ListWithin(list: seq<Entry>, b: map<nat, real>, K: nat, merged: seq<Entry>)
    requires Ascending(list) && DistinctTags(list) && |list| == K > 0 && TopK(merged, b, K)
    requires forall e | e in list :: e.tag in b && b[e.tag] <= e.distance
    ensures |merged| == K && merged[K - 1].distance <= list[K - 1].distance
  {
    TagsSize(list);
    forall t | t in Tags(list) ensures t in b && b[t] <= list[K - 1].distance {
      var j :| 0 <= j < |list| && list[j].tag == t;
      assert list[j] in list;
    }
    NWithin(merged, b, K, Tags(list), K, list[K - 1].distance);
  }

  /** With one answering shard, its own list is a possible merge, and every possible merge gets the same
      verdict. */
  lemma OnlyShard(c: Cache, s: nat)
    requires Answered(c) && s < |c.tags| && forall r: nat | r < |c.tags| && r != s :: c.tags[r] == []
    ensures TopK(c.ListOf(s), Content(c), c.K)
    ensures Content(c).Keys == Tags(c.ListOf(s))
  {
    var list, all := c.ListOf(s), UpTo(|c.tags|);
    ListedInBest(c.tags, c.dists, all, s, Content(c));
    var listed := Listed(c.tags, c.dists, all);
    forall t | t in Content(c) ensures t in Tags(list) && Entry(t, Content(c)[t]) in list {
      var i := BestOfIsFirst(listed, t);
      ListedIsSound(c.tags, c.dists, all, i);
      assert Zip(c.tags[listed[i].source], c.dists[listed[i].source]) != [];
    }
    forall j | 0 <= j < |list| ensures list[j].tag in Content(c) && Content(c)[list[j].tag] == list[j].distance {
      assert list[j] in list;
      var k :| 0 <= k < |list| && list[k] == Entry(list[j].tag, Content(c)[list[j].tag]);
    }
  }

  lemma SameVerdict(c: Cache, a: seq<Entry>, b: seq<Entry>)
    requires TopK(a, Content(c), c.K) && TopK(b, Content(c), c.K)
    requires Tags(a) == Tags(b) || forall t | t in Content(c) :: LiveTag(c, t)
    ensures IsHit(c, a) ==> IsHit(c, b)
  {
    if IsHit(c, a) {
      TopKDistancesAreUnique(a, b, Content(c), c.K, c.K - 1);
      forall j | 0 <= j < c.K ensures LiveTag(c, b[j].tag) {
        assert b[j].tag in Tags(b);
        if Tags(a) == Tags(b) {
          var i :| 0 <= i < |a| && a[i].tag == b[j].tag;
        }
      }
    }
  }

  ghost predicate SomeShardHits(c: Cache)
    requires Answered(c)
  {
    exists s: nat :: s < |c.tags| && IsHit(c, c.ListOf(s))
  }

  ghost predicate SameDistances(a: seq<Entry>, b: seq<Entry>) {
    |a| == |b| && forall j | 0 <= j < |a| :: a[j].distance == b[j].distance
  }

  lemma WholeList(c: Cache, a: seq<Entry>, b: seq<Entry>)
    requires TopK(a, Content(c), c.K) && TopK(b, Content(c), c.K) && |a| == c.K
    ensures SameDistances(a, b) && a[..c.K] == a
  {
    if |b| < |a| { TopKDistancesAreUnique(a, b, Content(c), c.K, |b|); }
    forall j | 0 <= j < |b| ensures j < |a| && a[j].distance == b[j].distance {
      TopKDistancesAreUnique(b, a, Content(c), c.K, j);
    }
  }

  /** The outcome is one shard's own hit: its list, and the shard moves to the front. */
  ghost predicate ByShard(c: Cache, o: Outcome)
    requires Answered(c)
  {
    |o.touched| == 1 && var s := o.touched[0];
      s < |c.tags| && IsHit(c, c.ListOf(s)) && o == Outcome(true, c.ListOf(s), [s])
  }

  /** The outcome is the merge's hit: its list, and the contributing shards move to the front, least first. */
  ghost predicate ByMerge(c: Cache, o: Outcome, merged: seq<Sourced>) {
    IsHit(c, Entries(merged)) && o.hit && o.result == Entries(merged) && Contributors(o.touched, merged)
  }

  /** s is the first of `order` that hits on its own. */
  ghost predicate FirstHit(c: Cache, order: seq<nat>, s: nat)
    requires Answered(c)
  {
    exists k :: 0 <= k < |order| && order[k] == s
      && forall j | 0 <= j < k :: order[j] < |c.tags| && !IsHit(c, c.ListOf(order[j]))
  }

  lemma MergeHits(c: Cache, merged: seq<Sourced>, contributing: seq<nat>)
    requires TopK(Entries(merged), Content(c), c.K) && Contributors(contributing, merged) && IsHit(c, Entries(merged))
    ensures ByMerge(c, Outcome(true, Entries(merged)[..c.K], contributing), merged)
  {
    assert Entries(merged)[..c.K] == Entries(merged);
  }

  /** Every shard that lists anything is among the searched ones. */
  ghost predicate Searches(c: Cache, searched: seq<nat>)
    requires Answered(c)
  {
    && (forall j | 0 <= j < |searched| :: searched[j] < |c.tags|)
    && forall s: nat | s < |c.tags| && c.tags[s] != [] :: s in searched
  }

  /** The one shard that was searched hits on its own. */
  lemma SoleList(c: Cache, searched: seq<nat>)
    requires Answered(c) && Searches(c, searched) && |searched| == 1 && IsHit(c, c.ListOf(searched[0]))
    ensures TopK(c.ListOf(searched[0]), Content(c), c.K)
    ensures c.ListOf(searched[0])[..c.K] == c.ListOf(searched[0])
    ensures ByShard(c, Outcome(true, c.ListOf(searched[0])[..c.K], [searched[0]]))
  {
    OnlyShard(c, searched[0]);
  }

  /** Then every merge has the same tags and distances, and hits as well. */
  lemma SoleHit(c: Cache, searched: seq<nat>, merged: seq<Entry>)
    requires Answered(c) && Searches(c, searched) && |searched| == 1 && IsHit(c, c.ListOf(searched[0]))
    requires TopK(merged, Content(c), c.K)
    ensures SameDistances(c.ListOf(searched[0])[..c.K], merged) && IsHit(c, merged) && SomeShardHits(c)
    ensures ByShard(c, Outcome(true, c.ListOf(searched[0])[..c.K], [searched[0]]))
  {
    var list := c.ListOf(searched[0]);
    SoleList(c, searched);
    WholeList(c, list, merged);
    SoleTags(c, searched, merged);
    SameVerdict(c, list, merged);
  }

  lemma SoleTags(c: Cache, searched: seq<nat>, merged: seq<Entry>)
    requires Answered(c) && Searches(c, searched) && |searched| == 1
    requires TopK(merged, Content(c), c.K) && |merged| == |c.ListOf(searched[0])|
    ensures Tags(c.ListOf(searched[0])) == Tags(merged)
  {
    OnlyShard(c, searched[0]);
    assert Tags(merged) <= Content(c).Keys;
    SameTags(c.ListOf(searched[0]), merged);
  }

  lemma SameTags(a: seq<Entry>, b: seq<Entry>)
    requires DistinctTags(a) && DistinctTags(b) && |a| == |b| && Tags(b) <= Tags(a)
    ensures Tags(a) == Tags(b)
  {
    TagsSize(a);
    TagsSize(b);
    if t :| t in Tags(a) && t !in Tags(b) {
      SubsetSize(Tags(b), Tags(a) - {t});
    }
  }

  /** search_sequential, up to the backend: the merge, or else the first shard that hits on its own. */
  method SearchSequential(c: Cache, lruOrder: seq<nat>) returns (o: Outcome, merged: seq<Sourced>)
    requires Answered(c) && IsOrder(lruOrder, |c.active|)
    ensures TopK(Entries(merged), Content(c), c.K)
    ensures o.hit <==> IsHit(c, Entries(merged)) || SomeShardHits(c)
    ensures o == MISS || ByShard(c, o) || ByMerge(c, o, merged)
    ensures IsHit(c, Entries(merged)) ==> SameDistances(o.result, Entries(merged))
    ensures o.hit && !IsHit(c, Entries(merged)) ==> ByShard(c, o) && FirstHit(c, lruOrder, o.touched[0])
  {
    var searched := Occupied(c, lruOrder);
    ContentFrom(c, searched);
    var contributing: seq<nat>;
    merged, contributing := MergeAndRerank(c.tags, c.dists, searched, c.K);
    if |searched| == 1 {
      var s := searched[0];
      if IsHit(c, c.ListOf(s)) {
        SoleHit(c, searched, Entries(merged));
        o := Outcome(true, c.ListOf(s)[..c.K], [s]);
        return;
      }
    }
    if IsHit(c, Entries(merged)) {
      MergeHits(c, merged, contributing);
      o := Outcome(true, Entries(merged)[..c.K], contributing);
      return;
    }
    o := Fallback(c, lruOrder, searched);
  }

  /** The first shard in LRU order that hits on its own. */
  method Fallback(c: Cache, lruOrder: seq<nat>, searched: seq<nat>) returns (o: Outcome)
    requires Answered(c) && IsOrder(lruOrder, |c.active|)
    requires forall s: nat :: s in searched <==> s < |c.active| && c.active[s] > 0
    ensures o.hit <==> SomeShardHits(c)
    ensures if o.hit then ByShard(c, o) && FirstHit(c, lruOrder, o.touched[0]) else o == MISS
  {
    for k := 0 to |lruOrder|
      invariant forall j | 0 <= j < k :: lruOrder[j] < |c.tags| && !IsHit(c, c.ListOf(lruOrder[j]))
    {
      var s := lruOrder[k];
      if s in searched && IsHit(c, c.ListOf(s)) {
        assert c.ListOf(s)[..c.K] == c.ListOf(s) && lruOrder[k] == s;
        return Outcome(true, c.ListOf(s)[..c.K], [s]);
      }
    }
    forall s: nat | s < |c.tags| ensures !IsHit(c, c.ListOf(s)) {
      assert s in lruOrder;
    }
    o := MISS;
  }

  /** The ids below n whose list is not empty, in ascending order. */
  method Answering(c: Cache) returns (ids: seq<nat>)
    requires Answered(c)
    ensures forall s: nat :: s in ids <==> s < |c.tags| && c.tags[s] != []
  {
    ids := [];
    for i := 0 to |c.tags|
      invariant forall s: nat :: s in ids <==> s < i && c.tags[s] != []
    {
      if c.tags[i] != [] {
        ids := ids + [i];
      }
    }
  }

  /** parallel_search_memory_indices. `judged` is the list its verdict rests on. That each occupied shard is
      searched exactly once is SearchPool's theorem. */
  method SearchParallel(c: Cache) returns (o: Outcome, judged: seq<Entry>, ghost merged: seq<Sourced>)
    requires Answered(c)
    ensures TopK(judged, Content(c), c.K)
    ensures o.hit <==> IsHit(c, judged)
    ensures o == MISS || (ByShard(c, o) && o.result == judged) || ByMerge(c, o, merged)
    ensures o.hit ==> o.result == judged
  {
    merged := [];
    var occupied := Occupied(c, UpTo(|c.active|));
    if |occupied| <= 1 {
      o, judged := SearchAlone(c, occupied);
      return;
    }
    o, judged, merged := SearchMany(c);
  }

  /** Two or more occupied shards, searched by the pool. */
  method SearchMany(c: Cache) returns (o: Outcome, judged: seq<Entry>, ghost merged: seq<Sourced>)
    requires Answered(c)
    ensures TopK(judged, Content(c), c.K)
    ensures o.hit <==> IsHit(c, judged)
    ensures o == MISS || (ByShard(c, o) && o.result == judged) || ByMerge(c, o, merged)
    ensures o.hit ==> o.result == judged
  {
    merged := [];
    var searched := Answering(c);
    ContentFrom(c, searched);
    if |searched| == 1 {
      var s := searched[0];
      assert s in searched;
      if IsHit(c, c.ListOf(s)) {
        SoleList(c, searched);
        judged := c.ListOf(s);
        o := Outcome(true, judged[..c.K], [s]);
        return;
      }
    }
    var list, contributing := MergeAndRerank(c.tags, c.dists, searched, c.K);
    merged, judged := list, Entries(list);
    o := MISS;
    if IsHit(c, judged) {
      MergeHits(c, merged, contributing);
      o := Outcome(true, judged[..c.K], contributing);
    }
  }

  /** No occupied shard, or one, which the calling thread searches itself (search_single_index). */
  method SearchAlone(c: Cache, occupied: seq<nat>) returns (o: Outcome, judged: seq<Entry>)
    requires Answered(c) && |occupied| <= 1
    requires forall s: nat :: s in occupied <==> s < |c.active| && c.active[s] > 0
    ensures TopK(judged, Content(c), c.K)
    ensures o.hit <==> IsHit(c, judged)
    ensures o == MISS || (ByShard(c, o) && o.result == judged)
  {
    if occupied == [] {
      ContentFrom(c, []);
      return MISS, [];
    }
    var s := occupied[0];
    assert s in occupied;
    OnlyShard(c, s);
    judged := c.ListOf(s);
    if IsHit(c, judged) {
      o := Outcome(true, judged, [s]);
    } else {
      o := MISS;
    }
  }

  // ---------------------------------------------------------------- agreement

  /** If everything listed is live, a shard can only hit if the merge does. */
  lemma FallbackCannotHit(c: Cache, s: nat, merged: seq<Entry>)
    requires Answered(c) && s < |c.tags| && TopK(merged, Content(c), c.K)
    requires forall j | 0 <= j < |merged| :: LiveTag(c, merged[j].tag)
    requires IsHit(c, c.ListOf(s))
    ensures IsHit(c, merged)
  {
    MergedIsNoWorse(c, s, merged);
  }

  lemma AllListedLive(c: Cache, merged: seq<Entry>)
    requires TopK(merged, Content(c), c.K) && forall t | t in Content(c) :: LiveTag(c, t)
    ensures forall j | 0 <= j < |merged| :: LiveTag(c, merged[j].tag)
  {}

  /** Both strategies give the same verdict, and the same distances, whenever every listed tag is live,
      whatever ties do to the tags. */
  lemma StrategiesAgree(c: Cache, seqMerged: seq<Entry>, parJudged: seq<Entry>)
    requires Answered(c) && TopK(seqMerged, Content(c), c.K) && TopK(parJudged, Content(c), c.K)
    requires forall t | t in Content(c) :: LiveTag(c, t)
    ensures IsHit(c, parJudged) <==> IsHit(c, seqMerged) || SomeShardHits(c)
    ensures IsHit(c, parJudged) ==> SameDistances(seqMerged, parJudged)
  {
    SameVerdict(c, seqMerged, parJudged);
    SameVerdict(c, parJudged, seqMerged);
    if s: nat :| s < |c.tags| && IsHit(c, c.ListOf(s)) {
      AllListedLive(c, parJudged);
      FallbackCannotHit(c, s, parJudged);
    }
    if IsHit(c, parJudged) {
      WholeList(c, parJudged, seqMerged);
    }
  }
}
