/** Exactly when the two search strategies must agree, whatever ties between equal distances do to the tags of
    their merged lists. */
module StrategyAgreement {
  import opened Base
  import opened ResultMerge
  import opened MergeExactness
  import opened SearchStrategies

  // ---------------------------------------------------------------- what a merge can list

  /** The tags strictly nearer than x. */
  ghost function Closer(content: map<nat, real>, x: real): set<nat> {
    set t | t in content && content[t] < x
  }

  ghost function Within(content: map<nat, real>, x: real): set<nat> {
    set t | t in content && content[t] <= x
  }

  /** Fewer than K tags are strictly nearer: some top K lists t. */
  ghost predicate CanBeListed(content: map<nat, real>, K: nat, t: nat) {
    t in content && |Closer(content, content[t])| < K
  }

  /** No more than K tags, t itself counted, are as near as t: every top K lists t. */
  ghost predicate MustBeListed(content: map<nat, real>, K: nat, t: nat) {
    t in content && |Within(content, content[t])| <= K
  }

  lemma ListedWithin(m: seq<Entry>, content: map<nat, real>, K: nat, t: nat)
    requires TopK(m, content, K) && |m| == K && t in Tags(m)
    ensures t in content && K > 0 && content[t] <= m[K - 1].distance
  {
    var i :| 0 <= i < |m| && m[i].tag == t;
    assert i < K - 1 ==> m[i].distance <= m[K - 1].distance;
  }

  /** A tag can be listed exactly if it is no farther than the last entry of any full top K. */
  lemma CanBeListedIff(m: seq<Entry>, content: map<nat, real>, K: nat, t: nat)
    requires TopK(m, content, K) && |m| == K > 0 && t in content
    ensures CanBeListed(content, K, t) <==> content[t] <= m[K - 1].distance
  {
    TagsSize(m);
    var closer := Closer(content, content[t]);
    if content[t] <= m[K - 1].distance {
      forall u | u in closer ensures u in Tags(m) - {m[K - 1].tag} {}
      assert m[K - 1].tag in Tags(m);
      SubsetSize(closer, Tags(m) - {m[K - 1].tag});
    } else {
      forall u | u in Tags(m) ensures u in closer { ListedWithin(m, content, K, u); }
      SubsetSize(Tags(m), closer);
    }
  }

  lemma MustIsListed(m: seq<Entry>, content: map<nat, real>, K: nat, t: nat)
    requires TopK(m, content, K) && K > 0 && MustBeListed(content, K, t)
    ensures t in Tags(m)
  {
    if t !in Tags(m) {
      TagsSize(m);
      forall u | u in Tags(m) + {t} ensures u in Within(content, content[t]) {
        if u != t { ListedWithin(m, content, K, u); }
      }
      SubsetSize(Tags(m) + {t}, Within(content, content[t]));
    }
  }

  /** What need not be listed is no nearer than the last entry of any full top K. */
  lemma OptionalIsLast(m: seq<Entry>, content: map<nat, real>, K: nat, t: nat)
    requires TopK(m, content, K) && |m| == K > 0 && t in content && !MustBeListed(content, K, t)
    ensures content[t] >= m[K - 1].distance
  {
    if content[t] < m[K - 1].distance {
      TagsSize(m);
      forall u | u in Within(content, content[t]) ensures u in Tags(m) {}
      SubsetSize(Within(content, content[t]), Tags(m));
    }
  }

  ghost predicate IsFarthest(content: map<nat, real>, f: nat) {
    f in content && forall t | t in content :: content[t] <= content[f]
  }

  lemma Farthest(content: map<nat, real>) returns (f: nat)
    requires content != map[]
    ensures IsFarthest(content, f)
    decreases content.Keys
  {
    f :| f in content;
    var rest := map t | t in content && t != f :: content[t];
    assert forall t | t in content :: t == f || t in rest;
    assert rest.Keys <= content.Keys && f !in rest.Keys;
    if rest != map[] {
      var g := Farthest(rest);
      assert forall t | t in rest :: rest[t] <= rest[g];
      if content[f] < content[g] { f := g; }
    }
  }

  /** A top K without the farthest tag, and then with it where there is room. */
  lemma AddFarthest(m: seq<Entry>, rest: map<nat, real>, content: map<nat, real>, K: nat, f: nat)
    returns (m': seq<Entry>)
    requires IsFarthest(content, f) && rest == map t | t in content && t != f :: content[t]
    requires TopK(m, rest, K)
    ensures TopK(m', content, K)
  {
    m' := m;
    if |m| < K {
      m' := m + [Entry(f, content[f])];
      assert m'[|m|].tag in Tags(m');
      forall t | t in Tags(m) ensures t in Tags(m') {
        var a :| 0 <= a < |m| && m[a].tag == t;
        assert m'[a].tag == t;
      }
    }
  }

  /** There is always something to list. */
  lemma SomeTopK(content: map<nat, real>, K: nat) returns (m: seq<Entry>)
    ensures TopK(m, content, K)
    decreases content.Keys
  {
    m := [];
    if content != map[] {
      var f := Farthest(content);
      var rest := map t | t in content && t != f :: content[t];
      assert rest.Keys <= content.Keys && f !in rest.Keys;
      m := SomeTopK(rest, K);
      m := AddFarthest(m, rest, content, K, f);
    }
  }

  lemma TagsWithLast(m: seq<Entry>, m': seq<Entry>, K: nat, e: Entry)
    requires |m| == K > 0 && m' == m[..K - 1] + [e]
    ensures e.tag in Tags(m') && Tags(m) <= Tags(m') + {m[K - 1].tag}
    ensures forall a | 0 <= a < K :: m[a].tag in Tags(m)
  {
    assert m'[K - 1] == e;
    forall a | 0 <= a < K ensures m[a].tag in Tags(m) { assert m[a] in m; }
    forall a | 0 <= a < K - 1 ensures m[a].tag in Tags(m') { assert m'[a] == m[a] && m'[a] in m'; }
    forall u | u in Tags(m) ensures u in Tags(m') + {m[K - 1].tag} {
      var a :| 0 <= a < K && m[a].tag == u;
    }
  }

  lemma SwapLast(m: seq<Entry>, m': seq<Entry>, content: map<nat, real>, K: nat, e: Entry)
    requires TopK(m, content, K) && |m| == K > 0 && m' == m[..K - 1] + [e] && e.tag !in Tags(m)
    requires e.tag in content && content[e.tag] == e.distance == m[K - 1].distance
    ensures TopK(m', content, K)
  {
    TagsWithLast(m, m', K, e);
    assert forall a | 0 <= a < K - 1 :: m'[a] == m[a];
    assert m[K - 1].tag in content && content[m[K - 1].tag] == m[K - 1].distance;
    forall u | u in content && u !in Tags(m') ensures e.distance <= content[u] {
      assert u in Tags(m) ==> u == m[K - 1].tag;
    }
  }

  /** A listed tag gives way to an unlisted one at the distance of the last entry. */
  lemma ListInstead(m: seq<Entry>, content: map<nat, real>, K: nat, t: nat) returns (m': seq<Entry>)
    requires TopK(m, content, K) && |m| == K > 0 && CanBeListed(content, K, t)
    ensures TopK(m', content, K) && t in Tags(m')
  {
    m' := m;
    if t !in Tags(m) {
      CanBeListedIff(m, content, K, t);
      m' := m[..K - 1] + [Entry(t, content[t])];
      SwapLast(m, m', content, K, Entry(t, content[t]));
      TagsWithLast(m, m', K, Entry(t, content[t]));
    }
  }

  /** A full top K all of whose tags are in `live`, when all that must be listed is and K such tags can be. */
  lemma LiveTopK(content: map<nat, real>, K: nat, live: set<nat>, m0: seq<Entry>) returns (m: seq<Entry>)
    requires TopK(m0, content, K) && |m0| == K > 0
    requires forall t | t in content && MustBeListed(content, K, t) :: t in live
    requires forall t | t in live :: CanBeListed(content, K, t)
    requires |live| >= K
    ensures TopK(m, content, K) && |m| == K && Tags(m) <= live
  {
    var among := map t | t in content && t in live :: content[t];
    m := SomeTopK(among, K);
    assert among.Keys == live;
    FullWhenEnough(m, among, K);
    forall e | e in m ensures e.tag in live {}
    forall t | t in content && t !in Tags(m) ensures m[K - 1].distance <= content[t] {
      assert m[K - 1].tag in live;
      CanBeListedIff(m0, content, K, m[K - 1].tag);
      if t !in live { OptionalIsLast(m0, content, K, t); }
    }
  }

  lemma FullWhenEnough(m: seq<Entry>, content: map<nat, real>, K: nat)
    requires TopK(m, content, K) && |content.Keys| >= K
    ensures |m| == K
  {
    TagsSize(m);
    if |m| < K {
      assert content.Keys <= Tags(m);
      SubsetSize(content.Keys, Tags(m));
    }
  }

  // ---------------------------------------------------------------- the verdict of a merge

  /** What the shards list within the threshold. */
  ghost function Near(c: Cache): set<nat> {
    set t | t in Content(c) && NearEnough(c, Content(c)[t])
  }

  /** K tags are near enough, and the cache holds K live vectors: whatever is merged passes every test of isHit
      but the one on its tags. */
  ghost predicate InReach(c: Cache) {
    c.K > 0 && c.Total() >= c.K && |Near(c)| >= c.K
  }

  ghost function Listable(c: Cache): set<nat> {
    set t | t in Content(c) && CanBeListed(Content(c), c.K, t)
  }

  ghost function LiveListable(c: Cache): set<nat> {
    set t | t in Listable(c) && LiveTag(c, t)
  }

  ghost predicate AllLive(c: Cache, m: seq<Entry>) {
    forall j | 0 <= j < |m| :: LiveTag(c, m[j].tag)
  }

  /** The threshold for a query, if its region has one. */
  lemma Limit(c: Cache) returns (limit: real)
    requires c.theta.Some?
    ensures forall d: real :: NearEnough(c, d) <==> d <= limit
  {
    limit := (1.0 + c.deviation) * c.theta.value;
  }

  lemma ReachFills(c: Cache, m: seq<Entry>, near: set<nat>)
    requires TopK(m, Content(c), c.K) && c.K > 0 && near == Near(c) && |near| >= c.K
    ensures |m| == c.K && NearEnough(c, m[c.K - 1].distance)
  {
    var some :| some in near;
    var limit := Limit(c);
    forall t | t in near ensures t in Content(c) && Content(c)[t] <= limit {
      assert NearEnough(c, Content(c)[t]);
    }
    NWithin(m, Content(c), c.K, near, c.K, limit);
  }

  lemma FilledReaches(c: Cache, m: seq<Entry>, near: set<nat>)
    requires TopK(m, Content(c), c.K) && c.K > 0 && near == Near(c)
    requires |m| == c.K && NearEnough(c, m[c.K - 1].distance)
    ensures |near| >= c.K
  {
    TagsSize(m);
    var last := m[c.K - 1].distance;
    forall t | t in Tags(m) ensures t in near {
      ListedWithin(m, Content(c), c.K, t);
      NearerIsNear(c, Content(c)[t], last);
    }
    SubsetSize(Tags(m), near);
  }

  lemma NearerIsNear(c: Cache, d: real, d': real)
    requires d <= d' && NearEnough(c, d')
    ensures NearEnough(c, d)
  {}

  lemma ReachIff(c: Cache, m: seq<Entry>)
    requires TopK(m, Content(c), c.K) && c.K > 0
    ensures |Near(c)| >= c.K <==> |m| == c.K && NearEnough(c, m[c.K - 1].distance)
  {
    if |Near(c)| >= c.K { ReachFills(c, m, Near(c)); }
    if |m| == c.K && NearEnough(c, m[c.K - 1].distance) { FilledReaches(c, m, Near(c)); }
  }

  lemma VerdictIff(c: Cache, m: seq<Entry>)
    requires TopK(m, Content(c), c.K)
    ensures IsHit(c, m) <==> InReach(c) && AllLive(c, m)
    ensures InReach(c) ==> |m| == c.K
  {
    if c.K > 0 { ReachIff(c, m); }
  }

  /** Some shard lists K live tags, the last of them near enough. */
  ghost predicate SomeShardHolds(c: Cache)
    requires Answered(c)
  {
    exists s: nat :: s < |c.tags| && |c.tags[s]| == c.K && ShardHolds(c, s)
  }

  ghost predicate ShardHolds(c: Cache, s: nat)
    requires s < |c.tags| == |c.dists| && |c.tags[s]| == |c.dists[s]|
  {
    c.K > 0 && |c.tags[s]| == c.K && NearEnough(c, c.dists[s][c.K - 1])
    && forall j | 0 <= j < c.K :: LiveTag(c, c.tags[s][j])
  }

  lemma ShardHitIff(c: Cache, s: nat)
    requires Answered(c) && s < |c.tags|
    ensures IsHit(c, c.ListOf(s)) <==> InReach(c) && ShardHolds(c, s)
  {
    var list := c.ListOf(s);
    if c.K > 0 && |list| == c.K && NearEnough(c, list[c.K - 1].distance) {
      var m := SomeTopK(Content(c), c.K);
      MergedIsNoWorse(c, s, m);
      ReachIff(c, m);
    }
  }

  lemma ShardsHitIff(c: Cache)
    requires Answered(c)
    ensures SomeShardHits(c) <==> InReach(c) && SomeShardHolds(c)
  {
    forall s: nat | s < |c.tags| ensures IsHit(c, c.ListOf(s)) <==> InReach(c) && ShardHolds(c, s) {
      ShardHitIff(c, s);
    }
  }

  // ---------------------------------------------------------------- agreement

  /** Whatever two merges the strategies end up with, PARALLEL's verdict is SEQUENTIAL's. */
  ghost predicate AlwaysAgree(c: Cache)
    requires Answered(c)
  {
    forall parMerged, seqMerged | TopK(parMerged, Content(c), c.K) && TopK(seqMerged, Content(c), c.K) ::
      IsHit(c, parMerged) <==> IsHit(c, seqMerged) || SomeShardHits(c)
  }

  /** Every tag that can be listed is live: then every merge hits. */
  ghost predicate EveryMergeLive(c: Cache) {
    Listable(c) == LiveListable(c)
  }

  /** Some way to break the ties lists live tags only. */
  ghost predicate SomeMergeLive(c: Cache) {
    && (forall t | t in Content(c) && MustBeListed(Content(c), c.K, t) :: LiveTag(c, t))
    && |LiveListable(c)| >= c.K
  }

  lemma LiveTags(c: Cache, m: seq<Entry>)
    ensures AllLive(c, m) <==> forall t | t in Tags(m) :: LiveTag(c, t)
  {
    forall j | 0 <= j < |m| ensures m[j].tag in Tags(m) { assert m[j] in m; }
  }

  lemma ListedIsListable(c: Cache, m: seq<Entry>)
    requires TopK(m, Content(c), c.K) && InReach(c)
    ensures Tags(m) <= Listable(c)
  {
    VerdictIff(c, m);
    forall t | t in Tags(m) ensures t in Listable(c) {
      ListedWithin(m, Content(c), c.K, t);
      CanBeListedIff(m, Content(c), c.K, t);
    }
  }

  /** When every merge is live. */
  lemma EveryMergeLiveIff(c: Cache)
    requires InReach(c)
    ensures EveryMergeLive(c) <==> forall m | TopK(m, Content(c), c.K) :: AllLive(c, m)
  {
    if EveryMergeLive(c) {
      forall m | TopK(m, Content(c), c.K) ensures AllLive(c, m) {
        ListedIsListable(c, m);
        LiveTags(c, m);
      }
    } else {
      var t :| t in Listable(c) && t !in LiveListable(c);
      var m0 := SomeTopK(Content(c), c.K);
      VerdictIff(c, m0);
      var m := ListInstead(m0, Content(c), c.K, t);
      LiveTags(c, m);
    }
  }

  /** When some merge is live. */
  lemma SomeMergeLiveIff(c: Cache)
    requires InReach(c)
    ensures SomeMergeLive(c) <==> exists m :: TopK(m, Content(c), c.K) && AllLive(c, m)
  {
    if m :| TopK(m, Content(c), c.K) && AllLive(c, m) {
      LiveTags(c, m);
      ListedIsListable(c, m);
      VerdictIff(c, m);
      TagsSize(m);
      SubsetSize(Tags(m), LiveListable(c));
      forall t | t in Content(c) && MustBeListed(Content(c), c.K, t) ensures LiveTag(c, t) {
        MustIsListed(m, Content(c), c.K, t);
      }
    }
    if SomeMergeLive(c) {
      var m0 := SomeTopK(Content(c), c.K);
      VerdictIff(c, m0);
      forall t | t in Content(c) && MustBeListed(Content(c), c.K, t) ensures t in LiveListable(c) {
        MustIsListed(m0, Content(c), c.K, t);
        ListedIsListable(c, m0);
      }
      var m := LiveTopK(Content(c), c.K, LiveListable(c), m0);
      LiveTags(c, m);
    }
  }

  /** The strategies agree, however ties are broken, exactly if nothing is in reach, or every tag a merge can list
      is live, or neither a merge nor a shard can list K live tags. */
  lemma StrategiesAgreeIff(c: Cache)
    requires Answered(c)
    ensures AlwaysAgree(c) <==>
      !InReach(c) || EveryMergeLive(c) || !(SomeMergeLive(c) || SomeShardHolds(c))
  {
    ShardsHitIff(c);
    forall m | TopK(m, Content(c), c.K) ensures IsHit(c, m) <==> InReach(c) && AllLive(c, m) {
      VerdictIff(c, m);
    }
    var m0 := SomeTopK(Content(c), c.K);
    if InReach(c) {
      EveryMergeLiveIff(c);
      SomeMergeLiveIff(c);
    }
  }

  /** For the two merges at hand. */
  lemma TheseAgreeIff(c: Cache, parMerged: seq<Entry>, seqMerged: seq<Entry>)
    requires Answered(c) && TopK(parMerged, Content(c), c.K) && TopK(seqMerged, Content(c), c.K)
    ensures (IsHit(c, parMerged) <==> IsHit(c, seqMerged) || SomeShardHits(c)) <==>
      !InReach(c) || (AllLive(c, parMerged) <==> AllLive(c, seqMerged) || SomeShardHolds(c))
  {
    ShardsHitIff(c);
    VerdictIff(c, parMerged);
    VerdictIff(c, seqMerged);
  }

  // ---------------------------------------------------------------- both on one cache

  /** One query answered by both strategies in the same state: under the condition of StrategiesAgreeIff they give
      the same verdict and the same distances. */
  method RunBoth(c: Cache, lruOrder: seq<nat>) returns (sequential: Outcome, parallel: Outcome)
    requires Answered(c) && IsOrder(lruOrder, |c.active|)
    ensures !InReach(c) || EveryMergeLive(c) || !(SomeMergeLive(c) || SomeShardHolds(c)) ==>
      && (parallel.hit <==> sequential.hit)
      && (parallel.hit ==> SameDistances(sequential.result, parallel.result))
  {
    var merged: seq<Sourced>;
    var judged: seq<Entry>;
    ghost var contributing: seq<Sourced>;
    sequential, merged := SearchSequential(c, lruOrder);
    parallel, judged, contributing := SearchParallel(c);
    StrategiesAgreeIff(c);
    if AlwaysAgree(c) && parallel.hit {
      HitOnBoth(c, Entries(merged), judged, sequential.result);
    }
  }

  /** Where they always agree, a hit of PARALLEL is a hit of every merge. */
  lemma HitOnBoth(c: Cache, seqMerged: seq<Entry>, judged: seq<Entry>, result: seq<Entry>)
    requires Answered(c) && AlwaysAgree(c) && IsHit(c, judged)
    requires TopK(judged, Content(c), c.K) && TopK(seqMerged, Content(c), c.K)
    requires IsHit(c, seqMerged) ==> SameDistances(result, seqMerged)
    ensures SameDistances(result, judged)
  {
    StrategiesAgreeIff(c);
    VerdictIff(c, judged);
    VerdictIff(c, seqMerged);
    SomeMergeLiveIff(c);
    EveryMergeLiveIff(c);
    WholeList(c, judged, seqMerged);
  }

  // ---------------------------------------------------------------- and they do differ

  /** Shard 0 still lists a tombstoned id, shard 1 alone would hit. */
  const STALE := Cache(1, [1, 1], [[7], [9]], [[1.0], [2.0]], {6}, Some(2.0), 0.0)

  lemma StaleAnswers()
    ensures Answered(STALE) && STALE.ListOf(0) == [Entry(7, 1.0)] && STALE.ListOf(1) == [Entry(9, 2.0)]
    ensures IsHit(STALE, [Entry(9, 2.0)])
  {
    assert [1, 1][..1] == [1] && Sum([1]) == 1;
  }

  lemma StaleMergeMisses(merged: seq<Entry>)
    requires Answered(STALE) && STALE.ListOf(0) == [Entry(7, 1.0)] && STALE.ListOf(1) == [Entry(9, 2.0)]
    requires TopK(merged, Content(STALE), 1)
    ensures merged != [] && merged[0].tag == 7
  {
    MergedIsNoWorse(STALE, 0, merged);
    var all := Listed(STALE.tags, STALE.dists, UpTo(2));
    var i := BestOfIsFirst(all, merged[0].tag);
    ListedIsSound(STALE.tags, STALE.dists, UpTo(2), i);
  }

  /** So the strategies do differ: every merge misses here, and a single shard hits. */
  lemma StrategiesCanDiffer(merged: seq<Entry>)
    requires TopK(merged, Content(STALE), 1)
    ensures Answered(STALE) && SomeShardHits(STALE) && !IsHit(STALE, merged)
  {
    StaleAnswers();
    assert IsHit(STALE, STALE.ListOf(1));
    StaleMergeMisses(merged);
  }

  /** Tags 3 and 5 tie for the second place, and 3 is tombstoned. */
  const TIED := Cache(2, [2, 1], [[1, 3], [5]], [[1.0, 2.0], [2.0]], {2}, Some(2.0), 0.0)

  const FIRST := Sourced(Entry(1, 1.0), 0)
  const SECOND := Sourced(Entry(3, 2.0), 0)
  const THIRD := Sourced(Entry(5, 2.0), 1)

  lemma TiedListed()
    ensures Listed(TIED.tags, TIED.dists, UpTo(2)) == [FIRST, SECOND, THIRD]
  {
    var tags, dists := TIED.tags, TIED.dists;
    assert UpTo(2) == [0, 1] && [0, 1][..1] == [0] && [0][..0] == [];
    assert Listed(tags, dists, [0]) == [FIRST, SECOND];
    assert Listed(tags, dists, [0, 1]) == [FIRST, SECOND] + [THIRD];
  }

  lemma TiedBest()
    ensures BestOf([FIRST, SECOND, THIRD]) == map[1 := Best(1.0, 0), 3 := Best(2.0, 0), 5 := Best(2.0, 1)]
  {
    assert [FIRST, SECOND, THIRD][..2] == [FIRST, SECOND] && [FIRST, SECOND][..1] == [FIRST] && [FIRST][..0] == [];
    assert BestOf([FIRST]) == map[1 := Best(1.0, 0)];
    assert BestOf([FIRST, SECOND]) == map[1 := Best(1.0, 0), 3 := Best(2.0, 0)];
  }

  lemma TiedContent()
    ensures Content(TIED) == map[1 := 1.0, 3 := 2.0, 5 := 2.0]
  {
    TiedListed();
    TiedBest();
  }

  const LIVE_MERGE := [Entry(1, 1.0), Entry(5, 2.0)]
  const DEAD_MERGE := [Entry(1, 1.0), Entry(3, 2.0)]

  lemma TiedMerges(content: map<nat, real>)
    requires content == map[1 := 1.0, 3 := 2.0, 5 := 2.0]
    ensures TopK(LIVE_MERGE, content, 2) && TopK(DEAD_MERGE, content, 2)
  {
    assert LIVE_MERGE[0].tag in Tags(LIVE_MERGE) && LIVE_MERGE[1].tag in Tags(LIVE_MERGE);
    assert DEAD_MERGE[0].tag in Tags(DEAD_MERGE) && DEAD_MERGE[1].tag in Tags(DEAD_MERGE);
  }

  lemma TiedVerdicts()
    ensures Answered(TIED) && !SomeShardHits(TIED) && IsHit(TIED, LIVE_MERGE) && !IsHit(TIED, DEAD_MERGE)
  {
    assert [2, 1][..1] == [2] && [2][..0] == [] && Sum([2]) == 2 && Sum([2, 1]) == 3;
    assert TIED.ListOf(0) == DEAD_MERGE && TIED.ListOf(1) == [Entry(5, 2.0)];
    assert !LiveTag(TIED, DEAD_MERGE[1].tag);
  }

  /** The other way round: PARALLEL breaks the tie for the live tag and hits; SEQUENTIAL breaks it for the tombstoned
      one, and no shard hits on its own. */
  lemma TiesCanDiffer()
    ensures Answered(TIED) && !SomeShardHits(TIED)
    ensures TopK(LIVE_MERGE, Content(TIED), 2) && IsHit(TIED, LIVE_MERGE)
    ensures TopK(DEAD_MERGE, Content(TIED), 2) && !IsHit(TIED, DEAD_MERGE)
  {
    TiedContent();
    TiedMerges(Content(TIED));
    TiedVerdicts();
  }
}
