/** Merging the per-shard result lists of one query, merge_and_rerank_results. Distances are exact
    reals; smaller is better. */
module ResultMerge {
  import opened Base
  import Sorting

  datatype Entry = Entry(tag: nat, distance: real)

  datatype Best = Best(distance: real, source: nat)

  function Tags(s: seq<Entry>): set<nat> {
    set e | e in s :: e.tag
  }

  ghost predicate Ascending(s: seq<Entry>) {
    forall i, j | 0 <= i < j < |s| :: s[i].distance <= s[j].distance
  }

  ghost predicate DistinctTags(s: seq<Entry>) {
    forall i, j | 0 <= i < j < |s| :: s[i].tag != s[j].tag
  }

  /** `s` lists K entries of `content` no other entry beats, or all of them if there are fewer. */
  ghost predicate TopK(s: seq<Entry>, content: map<nat, real>, K: nat) {
    && Ascending(s) && DistinctTags(s)
    && (forall i | 0 <= i < |s| :: s[i].tag in content && content[s[i].tag] == s[i].distance)
    && |s| <= K
    && (forall t | t in content && t !in Tags(s) :: |s| == K && (K > 0 ==> s[K - 1].distance <= content[t]))
  }

  lemma TagsSize(s: seq<Entry>)
    requires DistinctTags(s)
    ensures |Tags(s)| == |s|
  {
    if s != [] {
      var k := |s| - 1;
      TagsSize(s[..k]);
      assert s == s[..k] + [s[k]];
      assert Tags(s) == Tags(s[..k]) + {s[k].tag};
      assert s[k].tag !in Tags(s[..k]);
    }
  }

  /** If n <= K different entries of the content are within x, the n-th listed distance is too. */
  lemma NWithin(s: seq<Entry>, content: map<nat, real>, K: nat, near: set<nat>, n: nat, x: real)
    requires TopK(s, content, K) && 0 < n <= K
    requires |near| >= n && forall t | t in near :: t in content && content[t] <= x
    ensures n <= |s| && s[n - 1].distance <= x
  {
    if t :| t in near && t !in Tags(s) {
      assert |s| == K && s[K - 1].distance <= content[t];
    } else {
      TagsSize(s);
      SubsetSize(near, Tags(s));
      if s[n - 1].distance > x {
        TooFew(s, content, near, n, x);
      }
    }
  }

  lemma TooFew(s: seq<Entry>, content: map<nat, real>, near: set<nat>, n: nat, x: real)
    requires Ascending(s) && DistinctTags(s) && 0 < n <= |s| && s[n - 1].distance > x
    requires forall i | 0 <= i < |s| :: s[i].tag in content && content[s[i].tag] == s[i].distance
    requires near <= Tags(s) && forall t | t in near :: t in content && content[t] <= x
    ensures |near| < n
  {
    var front := s[..n - 1];
    forall t | t in near ensures t in Tags(front) {
      var i :| 0 <= i < |s| && s[i].tag == t;
      assert i < n - 1;
      assert front[i] == s[i];
    }
    TagsSize(front);
    SubsetSize(near, Tags(front));
  }

  /** The distances of a top K are determined by the content, whatever ties do to the tags. */
  lemma TopKDistancesAreUnique(a: seq<Entry>, b: seq<Entry>, content: map<nat, real>, K: nat, i: nat)
    requires TopK(a, content, K) && TopK(b, content, K) && i < |a|
    ensures i < |b| && a[i].distance == b[i].distance
  {
    TopKNotBeaten(a, b, content, K, i);
    TopKNotBeaten(b, a, content, K, i);
  }

  /** The first i + 1 entries name as many tags, all within the distance of the last of them. */
  lemma FirstWithin(a: seq<Entry>, content: map<nat, real>, K: nat, i: nat)
    requires TopK(a, content, K) && i < |a|
    ensures |Tags(a[..i + 1])| == i + 1
    ensures forall t | t in Tags(a[..i + 1]) :: t in content && content[t] <= a[i].distance
  {
    var first := a[..i + 1];
    TagsSize(first);
    forall t | t in Tags(first) ensures t in content && content[t] <= a[i].distance {
      var k :| 0 <= k < |first| && first[k].tag == t;
      assert first[k] == a[k];
    }
  }

  lemma TopKNotBeaten(a: seq<Entry>, b: seq<Entry>, content: map<nat, real>, K: nat, i: nat)
    requires TopK(a, content, K) && TopK(b, content, K) && i < |a|
    ensures i < |b| && b[i].distance <= a[i].distance
  {
    FirstWithin(a, content, K, i);
    NWithin(b, content, K, Tags(a[..i + 1]), i + 1, a[i].distance);
  }

  // ---------------------------------------------------------------- the merge itself

  /** One listed result and the shard it came from. */
  datatype Sourced = Sourced(entry: Entry, source: nat)

  /** A shard's parallel tag and distance vectors, as far as both go. */
  function Zip(tags: seq<nat>, dists: seq<real>): (r: seq<Entry>)
    ensures |r| == (if |tags| <= |dists| then |tags| else |dists|)
    ensures forall i | 0 <= i < |r| :: r[i] == Entry(tags[i], dists[i])
  {
    seq(if |tags| <= |dists| then |tags| else |dists|,
        i requires 0 <= i < |tags| && i < |dists| => Entry(tags[i], dists[i]))
  }

  function From(list: seq<Entry>, source: nat): (r: seq<Sourced>)
    ensures |r| == |list|
    ensures forall i | 0 <= i < |r| :: r[i] == Sourced(list[i], source)
  {
    seq(|list|, i requires 0 <= i < |list| => Sourced(list[i], source))
  }

  /** Everything listed by the shards named in ids, in the order in which it is merged. */
  function Listed(tags: seq<seq<nat>>, dists: seq<seq<real>>, ids: seq<nat>): seq<Sourced> {
    if ids == [] then []
    else
      var front, id := Listed(tags, dists, ids[..|ids| - 1]), ids[|ids| - 1];
      if id < |tags| && id < |dists| then front + From(Zip(tags[id], dists[id]), id) else front
  }

  function Improve(m: map<nat, Best>, o: Sourced): map<nat, Best> {
    var e := o.entry;
    if e.tag !in m || e.distance < m[e.tag].distance then m[e.tag := Best(e.distance, o.source)] else m
  }

  /** tag_to_best after the results in `all` have been seen. */
  function BestOf(all: seq<Sourced>): map<nat, Best> {
    if all == [] then map[] else Improve(BestOf(all[..|all| - 1]), all[|all| - 1])
  }

  /** The i-th listed result is the first with tag t at distance b.distance, and nothing before it is as
      near. */
  ghost predicate FirstAt(all: seq<Sourced>, t: nat, b: Best, i: nat) {
    && i < |all| && all[i] == Sourced(Entry(t, b.distance), b.source)
    && forall j | 0 <= j < i && all[j].entry.tag == t :: all[j].entry.distance > b.distance
  }

  /** Every listed tag is kept, with the smallest distance listed for it. */
  lemma {:induction false} BestOfIsMinimum(all: seq<Sourced>)
    ensures var m := BestOf(all);
      forall i | 0 <= i < |all| :: all[i].entry.tag in m && m[all[i].entry.tag].distance <= all[i].entry.distance
  {
    if all != [] {
      var front := all[..|all| - 1];
      BestOfIsMinimum(front);
      assert forall j | 0 <= j < |front| :: all[j] == front[j];
    }
  }

  /** And each kept distance comes from the first shard to list it. */
  lemma {:induction false} BestOfIsFirst(all: seq<Sourced>, t: nat) returns (i: nat)
    requires t in BestOf(all)
    ensures FirstAt(all, t, BestOf(all)[t], i)
  {
    var n := |all| - 1;
    var front := all[..n];
    BestOfIsMinimum(front);
    assert forall j | 0 <= j < n :: all[j] == front[j];
    if t in BestOf(front) && BestOf(all)[t] == BestOf(front)[t] {
      i := BestOfIsFirst(front, t);
    } else {
      i := n;
    }
  }

  function Distances(m: map<nat, Best>): map<nat, real> {
    map t | t in m :: m[t].distance
  }

  /** How many of the results come from shard id. */
  function Share(merged: seq<Sourced>, id: nat): nat {
    if merged == [] then 0
    else Share(merged[..|merged| - 1], id) + if merged[|merged| - 1].source == id then 1 else 0
  }

  function PlacesOf(merged: seq<Sourced>, id: nat): set<nat> {
    set i: nat | i < |merged| && merged[i].source == id
  }

  lemma {:induction false} ShareCounts(merged: seq<Sourced>, id: nat)
    ensures Share(merged, id) == |PlacesOf(merged, id)|
  {
    if merged == [] {
      assert PlacesOf(merged, id) == {};
    } else {
      var l := |merged| - 1;
      ShareCounts(merged[..l], id);
      assert PlacesOf(merged, id) == PlacesOf(merged[..l], id) + if merged[l].source == id then {l} else {};
    }
  }

  lemma SomePlace(merged: seq<Sourced>, id: nat)
    ensures |PlacesOf(merged, id)| > 0 <==> exists i :: 0 <= i < |merged| && merged[i].source == id
  {
    if i :| 0 <= i < |merged| && merged[i].source == id {
      assert i in PlacesOf(merged, id);
    } else {
      assert PlacesOf(merged, id) == {};
    }
  }

  function Entries(s: seq<Sourced>): (r: seq<Entry>)
    ensures |r| == |s|
    ensures forall i | 0 <= i < |s| :: r[i] == s[i].entry
  {
    seq(|s|, i requires 0 <= i < |s| => s[i].entry)
  }

  /** The shards that contributed, each once, from the least to the most contributing. */
  ghost predicate Contributors(order: seq<nat>, merged: seq<Sourced>) {
    && (forall id :: id in order <==> exists i :: 0 <= i < |merged| && merged[i].source == id)
    && (forall i, j | 0 <= i < j < |order| ::
          order[i] != order[j] && |PlacesOf(merged, order[i])| <= |PlacesOf(merged, order[j])|)
  }

  lemma ByShare(order: seq<nat>, merged: seq<Sourced>)
    requires forall id :: id in order <==> Share(merged, id) > 0
    requires forall i, j | 0 <= i < j < |order| ::
      order[i] != order[j] && Share(merged, order[i]) <= Share(merged, order[j])
    ensures Contributors(order, merged)
  {
    forall id
      ensures Share(merged, id) == |PlacesOf(merged, id)|
      ensures Share(merged, id) > 0 <==> exists i :: 0 <= i < |merged| && merged[i].source == id
    {
      ShareCounts(merged, id);
      SomePlace(merged, id);
    }
  }

  /** The vector made of the map, in whatever order the map is iterated, then sorted. */
  method SortedCandidates(best: map<nat, Best>) returns (r: seq<Sourced>)
    ensures TopK(Entries(r), Distances(best), |r|) && |r| == |best|
    ensures forall i | 0 <= i < |r| :: r[i].entry.tag in best && best[r[i].entry.tag].source == r[i].source
  {
    var unsorted: seq<Sourced> := [];
    var rest := best.Keys;
    while rest != {}
      invariant rest <= best.Keys && |unsorted| + |rest| == |best|
      invariant FromMap(unsorted, best)
      invariant forall t | t in best && t !in rest :: t in Tags(Entries(unsorted))
      invariant forall t | t in Tags(Entries(unsorted)) :: t !in rest
    {
      var t :| t in rest;
      ghost var was := unsorted;
      unsorted := unsorted + [Sourced(Entry(t, best[t].distance), best[t].source)];
      assert Entries(unsorted) == Entries(was) + [Entry(t, best[t].distance)];
      rest := rest - {t};
    }
    r := Sorting.Sort(unsorted, (a: Sourced, b: Sourced) => a.entry.distance <= b.entry.distance);
    SortKeeps(unsorted, r, best);
  }

  ghost predicate FromMap(s: seq<Sourced>, best: map<nat, Best>) {
    && DistinctTags(Entries(s))
    && forall i | 0 <= i < |s| ::
         s[i].entry.tag in best && best[s[i].entry.tag] == Best(s[i].entry.distance, s[i].source)
  }

  lemma SortKeeps(a: seq<Sourced>, b: seq<Sourced>, best: map<nat, Best>)
    requires multiset(a) == multiset(b) && |a| == |b| == |best| && FromMap(a, best)
    requires forall t | t in best :: t in Tags(Entries(a))
    requires Sorting.SortedBy(b, (x: Sourced, y: Sourced) => x.entry.distance <= y.entry.distance)
    ensures FromMap(b, best) && TopK(Entries(b), Distances(best), |b|)
  {
    SameElements(a, b);
    forall t | t in best ensures t in Tags(Entries(b)) {
      var i :| 0 <= i < |a| && Entries(a)[i].tag == t;
      var j :| 0 <= j < |b| && b[j] == a[i];
      assert Entries(b)[j].tag == t;
    }
    forall i | 0 <= i < |b|
      ensures b[i].entry.tag in best && best[b[i].entry.tag] == Best(b[i].entry.distance, b[i].source)
    {
      var j :| 0 <= j < |a| && a[j] == b[i];
    }
    assert Tags(Entries(b)) == best.Keys by {
      forall t | t in Tags(Entries(b)) ensures t in best {
        var i :| 0 <= i < |b| && Entries(b)[i].tag == t;
      }
    }
    FullSetIsDistinct(Entries(b));
    SortedIsTopK(b, best);
  }

  lemma SameElements(a: seq<Sourced>, b: seq<Sourced>)
    requires multiset(a) == multiset(b)
    ensures forall i | 0 <= i < |b| :: b[i] in a
    ensures forall i | 0 <= i < |a| :: a[i] in b
  {
    forall i | 0 <= i < |b| ensures b[i] in a { assert b[i] in multiset(b); assert b[i] in multiset(a); }
    forall i | 0 <= i < |a| ensures a[i] in b { assert a[i] in multiset(a); assert a[i] in multiset(b); }
  }

  lemma SortedIsTopK(b: seq<Sourced>, best: map<nat, Best>)
    requires FromMap(b, best) && best.Keys <= Tags(Entries(b))
    requires Sorting.SortedBy(b, (x: Sourced, y: Sourced) => x.entry.distance <= y.entry.distance)
    ensures TopK(Entries(b), Distances(best), |b|)
  {}

  /** As many tags as entries: no tag occurs twice. */
  lemma FullSetIsDistinct(s: seq<Entry>)
    requires |Tags(s)| == |s|
    ensures DistinctTags(s)
  {
    if s != [] {
      var k := |s| - 1;
      assert s == s[..k] + [s[k]];
      assert Tags(s) == Tags(s[..k]) + {s[k].tag};
      TagsAtMost(s[..k]);
      FullSetIsDistinct(s[..k]);
      forall i | 0 <= i < k ensures s[i].tag != s[k].tag {
        assert s[..k][i].tag in Tags(s[..k]);
      }
    }
  }

  lemma TagsAtMost(s: seq<Entry>)
    ensures |Tags(s)| <= |s|
  {
    if s != [] {
      var k := |s| - 1;
      assert s == s[..k] + [s[k]];
      assert Tags(s) == Tags(s[..k]) + {s[k].tag};
      TagsAtMost(s[..k]);
    }
  }

  lemma ImproveByNext(before: seq<Sourced>, list: seq<Sourced>, i: nat)
    requires i < |list|
    ensures BestOf(before + list[..i + 1]) == Improve(BestOf(before + list[..i]), list[i])
  {
    var all := before + list[..i + 1];
    assert all[..|all| - 1] == before + list[..i];
  }

  /** The loop over one shard's results. */
  method AddShard(best: map<nat, Best>, tags: seq<nat>, dists: seq<real>, id: nat, ghost before: seq<Sourced>)
    returns (best': map<nat, Best>)
    requires best == BestOf(before)
    ensures best' == BestOf(before + From(Zip(tags, dists), id))
  {
    var n := if |tags| <= |dists| then |tags| else |dists|;
    ghost var list := From(Zip(tags, dists), id);
    best' := best;
    assert before + list[..0] == before;
    for i := 0 to n
      invariant best' == BestOf(before + list[..i])
    {
      var tag, dist := tags[i], dists[i];
      ImproveByNext(before, list, i);
      if tag !in best' {
        best' := best'[tag := Best(dist, id)];
      } else if dist < best'[tag].distance {
        best' := best'[tag := Best(dist, id)];
      }
    }
    assert list[..n] == list;
  }

  /** merge_and_rerank_results. */
  method MergeAndRerank(tags: seq<seq<nat>>, dists: seq<seq<real>>, ids: seq<nat>, K: nat)
    returns (merged: seq<Sourced>, contributing: seq<nat>)
    ensures TopK(Entries(merged), Distances(BestOf(Listed(tags, dists, ids))), K)
    ensures SourcesFrom(merged, BestOf(Listed(tags, dists, ids)))
    ensures Contributors(contributing, merged)
  {
    var best: map<nat, Best> := map[];
    for idx := 0 to |ids|
      invariant best == BestOf(Listed(tags, dists, ids[..idx]))
    {
      var id := ids[idx];
      assert ids[..idx + 1][..idx] == ids[..idx];
      if id < |tags| && id < |dists| {
        best := AddShard(best, tags[id], dists[id], id, Listed(tags, dists, ids[..idx]));
      }
    }
    assert ids[..|ids|] == ids;
    merged := TakeTop(best, K);
    contributing := CountContributions(merged);
  }

  method TakeTop(best: map<nat, Best>, K: nat) returns (merged: seq<Sourced>)
    ensures TopK(Entries(merged), Distances(best), K) && SourcesFrom(merged, best)
  {
    var candidates := SortedCandidates(best);
    var size := if K < |candidates| then K else |candidates|;
    merged := candidates[..size];
    assert Distances(best).Keys == best.Keys;
    TopKPrefix(Entries(candidates), Entries(merged), Distances(best), K);
  }

  /** Each result names the shard that listed its best distance first. */
  ghost predicate SourcesFrom(merged: seq<Sourced>, best: map<nat, Best>) {
    forall i | 0 <= i < |merged| ::
      merged[i].entry.tag in best && best[merged[i].entry.tag].source == merged[i].source
  }

  lemma TopKPrefix(s: seq<Entry>, p: seq<Entry>, content: map<nat, real>, K: nat)
    requires TopK(s, content, |s|) && |s| == |content|
    requires |p| == (if K < |s| then K else |s|) && forall i | 0 <= i < |p| :: p[i] == s[i]
    ensures TopK(p, content, K)
  {
    TagsSize(s);
    assert forall i | 0 <= i < |p| :: s[i].tag in Tags(p) by {
      assert forall i | 0 <= i < |p| :: p[i] in p;
    }
    forall t | t in content && t !in Tags(p) ensures |p| == K && (K > 0 ==> p[K - 1].distance <= content[t]) {
      if t in Tags(s) {
        var i :| 0 <= i < |s| && s[i].tag == t;
        assert i >= |p|;
      } else {
        assert Tags(s) <= content.Keys - {t};
        SubsetSize(Tags(s), content.Keys - {t});
      }
    }
  }

  /** contribution_counts, listed from least to most. */
  method CountContributions(merged: seq<Sourced>) returns (order: seq<nat>)
    ensures Contributors(order, merged)
  {
    var counts: map<nat, nat> := map[];
    for i := 0 to |merged|
      invariant forall id :: id in counts <==> Share(merged[..i], id) > 0
      invariant forall id | id in counts :: counts[id] == Share(merged[..i], id)
    {
      var id := merged[i].source;
      assert merged[..i + 1][..i] == merged[..i];
      counts := counts[id := (if id in counts then counts[id] else 0) + 1];
    }
    assert merged[..|merged|] == merged;
    order := [];
    var rest := counts.Keys;
    while rest != {}
      invariant rest <= counts.Keys
      invariant forall id :: id in order <==> id in counts && id !in rest
      invariant forall i, j | 0 <= i < j < |order| :: order[i] != order[j] && counts[order[i]] <= counts[order[j]]
      invariant forall i, id | 0 <= i < |order| && id in rest :: counts[order[i]] <= counts[id]
    {
      LeastExists(rest, counts);
      var id :| id in rest && forall other | other in rest :: counts[id] <= counts[other];
      order, rest := order + [id], rest - {id};
    }
    ByShare(order, merged);
  }

  lemma LeastExists(s: set<nat>, counts: map<nat, nat>)
    requires s != {} && s <= counts.Keys
    ensures exists id :: id in s && forall other | other in s :: counts[id] <= counts[other]
    decreases |s|
  {
    var id :| id in s;
    if s != {id} {
      LeastExists(s - {id}, counts);
      var k :| k in s - {id} && forall other | other in s - {id} :: counts[k] <= counts[other];
      assert counts[id] <= counts[k] || forall other | other in s :: counts[k] <= counts[other];
      if counts[id] <= counts[k] {
        assert forall other | other in s :: counts[id] <= counts[other];
      }
    }
  }
}
