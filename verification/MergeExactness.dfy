/** What a merged result means: if every shard answered with its own top K, the merged list is the top K
    of everything stored, although a tag may sit in several shards at different distances. */
module MergeExactness {
  import opened ResultMerge

  /** The whole cache: each stored tag with its best distance over the shards that hold it. */
  ghost predicate IsUnion(u: map<nat, real>, contents: seq<map<nat, real>>) {
    && (forall s, t | 0 <= s < |contents| && t in contents[s] :: t in u && u[t] <= contents[s][t])
    && (forall t | t in u :: exists s :: 0 <= s < |contents| && t in contents[s] && contents[s][t] == u[t])
  }

  /** Every shard that stores anything was searched, and answered with its exact top K. */
  ghost predicate ExactAnswers(tags: seq<seq<nat>>, dists: seq<seq<real>>, ids: seq<nat>, contents: seq<map<nat, real>>,
                               K: nat) {
    && |tags| == |dists| == |contents|
    && (forall s | 0 <= s < |contents| && contents[s] != map[] :: s in ids)
    && (forall s | s in ids && s < |contents| :: TopK(Zip(tags[s], dists[s]), contents[s], K))
  }

  lemma {:induction false} ListedIsSound(tags: seq<seq<nat>>, dists: seq<seq<real>>, ids: seq<nat>, k: nat)
    requires |tags| == |dists| && k < |Listed(tags, dists, ids)|
    ensures var o := Listed(tags, dists, ids)[k];
      o.source in ids && o.source < |tags| && o.entry in Zip(tags[o.source], dists[o.source])
  {
    var front, id := Listed(tags, dists, ids[..|ids| - 1]), ids[|ids| - 1];
    if k < |front| {
      ListedIsSound(tags, dists, ids[..|ids| - 1], k);
    } else {
      assert Listed(tags, dists, ids)[k] == From(Zip(tags[id], dists[id]), id)[k - |front|];
    }
  }

  lemma {:induction false} ListedIsComplete(tags: seq<seq<nat>>, dists: seq<seq<real>>, ids: seq<nat>, id: nat, j: nat)
    requires |tags| == |dists| && id in ids && id < |tags| && j < |Zip(tags[id], dists[id])|
    ensures Sourced(Zip(tags[id], dists[id])[j], id) in Listed(tags, dists, ids)
  {
    var last := ids[|ids| - 1];
    if last == id {
      var front := Listed(tags, dists, ids[..|ids| - 1]);
      assert Listed(tags, dists, ids)[|front| + j] == Sourced(Zip(tags[id], dists[id])[j], id);
    } else {
      assert ids == ids[..|ids| - 1] + [last];
      ListedIsComplete(tags, dists, ids[..|ids| - 1], id, j);
    }
  }

  /** A merged distance was listed by some shard that holds the tag at that distance. */
  lemma MergedIsStored(tags: seq<seq<nat>>, dists: seq<seq<real>>, ids: seq<nat>, contents: seq<map<nat, real>>, K: nat,
                       u: map<nat, real>, t: nat)
    requires ExactAnswers(tags, dists, ids, contents, K) && IsUnion(u, contents)
    requires t in Distances(BestOf(Listed(tags, dists, ids)))
    ensures t in u && u[t] <= Distances(BestOf(Listed(tags, dists, ids)))[t]
  {
    var all := Listed(tags, dists, ids);
    var i := BestOfIsFirst(all, t);
    ListedIsSound(tags, dists, ids, i);
    var s := all[i].source;
    var j :| 0 <= j < |Zip(tags[s], dists[s])| && Zip(tags[s], dists[s])[j] == all[i].entry;
    assert contents[s][t] == all[i].entry.distance;
  }

  /** What a shard lists instead of t is K other tags, all at least as near. */
  lemma ShardBeats(list: seq<Entry>, content: map<nat, real>, K: nat, t: nat)
    requires TopK(list, content, K) && t in content && t !in Tags(list)
    ensures |Tags(list)| == K
    ensures forall j | 0 <= j < |list| :: list[j].distance <= content[t]
  {
    TagsSize(list);
  }

  lemma ListedInBest(tags: seq<seq<nat>>, dists: seq<seq<real>>, ids: seq<nat>, s: nat, b: map<nat, real>)
    requires |tags| == |dists| && s in ids && s < |tags| && b == Distances(BestOf(Listed(tags, dists, ids)))
    ensures forall e | e in Zip(tags[s], dists[s]) :: e.tag in b && b[e.tag] <= e.distance
  {
    var all, list := Listed(tags, dists, ids), Zip(tags[s], dists[s]);
    BestOfIsMinimum(all);
    forall e | e in list ensures e.tag in b && b[e.tag] <= e.distance {
      var j :| 0 <= j < |list| && list[j] == e;
      ListedIsComplete(tags, dists, ids, s, j);
      var k :| 0 <= k < |all| && all[k] == Sourced(e, s);
    }
  }

  /** If some shard holds t nearer than the merged lists know, that shard listed K others at least as near. */
  lemma UnlistedIsBeaten(tags: seq<seq<nat>>, dists: seq<seq<real>>, ids: seq<nat>, contents: seq<map<nat, real>>,
                         K: nat, u: map<nat, real>, t: nat, merged: seq<Entry>, b: map<nat, real>)
    requires ExactAnswers(tags, dists, ids, contents, K) && IsUnion(u, contents) && K > 0
    requires b == Distances(BestOf(Listed(tags, dists, ids))) && TopK(merged, b, K)
    requires t in u && (t !in b || u[t] < b[t])
    ensures |merged| == K && merged[K - 1].distance <= u[t]
  {
    var s :| 0 <= s < |contents| && t in contents[s] && contents[s][t] == u[t];
    var list := Zip(tags[s], dists[s]);
    ListedInBest(tags, dists, ids, s, b);
    assert t !in Tags(list);
    ShardBeats(list, contents[s], K, t);
    forall x | x in Tags(list) ensures x in b && b[x] <= u[t] {
      var j :| 0 <= j < |list| && list[j].tag == x;
      assert list[j] in list;
    }
    NWithin(merged, b, K, Tags(list), K, u[t]);
  }

  /** A top K of b is a top K of u if u only improves on b beyond the K-th place. */
  lemma TopKTransfers(merged: seq<Entry>, b: map<nat, real>, u: map<nat, real>, K: nat)
    requires TopK(merged, b, K)
    requires forall t | t in b :: t in u && u[t] <= b[t]
    requires forall t | t in u && (t !in b || u[t] < b[t]) && K > 0 :: |merged| == K && merged[K - 1].distance <= u[t]
    ensures TopK(merged, u, K)
  {}

  lemma MergeIsExact(tags: seq<seq<nat>>, dists: seq<seq<real>>, ids: seq<nat>, contents: seq<map<nat, real>>, K: nat,
                     u: map<nat, real>, merged: seq<Entry>)
    requires ExactAnswers(tags, dists, ids, contents, K) && IsUnion(u, contents)
    requires TopK(merged, Distances(BestOf(Listed(tags, dists, ids))), K)
    ensures TopK(merged, u, K)
  {
    var b := Distances(BestOf(Listed(tags, dists, ids)));
    forall t | t in b ensures t in u && u[t] <= b[t] {
      MergedIsStored(tags, dists, ids, contents, K, u, t);
    }
    forall t | t in u && (t !in b || u[t] < b[t]) && K > 0 ensures |merged| == K && merged[K - 1].distance <= u[t] {
      UnlistedIsBeaten(tags, dists, ids, contents, K, u, t, merged, b);
    }
    TopKTransfers(merged, b, u, K);
  }
}
