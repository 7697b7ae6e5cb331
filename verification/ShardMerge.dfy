/** Merging the graphs of overlapping shards into one: the shards' files are streamed once, in node order. Files
    are sequences of 32-bit words. */
module ShardMerge {
  import opened Base
  import Sorting

  /** The graph of one shard over its own numbering, 0 to |lists| - 1. */
  datatype Shard = Shard(width: nat, medoid: nat, lists: seq<seq<nat>>)

  /** node_shard: the shard holds the node. */
  datatype Entry = Entry(node: nat, shard: nat)

  predicate AtMost(a: Entry, b: Entry) {
    a.node < b.node || (a.node == b.node && a.shard <= b.shard)
  }

  lemma AtMostIsAnOrder()
    ensures Sorting.TotalPreorder(AtMost)
  {}

  // ---------------------------------------------------------------- files

  function Record(list: seq<nat>): (r: seq<nat>)
    ensures |r| == 1 + |list|
  {
    [|list|] + list
  }

  function Flatten(lists: seq<seq<nat>>): seq<nat> {
    if lists == [] then [] else Flatten(lists[..|lists| - 1]) + Record(lists[|lists| - 1])
  }

  /** Where record i starts, in words after the header. */
  function Offset(lists: seq<seq<nat>>, i: nat): nat
    requires i <= |lists|
  {
    |Flatten(lists[..i])|
  }

  lemma {:induction false} RecordAt(lists: seq<seq<nat>>, i: nat)
    requires i < |lists|
    ensures Offset(lists, i + 1) == Offset(lists, i) + 1 + |lists[i]| <= |Flatten(lists)|
    ensures Flatten(lists)[Offset(lists, i)] == |lists[i]|
    ensures Flatten(lists)[Offset(lists, i) + 1..Offset(lists, i + 1)] == lists[i]
  {
    var l := |lists| - 1;
    assert lists[..i + 1][..i] == lists[..i];
    if i < l {
      RecordAt(lists[..l], i);
      assert lists[..l][..i] == lists[..i] && lists[..l][..i + 1] == lists[..i + 1];
    } else {
      assert lists[..l + 1] == lists;
    }
  }

  /** A 64-bit number in two words, low word first. */
  function Long(n: nat): (r: seq<nat>)
    ensures |r| == 2
  {
    [n % 0x1_0000_0000, n / 0x1_0000_0000 % 0x1_0000_0000]
  }

  lemma LongMeans(n: nat)
    ensures Long(n)[0] < 0x1_0000_0000 && Long(n)[1] < 0x1_0000_0000
    ensures Long(n)[0] + 0x1_0000_0000 * Long(n)[1] == n % 0x1_0000_0000_0000_0000
  {
    var q := n / 0x1_0000_0000;
    var h, r := q / 0x1_0000_0000, q % 0x1_0000_0000;
    assert n == n % 0x1_0000_0000 + 0x1_0000_0000 * (r + 0x1_0000_0000 * h);
  }

  /** The 24 bytes before the records. */
  function Header(size: nat, width: nat, medoid: nat): (r: seq<nat>)
    ensures |r| == 6
  {
    Long(size) + [width, medoid] + Long(0)
  }

  /** The file of a shard whose nodes `idmap` renames, from a program that wrote any size in the header. */
  ghost predicate FileOk(file: seq<nat>, shard: Shard, idmap: seq<nat>) {
    && (exists size :: file == Header(size, shard.width, shard.medoid) + Flatten(shard.lists))
    && |shard.lists| == |idmap| && shard.medoid < |idmap|
    && forall i, x | 0 <= i < |shard.lists| && x in shard.lists[i] :: x < |idmap|
  }

  // ---------------------------------------------------------------- the node -> shards map

  function PairsOf(idmap: seq<nat>, shard: nat): (r: seq<Entry>)
    ensures |r| == |idmap|
  {
    seq(|idmap|, i requires 0 <= i < |idmap| => Entry(idmap[i], shard))
  }

  function AllPairs(idmaps: seq<seq<nat>>): seq<Entry> {
    if idmaps == [] then []
    else AllPairs(idmaps[..|idmaps| - 1]) + PairsOf(idmaps[|idmaps| - 1], |idmaps| - 1)
  }

  /** The nodes that the pairs name for shard s, in their order. */
  function NodesOf(pairs: seq<Entry>, s: nat): seq<nat> {
    if pairs == [] then []
    else
      var l := |pairs| - 1;
      NodesOf(pairs[..l], s) + if pairs[l].shard == s then [pairs[l].node] else []
  }

  lemma {:induction false} NodesJoin(a: seq<Entry>, b: seq<Entry>, s: nat)
    ensures NodesOf(a + b, s) == NodesOf(a, s) + NodesOf(b, s)
  {
    if b == [] {
      assert a + b == a;
    } else {
      var l := |b| - 1;
      NodesJoin(a, b[..l], s);
      assert (a + b)[..|a + b| - 1] == a + b[..l];
    }
  }

  lemma {:induction false} NodesOfOne(idmap: seq<nat>, shard: nat, s: nat)
    ensures NodesOf(PairsOf(idmap, shard), s) == if s == shard then idmap else []
  {
    if idmap != [] {
      var l := |idmap| - 1;
      NodesOfOne(idmap[..l], shard, s);
      assert PairsOf(idmap, shard)[..l] == PairsOf(idmap[..l], shard);
    }
  }

  lemma {:induction false} NodesOfAll(idmaps: seq<seq<nat>>, s: nat)
    ensures NodesOf(AllPairs(idmaps), s) == if s < |idmaps| then idmaps[s] else []
  {
    if idmaps != [] {
      var l := |idmaps| - 1;
      NodesOfAll(idmaps[..l], s);
      NodesOfOne(idmaps[l], l, s);
      NodesJoin(AllPairs(idmaps[..l]), PairsOf(idmaps[l], l), s);
    }
  }

  lemma {:induction false} CountNodes(pairs: seq<Entry>, s: nat, v: nat)
    ensures multiset(NodesOf(pairs, s))[v] == multiset(pairs)[Entry(v, s)]
  {
    if pairs != [] {
      var l := |pairs| - 1;
      CountNodes(pairs[..l], s, v);
      assert pairs == pairs[..l] + [pairs[l]];
      assert multiset(pairs) == multiset(pairs[..l]) + multiset{pairs[l]};
    }
  }

  ghost predicate Sorted(s: seq<nat>) {
    forall i, j | 0 <= i < j < |s| :: s[i] <= s[j]
  }

  lemma {:induction false} NodesSorted(pairs: seq<Entry>, s: nat)
    requires Sorting.SortedBy(pairs, AtMost)
    ensures Sorted(NodesOf(pairs, s))
    ensures pairs != [] ==> forall i | 0 <= i < |NodesOf(pairs, s)| :: NodesOf(pairs, s)[i] <= pairs[|pairs| - 1].node
  {
    if pairs != [] {
      var l := |pairs| - 1;
      NodesSorted(pairs[..l], s);
      if l > 0 { assert AtMost(pairs[l - 1], pairs[l]); }
    }
  }

  /** Two sorted lists with the same elements are the same. */
  lemma {:induction false} SortedIsUnique(a: seq<nat>, b: seq<nat>)
    requires Sorted(a) && Sorted(b) && multiset(a) == multiset(b)
    ensures a == b
  {
    assert |multiset(a)| == |a| && |multiset(b)| == |b|;
    if a != [] {
      var l := |a| - 1;
      LastIsGreatest(a, b);
      LastIsGreatest(b, a);
      DropSame(a, b, l);
      assert b[..l] + b[l + 1..] == b[..l];
      SortedIsUnique(a[..l], b[..l]);
    }
  }

  lemma LastIsGreatest(a: seq<nat>, b: seq<nat>)
    requires Sorted(a) && multiset(a) == multiset(b) && a != [] && b != []
    ensures b[|b| - 1] <= a[|a| - 1]
  {
    assert b[|b| - 1] in multiset(b);
    assert b[|b| - 1] in a;
  }

  /** The sorted map names the nodes of each shard in the order of its id map: its k-th mention of a shard is for
      that shard's k-th record. */
  lemma RecordsInOrder(idmaps: seq<seq<nat>>, pairs: seq<Entry>, s: nat)
    requires s < |idmaps| && Sorted(idmaps[s])
    requires multiset(pairs) == multiset(AllPairs(idmaps)) && Sorting.SortedBy(pairs, AtMost)
    ensures NodesOf(pairs, s) == idmaps[s]
  {
    forall v: nat ensures multiset(NodesOf(pairs, s))[v] == multiset(idmaps[s])[v] {
      CountNodes(pairs, s, v);
      CountNodes(AllPairs(idmaps), s, v);
      NodesOfAll(idmaps, s);
    }
    NodesSorted(pairs, s);
    SortedIsUnique(NodesOf(pairs, s), idmaps[s]);
  }

  // ---------------------------------------------------------------- which record belongs to which node

  /** How many pairs before the t-th name shard s: the record its reader is at. */
  function Seen(pairs: seq<Entry>, t: nat, s: nat): nat
    requires t <= |pairs|
  {
    |NodesOf(pairs[..t], s)|
  }

  /** The map sorted as std::sort leaves it, over shards whose id maps ascend. */
  ghost predicate Ordered(idmaps: seq<seq<nat>>, pairs: seq<Entry>) {
    && Sorting.SortedBy(pairs, AtMost)
    && (forall u | 0 <= u < |pairs| :: pairs[u].shard < |idmaps|)
    && forall s | 0 <= s < |idmaps| :: NodesOf(pairs, s) == idmaps[s]
  }

  lemma SeenGrows(pairs: seq<Entry>, t: nat, s: nat)
    requires t < |pairs|
    ensures Seen(pairs, t + 1, s) == Seen(pairs, t, s) + if pairs[t].shard == s then 1 else 0
    ensures Seen(pairs, t + 1, s) <= |NodesOf(pairs, s)|
    ensures pairs[t].shard == s ==> NodesOf(pairs, s)[Seen(pairs, t, s)] == pairs[t].node
  {
    assert pairs[..t + 1][..t] == pairs[..t];
    NodesJoin(pairs[..t + 1], pairs[t + 1..], s);
    assert pairs == pairs[..t + 1] + pairs[t + 1..];
  }

  /** The reader of the t-th pair's shard is at the record of the t-th pair's node. */
  lemma RightNode(idmaps: seq<seq<nat>>, pairs: seq<Entry>, t: nat)
    requires Ordered(idmaps, pairs) && t < |pairs|
    ensures var s := pairs[t].shard;
      s < |idmaps| && Seen(pairs, t, s) < |idmaps[s]| && idmaps[s][Seen(pairs, t, s)] == pairs[t].node
  {
    SeenGrows(pairs, t, pairs[t].shard);
  }

  /** Every record is read at some point. */
  lemma {:induction false} Located(pairs: seq<Entry>, s: nat, i: nat) returns (u: nat)
    requires i < |NodesOf(pairs, s)|
    ensures u < |pairs| && pairs[u] == Entry(NodesOf(pairs, s)[i], s) && Seen(pairs, u, s) == i
  {
    var l := |pairs| - 1;
    if i < |NodesOf(pairs[..l], s)| {
      u := Located(pairs[..l], s, i);
      assert pairs[..l][..u] == pairs[..u];
    } else {
      u := l;
    }
  }

  // ---------------------------------------------------------------- what is merged

  function Renamed(list: seq<nat>, idmap: seq<nat>): (r: seq<nat>)
    requires forall x | x in list :: x < |idmap|
    ensures |r| == |list|
  {
    seq(|list|, j requires 0 <= j < |list| => assert list[j] in list; idmap[list[j]])
  }

  /** The shards' lists stay within their shards. */
  ghost predicate ListsOk(shards: seq<Shard>, idmaps: seq<seq<nat>>) {
    && |shards| == |idmaps|
    && (forall s | 0 <= s < |shards| :: |shards[s].lists| == |idmaps[s]|)
    && forall s, i, x | 0 <= s < |shards| && 0 <= i < |idmaps[s]| && x in shards[s].lists[i] :: x < |idmaps[s]|
  }

  /** w is a neighbour in record i of shard s, under its own name. */
  ghost predicate InRecord(shards: seq<Shard>, idmaps: seq<seq<nat>>, s: nat, i: nat, w: nat)
    requires ListsOk(shards, idmaps)
  {
    s < |shards| && i < |idmaps[s]| && w in Renamed(shards[s].lists[i], idmaps[s])
  }

  /** w is a neighbour of v in some shard. */
  ghost predicate IsNeighbor(shards: seq<Shard>, idmaps: seq<seq<nat>>, v: nat, w: nat)
    requires ListsOk(shards, idmaps)
  {
    exists s: nat, i: nat ::
      s < |shards| && i < |idmaps[s]| && idmaps[s][i] == v && InRecord(shards, idmaps, s, i, w)
  }

  /** w is in a record of v among the first t that are read. */
  ghost predicate Gathered(shards: seq<Shard>, idmaps: seq<seq<nat>>, pairs: seq<Entry>, t: nat, v: nat, w: nat)
    requires ListsOk(shards, idmaps) && t <= |pairs|
  {
    exists u: nat :: u < t && pairs[u].node == v
      && InRecord(shards, idmaps, pairs[u].shard, Seen(pairs, u, pairs[u].shard), w)
  }

  lemma GatheredGrows(shards: seq<Shard>, idmaps: seq<seq<nat>>, pairs: seq<Entry>, t: nat, v: nat, w: nat)
    requires ListsOk(shards, idmaps) && t < |pairs|
    ensures Gathered(shards, idmaps, pairs, t + 1, v, w) <==>
      || Gathered(shards, idmaps, pairs, t, v, w)
      || (pairs[t].node == v && InRecord(shards, idmaps, pairs[t].shard, Seen(pairs, t, pairs[t].shard), w))
  {}

  lemma GatheredIsNeighbor(shards: seq<Shard>, idmaps: seq<seq<nat>>, pairs: seq<Entry>, t: nat, v: nat, w: nat)
    requires ListsOk(shards, idmaps) && Ordered(idmaps, pairs) && t <= |pairs|
    requires Gathered(shards, idmaps, pairs, t, v, w)
    ensures IsNeighbor(shards, idmaps, v, w)
  {
    var u: nat :| u < t && pairs[u].node == v
      && InRecord(shards, idmaps, pairs[u].shard, Seen(pairs, u, pairs[u].shard), w);
    RightNode(idmaps, pairs, u);
  }

  /** Once the pairs of v are done, its neighbours have all been gathered. */
  lemma NeighborIsGathered(shards: seq<Shard>, idmaps: seq<seq<nat>>, pairs: seq<Entry>, t: nat, v: nat, w: nat)
    requires ListsOk(shards, idmaps) && Ordered(idmaps, pairs) && t <= |pairs|
    requires t < |pairs| ==> v < pairs[t].node
    requires IsNeighbor(shards, idmaps, v, w)
    ensures Gathered(shards, idmaps, pairs, t, v, w)
  {
    var s: nat, i: nat :| s < |shards| && i < |idmaps[s]| && idmaps[s][i] == v && InRecord(shards, idmaps, s, i, w);
    var u := Located(pairs, s, i);
    if t <= u { NodesAscend(pairs, t, u); }
  }

  /** A merged list: all the neighbours of v in some order, cut to the maximum degree. */
  ghost predicate Merged(shards: seq<Shard>, idmaps: seq<seq<nat>>, maxDegree: nat, v: nat, list: seq<nat>)
    requires ListsOk(shards, idmaps)
  {
    exists all: seq<nat> ::
      && NoRepeats(all) && (forall w: nat :: w in all <==> IsNeighbor(shards, idmaps, v, w))
      && list == Cut(all, maxDegree)
  }

  function Cut(all: seq<nat>, maxDegree: nat): seq<nat> {
    all[..if |all| < maxDegree then |all| else maxDegree]
  }

  /** The j-th entry of record i of shard s is w. */
  ghost predicate Names(shards: seq<Shard>, idmaps: seq<seq<nat>>, s: nat, i: nat, j: nat, w: nat) {
    && s < |shards| && s < |idmaps| && i < |shards[s].lists| && j < |shards[s].lists[i]|
    && shards[s].lists[i][j] < |idmaps[s]| && idmaps[s][shards[s].lists[i][j]] == w
  }

  /** Some record of v names w. */
  ghost predicate Links(shards: seq<Shard>, idmaps: seq<seq<nat>>, v: nat, w: nat) {
    exists s: nat, i: nat, j: nat ::
      s < |idmaps| && i < |idmaps[s]| && idmaps[s][i] == v && Names(shards, idmaps, s, i, j, w)
  }

  lemma NeighborMeans(shards: seq<Shard>, idmaps: seq<seq<nat>>, v: nat, w: nat)
    requires ListsOk(shards, idmaps)
    ensures IsNeighbor(shards, idmaps, v, w) <==> Links(shards, idmaps, v, w)
  {
    if IsNeighbor(shards, idmaps, v, w) {
      var s: nat, i: nat :| s < |shards| && i < |idmaps[s]| && idmaps[s][i] == v && InRecord(shards, idmaps, s, i, w);
      var renamed := Renamed(shards[s].lists[i], idmaps[s]);
      var j: nat :| j < |renamed| && renamed[j] == w;
      assert shards[s].lists[i][j] in shards[s].lists[i];
      assert Names(shards, idmaps, s, i, j, w);
    }
    if Links(shards, idmaps, v, w) {
      var s: nat, i: nat, j: nat :|
        s < |idmaps| && i < |idmaps[s]| && idmaps[s][i] == v && Names(shards, idmaps, s, i, j, w);
      assert Renamed(shards[s].lists[i], idmaps[s])[j] == w;
      assert InRecord(shards, idmaps, s, i, w);
    }
  }

  /** A merged list in terms of the shards' records: no neighbour twice, nothing but neighbours, at most the maximum
      degree, and all of them if that is not reached. */
  lemma MergedMeans(shards: seq<Shard>, idmaps: seq<seq<nat>>, maxDegree: nat, v: nat, list: seq<nat>)
    requires ListsOk(shards, idmaps) && Merged(shards, idmaps, maxDegree, v, list)
    ensures NoRepeats(list) && |list| <= maxDegree
    ensures forall w | w in list :: Links(shards, idmaps, v, w)
    ensures |list| < maxDegree ==> forall w: nat | Links(shards, idmaps, v, w) :: w in list
  {
    var all: seq<nat> :| NoRepeats(all) && (forall w: nat :: w in all <==> IsNeighbor(shards, idmaps, v, w))
      && list == Cut(all, maxDegree);
    forall w: nat ensures w in all <==> Links(shards, idmaps, v, w) { NeighborMeans(shards, idmaps, v, w); }
    assert |list| < maxDegree ==> list == all;
  }

  ghost predicate Held(idmaps: seq<seq<nat>>, v: nat) {
    exists s | 0 <= s < |idmaps| :: v in idmaps[s]
  }

  /** The n nodes are those that belong to a shard. */
  ghost predicate Covers(idmaps: seq<seq<nat>>, n: nat) {
    && (forall s, i | 0 <= s < |idmaps| && 0 <= i < |idmaps[s]| :: idmaps[s][i] < n)
    && forall v: nat | v < n :: Held(idmaps, v)
  }

  /** Every node has a pair. */
  lemma PairOf(idmaps: seq<seq<nat>>, pairs: seq<Entry>, n: nat, v: nat) returns (u: nat)
    requires Ordered(idmaps, pairs) && Covers(idmaps, n) && v < n
    ensures u < |pairs| && pairs[u].node == v
  {
    assert Held(idmaps, v);
    var s: nat :| s < |idmaps| && v in idmaps[s];
    var i :| 0 <= i < |idmaps[s]| && idmaps[s][i] == v;
    u := Located(pairs, s, i);
  }

  lemma NodesAscend(pairs: seq<Entry>, i: nat, j: nat)
    requires Sorting.SortedBy(pairs, AtMost) && i <= j < |pairs|
    ensures pairs[i].node <= pairs[j].node
  {
    if i < j { assert AtMost(pairs[i], pairs[j]); }
  }

  /** No node is skipped. */
  lemma NextNode(idmaps: seq<seq<nat>>, pairs: seq<Entry>, n: nat, t: nat)
    requires Ordered(idmaps, pairs) && Covers(idmaps, n) && t < |pairs|
    ensures pairs[t].node < n
    ensures t == 0 ==> pairs[t].node == 0
    ensures t > 0 ==> pairs[t - 1].node <= pairs[t].node <= pairs[t - 1].node + 1
  {
    RightNode(idmaps, pairs, t);
    if t > 0 { NodesAscend(pairs, t - 1, t); }
    var v := if t == 0 then 0 else pairs[t - 1].node + 1;
    if v < pairs[t].node {
      var u := PairOf(idmaps, pairs, n, v);
    }
  }

  /** The last pair is for the largest node. */
  lemma LastNode(idmaps: seq<seq<nat>>, pairs: seq<Entry>, n: nat)
    requires Ordered(idmaps, pairs) && Covers(idmaps, n) && n > 0
    ensures pairs != [] && pairs[|pairs| - 1].node == n - 1
  {
    var u := PairOf(idmaps, pairs, n, n - 1);
    var l := |pairs| - 1;
    RightNode(idmaps, pairs, l);
    NodesAscend(pairs, u, l);
  }

  // ---------------------------------------------------------------- the program

  /** The largest node id plus one. */
  method CountNodeIds(idmaps: seq<seq<nat>>) returns (n: nat)
    ensures n > 0 && forall s, i | 0 <= s < |idmaps| && 0 <= i < |idmaps[s]| :: idmaps[s][i] < n
    ensures n == 1 || exists s, i | 0 <= s < |idmaps| && 0 <= i < |idmaps[s]| :: idmaps[s][i] == n - 1
  {
    n := 0;
    for s := 0 to |idmaps|
      invariant forall r, i | 0 <= r < s && 0 <= i < |idmaps[r]| :: idmaps[r][i] <= n
      invariant n == 0 || exists r, i | 0 <= r < s && 0 <= i < |idmaps[r]| :: idmaps[r][i] == n
    {
      for i := 0 to |idmaps[s]|
        invariant forall r, k | 0 <= r < s && 0 <= k < |idmaps[r]| :: idmaps[r][k] <= n
        invariant forall k | 0 <= k < i :: idmaps[s][k] <= n
        invariant n == 0 || exists r, k | 0 <= r <= s && 0 <= k < |idmaps[r]| :: idmaps[r][k] == n
      {
        if n < idmaps[s][i] { n := idmaps[s][i]; }
      }
    }
    n := n + 1;
  }

  method InverseMap(idmaps: seq<seq<nat>>) returns (pairs: seq<Entry>)
    requires forall s | 0 <= s < |idmaps| :: Sorted(idmaps[s])
    ensures Ordered(idmaps, pairs)
  {
    var all: seq<Entry> := [];
    for s := 0 to |idmaps|
      invariant all == AllPairs(idmaps[..s])
      invariant forall e | e in all :: e.shard < s
    {
      var part: seq<Entry> := [];
      for i := 0 to |idmaps[s]|
        invariant part == PairsOf(idmaps[s][..i], s)
      {
        part := part + [Entry(idmaps[s][i], s)];
      }
      assert idmaps[s][..|idmaps[s]|] == idmaps[s] && idmaps[..s + 1][..s] == idmaps[..s];
      all := all + part;
    }
    assert idmaps[..|idmaps|] == idmaps;
    AtMostIsAnOrder();
    pairs := Sorting.Sort(all, AtMost);
    forall s: nat | s < |idmaps| ensures NodesOf(pairs, s) == idmaps[s] { RecordsInOrder(idmaps, pairs, s); }
    forall u | 0 <= u < |pairs| ensures pairs[u].shard < |idmaps| {
      assert pairs[u] in multiset(pairs);
      assert pairs[u] in all;
    }
  }

  /** std::shuffle, driven by arbitrary draws. */
  method Shuffle(s: seq<nat>, draw: nat -> nat) returns (r: seq<nat>)
    ensures multiset(r) == multiset(s) && |r| == |s|
  {
    r := s;
    for i := 0 to |s|
      invariant multiset(r) == multiset(s) && |r| == |s|
    {
      var j := draw(i) % |s|;
      r := r[i := r[j]][j := r[i]];
    }
  }

  /** What a shuffled list has in common with the list. */
  lemma ShuffledIsMerged(shards: seq<Shard>, idmaps: seq<seq<nat>>, maxDegree: nat, v: nat, all: seq<nat>, r: seq<nat>)
    requires ListsOk(shards, idmaps) && NoRepeats(all) && multiset(r) == multiset(all)
    requires forall w: nat :: w in all <==> IsNeighbor(shards, idmaps, v, w)
    ensures Merged(shards, idmaps, maxDegree, v, Cut(r, maxDegree))
  {
    forall w: nat ensures w in r <==> w in all {
      assert w in multiset(r) <==> w in multiset(all);
    }
    PermutedNoRepeats(all, r);
  }

  /** The inputs: one file and one ascending id map per shard, at least one shard, and every node in a shard. */
  ghost predicate Input(files: seq<seq<nat>>, shards: seq<Shard>, idmaps: seq<seq<nat>>, n: nat) {
    && |files| == |shards| == |idmaps| > 0 && n > 0
    && (forall s | 0 <= s < |files| :: FileOk(files[s], shards[s], idmaps[s]))
    && (forall s | 0 <= s < |idmaps| :: Sorted(idmaps[s]))
    && Covers(idmaps, n)
  }

  lemma InputLists(files: seq<seq<nat>>, shards: seq<Shard>, idmaps: seq<seq<nat>>, n: nat)
    requires Input(files, shards, idmaps, n)
    ensures ListsOk(shards, idmaps)
  {
    forall s, i, x | 0 <= s < |shards| && 0 <= i < |shards[s].lists| && x in shards[s].lists[i]
      ensures x < |idmaps[s]|
    {
      assert FileOk(files[s], shards[s], idmaps[s]);
    }
  }

  /** Each reader is at the record of its shard that comes next. */
  ghost predicate Positioned(shards: seq<Shard>, pairs: seq<Entry>, t: nat, pos: seq<nat>)
    requires t <= |pairs|
  {
    && |pos| == |shards|
    && forall s | 0 <= s < |shards| ::
         Seen(pairs, t, s) <= |shards[s].lists| && pos[s] == 6 + Offset(shards[s].lists, Seen(pairs, t, s))
  }

  /** final_nhood holds what has been gathered for v, and nhood_set marks exactly that. */
  ghost predicate Collected(shards: seq<Shard>, idmaps: seq<seq<nat>>, pairs: seq<Entry>, t: nat, v: nat,
                            found: seq<nat>, marks: seq<bool>)
    requires ListsOk(shards, idmaps) && t <= |pairs|
  {
    && NoRepeats(found) && MarksAre(found, marks)
    && forall w: nat :: w in found <==> Gathered(shards, idmaps, pairs, t, v, w)
  }

  ghost predicate MarksAre(found: seq<nat>, marks: seq<bool>) {
    && (forall w | w in found :: w < |marks|)
    && forall w: nat | w < |marks| :: marks[w] <==> w in found
  }

  lemma DropSlice(file: seq<nat>, a: nat, b: nat)
    requires 6 <= a <= b <= |file|
    ensures file[6..][a - 6..b - 6] == file[a..b]
  {}

  /** One record of a file. */
  method ReadRecord(file: seq<nat>, at: nat, ghost lists: seq<seq<nat>>, ghost i: nat)
    returns (list: seq<nat>, next: nat)
    requires i < |lists| && at == 6 + Offset(lists, i) && |file| >= 6 && file[6..] == Flatten(lists)
    ensures list == lists[i] && next == 6 + Offset(lists, i + 1)
  {
    RecordAt(lists, i);
    assert file[at] == Flatten(lists)[Offset(lists, i)];
    var count := file[at];
    list := file[at + 1..at + 1 + count];
    next := at + 1 + count;
    DropSlice(file, at + 1, next);
  }

  /** The renaming loop: neighbours not marked yet are marked and appended. */
  method Append(list: seq<nat>, idmap: seq<nat>, marks: array<bool>, found: seq<nat>) returns (more: seq<nat>)
    requires forall x | x in list :: x < |idmap|
    requires forall i | 0 <= i < |idmap| :: idmap[i] < marks.Length
    requires NoRepeats(found) && MarksAre(found, marks[..])
    modifies marks
    ensures NoRepeats(more) && MarksAre(more, marks[..])
    ensures forall w: nat :: w in more <==> w in found || w in Renamed(list, idmap)
  {
    more := found;
    for j := 0 to |list|
      invariant NoRepeats(more) && MarksAre(more, marks[..])
      invariant forall w: nat :: w in more <==> w in found || w in Renamed(list, idmap)[..j]
    {
      assert list[j] in list;
      var w := idmap[list[j]];
      assert Renamed(list, idmap)[..j + 1] == Renamed(list, idmap)[..j] + [w];
      if !marks[w] {
        marks[w] := true;
        more := more + [w];
      }
    }
    assert Renamed(list, idmap)[..|list|] == Renamed(list, idmap);
  }

  method ClearMarks(found: seq<nat>, marks: array<bool>)
    requires MarksAre(found, marks[..])
    modifies marks
    ensures MarksAre([], marks[..])
  {
    for j := 0 to |found|
      invariant forall w | w in found :: w < marks.Length
      invariant forall w: nat | w < marks.Length :: marks[w] ==> w in found[j..]
    {
      assert found[j] in found;
      marks[found[j]] := false;
    }
  }

  /** What has been written: the merged lists of the nodes below v. */
  ghost predicate Written(shards: seq<Shard>, idmaps: seq<seq<nat>>, maxDegree: nat, v: nat, recs: seq<seq<nat>>)
    requires ListsOk(shards, idmaps)
  {
    |recs| == v && forall u | 0 <= u < v :: Merged(shards, idmaps, maxDegree, u, recs[u])
  }

  /** Shuffling, cutting and writing the list of node v, whose pairs are done. */
  method Flush(found: seq<nat>, maxDegree: nat, draw: nat -> nat, ghost shards: seq<Shard>,
               ghost idmaps: seq<seq<nat>>, ghost pairs: seq<Entry>, ghost t: nat, ghost v: nat,
               ghost marks: seq<bool>) returns (list: seq<nat>)
    requires ListsOk(shards, idmaps) && Ordered(idmaps, pairs) && t <= |pairs|
    requires t < |pairs| ==> v < pairs[t].node
    requires Collected(shards, idmaps, pairs, t, v, found, marks)
    ensures Merged(shards, idmaps, maxDegree, v, list)
  {
    var shuffled := Shuffle(found, draw);
    list := Cut(shuffled, maxDegree);
    forall w: nat ensures w in found <==> IsNeighbor(shards, idmaps, v, w) {
      if w in found { GatheredIsNeighbor(shards, idmaps, pairs, t, v, w); }
      if IsNeighbor(shards, idmaps, v, w) { NeighborIsGathered(shards, idmaps, pairs, t, v, w); }
    }
    ShuffledIsMerged(shards, idmaps, maxDegree, v, found, shuffled);
  }

  /** Nothing has been gathered for a node whose pairs come later. */
  lemma NothingYet(shards: seq<Shard>, idmaps: seq<seq<nat>>, pairs: seq<Entry>, t: nat, v: nat, marks: seq<bool>)
    requires ListsOk(shards, idmaps) && t <= |pairs| && MarksAre([], marks)
    requires forall u | 0 <= u < t :: pairs[u].node < v
    ensures Collected(shards, idmaps, pairs, t, v, [], marks)
  {}

  /** The list of node v is done and the next node begins. */
  method NextList(found: seq<nat>, marks: array<bool>, maxDegree: nat, draw: nat -> nat, ghost shards: seq<Shard>,
                  ghost idmaps: seq<seq<nat>>, ghost pairs: seq<Entry>, ghost t: nat, ghost v: nat)
    returns (list: seq<nat>)
    requires ListsOk(shards, idmaps) && Ordered(idmaps, pairs) && t < |pairs| && v < pairs[t].node
    requires t > 0 ==> pairs[t - 1].node == v
    requires Collected(shards, idmaps, pairs, t, v, found, marks[..])
    modifies marks
    ensures Merged(shards, idmaps, maxDegree, v, list)
    ensures Collected(shards, idmaps, pairs, t, pairs[t].node, [], marks[..])
  {
    list := Flush(found, maxDegree, draw, shards, idmaps, pairs, t, v, marks[..]);
    ClearMarks(found, marks);
    forall u | 0 <= u < t ensures pairs[u].node < pairs[t].node { NodesAscend(pairs, u, t - 1); }
    NothingYet(shards, idmaps, pairs, t, pairs[t].node, marks[..]);
  }

  lemma PositionsMove(shards: seq<Shard>, pairs: seq<Entry>, t: nat, pos: seq<nat>, next: nat)
    requires t < |pairs| && Positioned(shards, pairs, t, pos)
    requires var s := pairs[t].shard;
      s < |shards| && Seen(pairs, t, s) < |shards[s].lists|
      && next == 6 + Offset(shards[s].lists, Seen(pairs, t, s) + 1)
    ensures Positioned(shards, pairs, t + 1, pos[pairs[t].shard := next])
  {
    forall s | 0 <= s < |shards|
      ensures Seen(pairs, t + 1, s) == Seen(pairs, t, s) + if pairs[t].shard == s then 1 else 0
    {
      SeenGrows(pairs, t, s);
    }
  }

  /** Reads the record of the t-th pair and appends its neighbours. */
  method Take(files: seq<seq<nat>>, idmaps: seq<seq<nat>>, pairs: seq<Entry>, t: nat, pos: array<nat>,
              marks: array<bool>, found: seq<nat>, ghost shards: seq<Shard>) returns (more: seq<nat>)
    requires Input(files, shards, idmaps, marks.Length) && ListsOk(shards, idmaps)
    requires Ordered(idmaps, pairs) && t < |pairs| && Positioned(shards, pairs, t, pos[..])
    requires Collected(shards, idmaps, pairs, t, pairs[t].node, found, marks[..])
    modifies pos, marks
    ensures Positioned(shards, pairs, t + 1, pos[..])
    ensures Collected(shards, idmaps, pairs, t + 1, pairs[t].node, more, marks[..])
  {
    var shard := pairs[t].shard;
    ghost var i, before := Seen(pairs, t, shard), pos[..];
    RightNode(idmaps, pairs, t);
    assert FileOk(files[shard], shards[shard], idmaps[shard]);
    var list, next := ReadRecord(files[shard], pos[shard], shards[shard].lists, i);
    PositionsMove(shards, pairs, t, before, next);
    pos[shard] := next;
    assert pos[..] == before[shard := next];
    more := Append(list, idmaps[shard], marks, found);
    forall w: nat ensures w in more <==> Gathered(shards, idmaps, pairs, t + 1, pairs[t].node, w) {
      GatheredGrows(shards, idmaps, pairs, t, pairs[t].node, w);
    }
  }

  /** The readers pass the headers; the medoids file lists each shard's medoid under its own name. */
  method ReadHeaders(files: seq<seq<nat>>, idmaps: seq<seq<nat>>, ghost shards: seq<Shard>, ghost n: nat,
                     ghost pairs: seq<Entry>)
    returns (pos: array<nat>, medoids: seq<nat>)
    requires Input(files, shards, idmaps, n)
    ensures fresh(pos) && Positioned(shards, pairs, 0, pos[..])
    ensures |medoids| == 2 + |files| && medoids[0] == |files| && medoids[1] == 1
    ensures forall s | 0 <= s < |files| ::
      shards[s].medoid < |idmaps[s]| && medoids[2 + s] == idmaps[s][shards[s].medoid]
  {
    pos := new nat[|files|];
    medoids := [|files|, 1];
    for s := 0 to |files|
      invariant forall r | 0 <= r < s :: pos[r] == 6
      invariant |medoids| == 2 + s && medoids[0] == |files| && medoids[1] == 1
      invariant forall r | 0 <= r < s ::
        shards[r].medoid < |idmaps[r]| && medoids[2 + r] == idmaps[r][shards[r].medoid]
    {
      assert FileOk(files[s], shards[s], idmaps[s]);
      medoids := medoids + [idmaps[s][files[s][3]]];
      pos[s] := 6;
    }
  }

  /** The output so far, and the size it will have. */
  ghost predicate Emitted(out: seq<nat>, width: nat, medoid: nat, recs: seq<seq<nat>>, size: nat) {
    out == Header(24, width, medoid) + Flatten(recs) && size == 24 + 4 * |Flatten(recs)|
  }

  lemma EmitOne(out: seq<nat>, width: nat, medoid: nat, recs: seq<seq<nat>>, size: nat, list: seq<nat>)
    requires Emitted(out, width, medoid, recs, size)
    ensures Emitted(out + Record(list), width, medoid, recs + [list], size + (4 + 4 * |list|))
  {
    assert (recs + [list])[..|recs|] == recs;
    assert Flatten(recs + [list]) == Flatten(recs) + Record(list);
  }

  /** Writes the finished list of node v and counts its bytes. */
  method WriteOne(out: seq<nat>, maxDegree: nat, ghost medoid: nat, ghost recs: seq<seq<nat>>, size: nat,
                  list: seq<nat>, ghost shards: seq<Shard>, ghost idmaps: seq<seq<nat>>, ghost v: nat)
    returns (out': seq<nat>, ghost recs': seq<seq<nat>>, size': nat)
    requires ListsOk(shards, idmaps) && Merged(shards, idmaps, maxDegree, v, list)
    requires Written(shards, idmaps, maxDegree, v, recs) && Emitted(out, maxDegree, medoid, recs, size)
    ensures Written(shards, idmaps, maxDegree, v + 1, recs') && Emitted(out', maxDegree, medoid, recs', size')
  {
    EmitOne(out, maxDegree, medoid, recs, size, list);
    out', recs', size' := out + Record(list), recs + [list], size + (4 + 4 * |list|);
  }

  /** Writing the size over the first two words. */
  lemma SizePatched(out: seq<nat>, width: nat, medoid: nat, recs: seq<seq<nat>>, size: nat)
    requires Emitted(out, width, medoid, recs, size)
    ensures size == 4 * |out| && |out| >= 6
    ensures Long(size) + out[2..] == Header(size, width, medoid) + Flatten(recs)
    ensures |Long(size) + out[2..]| == |out|
  {
    var header := Header(24, width, medoid);
    assert header[2..] == [width, medoid] + Long(0);
    assert out[2..] == header[2..] + Flatten(recs);
  }

  lemma SameCount(idmaps: seq<seq<nat>>, n: nat, m: nat)
    requires Covers(idmaps, n) && n > 0 && m > 0
    requires forall s, i | 0 <= s < |idmaps| && 0 <= i < |idmaps[s]| :: idmaps[s][i] < m
    requires m == 1 || exists s, i | 0 <= s < |idmaps| && 0 <= i < |idmaps[s]| :: idmaps[s][i] == m - 1
    ensures m == n
  {
    assert Held(idmaps, n - 1);
    var s :| 0 <= s < |idmaps| && n - 1 in idmaps[s];
    var i :| 0 <= i < |idmaps[s]| && idmaps[s][i] == n - 1;
  }

  /** The streaming loop, from readers at their first records to the last record written. */
  method Stream(files: seq<seq<nat>>, idmaps: seq<seq<nat>>, pairs: seq<Entry>, pos: array<nat>, nodes: nat,
                maxDegree: nat, medoid: nat, draw: (nat, nat) -> nat, ghost shards: seq<Shard>)
    returns (out: seq<nat>, size: nat, ghost recs: seq<seq<nat>>)
    requires Input(files, shards, idmaps, nodes) && ListsOk(shards, idmaps)
    requires Ordered(idmaps, pairs) && Positioned(shards, pairs, 0, pos[..])
    modifies pos
    ensures Written(shards, idmaps, maxDegree, nodes, recs)
    ensures Emitted(out, maxDegree, medoid, recs, size)
  {
    size := 24;
    out := Header(size, maxDegree, medoid);
    var marks := new bool[nodes](_ => false);
    var found: seq<nat> := [];
    var cur := 0;
    recs := [];
    NothingYet(shards, idmaps, pairs, 0, 0, marks[..]);
    for t := 0 to |pairs|
      invariant cur == if t == 0 then 0 else pairs[t - 1].node
      invariant Positioned(shards, pairs, t, pos[..])
      invariant Collected(shards, idmaps, pairs, t, cur, found, marks[..])
      invariant Written(shards, idmaps, maxDegree, cur, recs)
      invariant Emitted(out, maxDegree, medoid, recs, size)
    {
      NextNode(idmaps, pairs, nodes, t);
      if cur < pairs[t].node {
        var list := NextList(found, marks, maxDegree, i => draw(cur, i), shards, idmaps, pairs, t, cur);
        out, recs, size := WriteOne(out, maxDegree, medoid, recs, size, list, shards, idmaps, cur);
        cur, found := pairs[t].node, [];
      }
      found := Take(files, idmaps, pairs, t, pos, marks, found, shards);
    }
    LastNode(idmaps, pairs, nodes);
    var list := Flush(found, maxDegree, i => draw(cur, i), shards, idmaps, pairs, |pairs|, cur, marks[..]);
    out, recs, size := WriteOne(out, maxDegree, medoid, recs, size, list, shards, idmaps, cur);
    ClearMarks(found, marks);
  }

  /** merge_shards: the header with the true size, then for every node the duplicate-free union of its neighbours
      over all shards, renamed, in some order and cut to the maximum degree; and the medoids file. */
  method MergeShards(files: seq<seq<nat>>, idmaps: seq<seq<nat>>, maxDegree: nat, draw: (nat, nat) -> nat,
                     ghost shards: seq<Shard>, ghost n: nat)
    returns (out: seq<nat>, medoids: seq<nat>, ghost recs: seq<seq<nat>>)
    requires Input(files, shards, idmaps, n)
    ensures ListsOk(shards, idmaps) && Written(shards, idmaps, maxDegree, n, recs)
    ensures |medoids| == 2 + |files| && medoids[0] == |files| && medoids[1] == 1
    ensures forall s | 0 <= s < |files| ::
      shards[s].medoid < |idmaps[s]| && medoids[2 + s] == idmaps[s][shards[s].medoid]
    ensures out == Header(4 * |out|, maxDegree, medoids[|files| + 1]) + Flatten(recs)
    ensures |out| >= 6 && out[0] + 0x1_0000_0000 * out[1] == 4 * |out| % 0x1_0000_0000_0000_0000
    ensures out[2] == maxDegree && out[3] == medoids[|files| + 1] && out[4] == 0 && out[5] == 0
  {
    InputLists(files, shards, idmaps, n);
    var nodes := CountNodeIds(idmaps);
    SameCount(idmaps, n, nodes);
    var pairs := InverseMap(idmaps);
    var pos: array<nat>;
    pos, medoids := ReadHeaders(files, idmaps, shards, n, pairs);
    var size: nat;
    out, size, recs := Stream(files, idmaps, pairs, pos, nodes, maxDegree, medoids[|files| + 1], draw, shards);
    SizePatched(out, maxDegree, medoids[|files| + 1], recs, size);
    LongMeans(size);
    out := Long(size) + out[2..];
    assert out[..6] == Header(size, maxDegree, medoids[|files| + 1]);
  }
}
