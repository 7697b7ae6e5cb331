/** The dynamic Vamana index: slots, tags and lazy deletion, delete consolidation and in-place
    compaction. One frozen slot, number `max`, is the entry point and is never deleted. */
module VamanaIndex {
  import opened Base
  import opened Ranks
  import opened Slots
  import opened Occlusion
  import opened Consolidation
  import opened Compaction

  type Vector = seq<real>

  /** Lists of slots in use lead to slots in use; lists of empty slots are never followed. */
  ghost predicate EdgesOk(g: Graph, max: nat, empty: set<nat>) {
    && |g| == max + 1
    && EdgesInRange(g)
    && forall i, x | 0 <= i <= max && i !in empty && x in g[i] :: x !in empty
  }

  lemma TakeKeepsEdges(g: Graph, max: nat, empty: set<nat>, l: nat)
    requires EdgesOk(g, max, empty) && l < max
    ensures EdgesOk(g[l := []], max, empty - {l})
  {}

  class Index {
    const max: nat                                // _max_points
    const metric: (Vector, Vector) -> real        // _distance->compare
    var graph: Graph                              // _final_graph
    var data: array<Vector>
    var nd: nat                                   // _nd: live and lazily deleted points
    var empty: set<nat>                           // _empty_slots
    var deleted: set<nat>                         // _delete_set
    var tagToLocation: map<nat, nat>
    var locationToTag: map<nat, nat>
    var lazyDone: bool
    var compacted: bool                           // _data_compacted

    ghost function Live(): set<nat>
      reads this`locationToTag
    {
      locationToTag.Keys
    }

    ghost predicate Valid()
      reads this
    {
      && SlotsOk(max, nd, compacted, lazyDone, tagToLocation, locationToTag, deleted, empty)
      && EdgesOk(graph, max, empty)
      && data.Length == max + 1
    }

    constructor (max: nat, metric: (Vector, Vector) -> real)
      ensures Valid() && nd == 0 && empty == Below(max) && deleted == {} && compacted
      ensures tagToLocation == map[] && fresh(data)
      ensures this.max == max && this.metric == metric
    {
      this.max, this.metric := max, metric;
      graph := seq(max + 1, _ => []);
      data := new Vector[max + 1](_ => []);
      nd, empty, deleted := 0, Below(max), {};
      tagToLocation, locationToTag := map[], map[];
      lazyDone, compacted := false, true;
      EmptyStart(max);
    }

    /** lazy_delete of a registered tag: the tag goes at once, the slot stays occupied. */
    method Retire(tag: nat)
      requires Valid() && tag in tagToLocation
      modifies this`lazyDone, this`deleted, this`tagToLocation, this`locationToTag
      ensures Valid() && lazyDone
      ensures tagToLocation == old(tagToLocation) - {tag}
      ensures deleted == old(deleted) + {old(tagToLocation)[tag]}
    {
      var l := tagToLocation[tag];
      DeleteKeepsSlots(max, nd, compacted, lazyDone, tagToLocation, locationToTag, deleted, empty, tag);
      lazyDone := true;
      deleted, locationToTag, tagToLocation := deleted + {l}, locationToTag - {l}, tagToLocation - {tag};
    }

    /** lazy_delete; false is its error code for an unknown tag. */
    method LazyDelete(tag: nat) returns (found: bool)
      requires Valid()
      modifies this`lazyDone, this`deleted, this`tagToLocation, this`locationToTag
      ensures Valid() && lazyDone
      ensures found <==> tag in old(tagToLocation)
      ensures tagToLocation == old(tagToLocation) - {tag}
      ensures deleted == if found then old(deleted) + {old(tagToLocation)[tag]} else old(deleted)
    {
      found := tag in tagToLocation;
      if found {
        Retire(tag);
      } else {
        lazyDone := true;
        assert tagToLocation == tagToLocation - {tag};
      }
    }

    /** Which slot reserve_location takes: the next one after a compaction, else the one its hash set happens to
        begin with, for which `first` stands. */
    method ChooseSlot(first: nat) returns (l: nat)
      requires Valid() && nd < max
      ensures l in empty && l < max && (compacted ==> l == nd) && (!compacted && first in empty ==> l == first)
    {
      FreeSlotExists(max, nd, compacted, lazyDone, tagToLocation, locationToTag, deleted, empty);
      if compacted {
        l := nd;
      } else if first in empty {
        l := first;
      } else {
        l :| l in empty;
      }
    }

    /** The slot changes hands and the tag is registered. */
    method Occupy(tag: nat, l: nat)
      requires Valid() && tag !in tagToLocation && l in empty && (compacted ==> l == nd)
      modifies this`nd, this`empty, this`deleted, this`tagToLocation, this`locationToTag, this`graph
      ensures Valid() && deleted == old(deleted) - {l}
      ensures empty == old(empty) - {l} && nd == old(nd) + 1
      ensures tagToLocation == old(tagToLocation)[tag := l]
    {
      ReserveKeepsSlots(max, nd, compacted, lazyDone, tagToLocation, locationToTag, deleted, empty, tag, l);
      TakeKeepsEdges(graph, max, empty, l);
      Install(nd + 1, empty - {l}, deleted - {l}, tagToLocation[tag := l], locationToTag[l := tag], graph[l := []]);
    }

    /** Assigns the bookkeeping fields. */
    method Install(nd': nat, empty': set<nat>, deleted': set<nat>, t2l: map<nat, nat>, l2t: map<nat, nat>, g: Graph)
      requires SlotsOk(max, nd', compacted, lazyDone, t2l, l2t, deleted', empty')
      requires EdgesOk(g, max, empty') && data.Length == max + 1
      modifies this`nd, this`empty, this`deleted, this`tagToLocation, this`locationToTag, this`graph
      ensures nd == nd' && empty == empty' && deleted == deleted' && tagToLocation == t2l && locationToTag == l2t
      ensures graph == g && Valid()
    {
      nd, empty, deleted, tagToLocation, locationToTag, graph := nd', empty', deleted', t2l, l2t, g;
    }

    /** reserve_location and the start of insert_point, for a tag that is not registered. The C++ returns -1
        when no slot is left. */
    method Reserve(tag: nat, v: Vector, first: nat) returns (location: Option<nat>)
      requires Valid() && tag !in tagToLocation
      modifies this`nd, this`empty, this`deleted, this`tagToLocation, this`locationToTag, this`graph, data
      ensures Valid()
      ensures location.None? <==> old(nd) >= max
      ensures location.None? ==> unchanged(this) && unchanged(data)
      ensures location.Some? ==>
        && location.value in old(empty) && empty == old(empty) - {location.value} && nd == old(nd) + 1
        && deleted == old(deleted) - {location.value}
        && tagToLocation == old(tagToLocation)[tag := location.value]
        && location.value < data.Length && data[..] == old(data[..])[location.value := v]
        && (compacted ==> location.value == old(nd))
        && (!compacted && first in old(empty) ==> location.value == first)
    {
      if nd >= max {
        return None;
      }
      var l := ChooseSlot(first);
      Occupy(tag, l);
      data[l] := v;
      location := Some(l);
    }

    /** The build parameters as the pruning sees them; data does not change while lists are repaired. */
    function ParamsOf(d: seq<Vector>, tie: (nat, nat) -> int, alpha: real, range: nat, maxc: nat): (p: Params)
      ensures forall i, j | 0 <= i < |d| && 0 <= j < |d| :: p.dist(i, j) == metric(d[i], d[j])
      ensures p.alpha == alpha && p.range == range && p.maxc == maxc
    {
      Params((i: nat, j: nat) => if i < |d| && j < |d| then metric(d[i], d[j]) else 0.0, tie, alpha, range, maxc)
    }

    /** The candidates for slot i: its neighbours that stay and those of its deleted neighbours. */
    method GatherCandidates(i: nat) returns (repair: bool, candidates: set<nat>)
      requires i < |graph| && EdgesInRange(graph)
      ensures repair <==> exists d :: d in graph[i] && d in deleted
      ensures forall x :: x in candidates <==>
        x !in deleted && (x in graph[i] || exists d :: d in graph[i] && d in deleted && x in graph[d])
    {
      repair, candidates := false, {};
      var list := graph[i];
      for k := 0 to |list|
        invariant repair == NamesDeleted(list[..k], deleted)
        invariant forall j :: j in candidates <==>
          && j !in deleted
          && (j in list[..k] || exists d :: d in list[..k] && d < |graph| && d in deleted && j in graph[d])
      {
        var ngh := list[k];
        assert list[..k + 1] == list[..k] + [ngh];
        assert ngh in list;
        if ngh in deleted {
          repair := true;
          candidates := candidates + (set j | j in graph[ngh] && j !in deleted);
        } else {
          candidates := candidates + {ngh};
        }
      }
      assert list[..|list|] == list;
    }

    /** The body of the loop over slots. */
    method RepairSlot(p: Params, i: nat)
      requires i < |graph| && EdgesInRange(graph)
      modifies this`graph
      ensures graph == old(graph)[i := NewList(p, old(graph), deleted, empty, i)]
    {
      if i in deleted || i in empty {
        assert graph == graph[i := graph[i]];
        return;
      }
      var repair, candidates := GatherCandidates(i);
      TheCandidates(graph, deleted, i, candidates);
      if !repair {
        assert graph == graph[i := graph[i]];
        return;
      }
      var ids := List(p, i, candidates);
      var c := PruneProblem(p, i, ids);
      var result := OccludeList(c);
      graph := graph[i := Survivors(result, i, deleted)];
    }

    /** The parallel loop over slots, in the order in which it happens to process them. */
    method RepairAll(p: Params, order: seq<nat>)
      requires EdgesInRange(graph)
      requires NoRepeats(order) && forall i: nat :: i in order <==> i < |graph|
      modifies this`graph
      ensures graph == Consolidated(p, old(graph), deleted, empty)
    {
      ghost var g0 := graph;
      for k := 0 to |order|
        invariant Processed(p, g0, graph, deleted, empty, order[..k])
      {
        assert order[k] in order;
        ProcessOne(p, g0, graph, deleted, empty, order, k);
        RepairSlot(p, order[k]);
      }
      assert order[..|order|] == order;
      assert graph == Consolidated(p, g0, deleted, empty);
    }

    /** The deleted slots become empty. */
    method FreeDeletedSlots()
      requires SlotsOk(max, nd, compacted, lazyDone, tagToLocation, locationToTag, deleted, empty) && |deleted| <= nd
      requires EdgesOk(graph, max, empty + deleted) && data.Length == max + 1
      modifies this`empty, this`nd, this`compacted
      ensures empty == old(empty) + deleted && nd == old(nd) - |deleted| && (compacted <==> deleted == {})
      ensures Valid() <==> Apart(old(empty), deleted) && (deleted == {} ==> NoHole(empty, nd, max))
    {
      FreeSlots(max, nd, Live(), deleted, empty);
      assert deleted == {} ==> empty + deleted == empty;
      empty := empty + deleted;
      nd := nd - |deleted|;
      compacted := |deleted| == 0;
    }

    /** consolidate_deletes. The resulting graph does not depend on `order`; deleted is not cleared. The invariant
        holds afterwards if and only if none of the deleted slots had been freed before and, when nothing was
        deleted, there is no hole: the flag says compacted in that case. The bound on |deleted| is its own assertion. */
    method ConsolidateDeletes(tie: (nat, nat) -> int, alpha: real, range: nat, maxc: nat, order: seq<nat>)
      returns (live: nat)
      requires Valid() && |deleted| <= nd
      requires NoRepeats(order) && forall i: nat :: i in order <==> i <= max
      modifies this`graph, this`empty, this`nd, this`compacted
      ensures graph == Consolidated(ParamsOf(data[..], tie, alpha, range, maxc), old(graph), deleted, old(empty))
      ensures empty == old(empty) + deleted && nd == old(nd) - |deleted| && live == nd
      ensures compacted <==> deleted == {}
      ensures Valid() <==> Apart(old(empty), deleted) && (deleted == {} ==> NoHole(empty, nd, max))
      ensures EdgesOk(graph, max, empty) && !SomeBroken(graph, Live(), max)
      ensures Live() <= Below(max) && (Apart(old(empty), deleted) <==> nd == |Live()|)
      ensures deleted == {} ==> graph == old(graph)
    {
      FreeSlots(max, nd, Live(), deleted, empty);
      FirstPass(ParamsOf(data[..], tie, alpha, range, maxc), graph, max, nd, Live(), deleted, empty);
      RepairAll(ParamsOf(data[..], tie, alpha, range, maxc), order);
      FreeDeletedSlots();
      live := nd;
    }

    /** new_location: the ranks of the live slots, the frozen slot for all others. */
    method NewLocations() returns (loc: seq<nat>)
      ensures |loc| == max + 1
      ensures forall x: nat | x <= max :: loc[x] == if x in locationToTag then Rank(Live(), x) else max
    {
      loc := seq(max + 1, _ => max);
      var counter := 0;
      for x := 0 to max + 1
        invariant |loc| == max + 1 && counter == Rank(Live(), x)
        invariant forall y: nat | y <= max :: loc[y] == if y in locationToTag && y < x then Rank(Live(), y) else max
      {
        if x in locationToTag {
          loc := loc[x := counter];
          counter := counter + 1;
        }
      }
    }

    /** Renames one list, or throws on an entry whose new location is greater. */
    method RenameList(list: seq<nat>, loc: seq<nat>) returns (thrown: bool, list': seq<nat>)
      requires forall k | 0 <= k < |list| :: list[k] < |loc|
      ensures thrown <==> exists k :: 0 <= k < |list| && loc[list[k]] > list[k]
      ensures !thrown ==> |list'| == |list| && forall k | 0 <= k < |list| :: list'[k] == loc[list[k]]
    {
      list' := list;
      for k := 0 to |list|
        invariant |list'| == |list|
        invariant forall j | 0 <= j < k :: list'[j] == loc[list[j]] && loc[list[j]] <= list[j]
        invariant forall j | k <= j < |list| :: list'[j] == list[j]
      {
        if loc[list'[k]] > list'[k] {
          return true, list';
        }
        list' := list'[k := loc[list'[k]]];
      }
      thrown := false;
    }

    /** Moves list and vector of a live slot to their new place. */
    method MoveSlot(at: nat, to: nat)
      requires |graph| == max + 1 == data.Length && to <= at <= max
      modifies this`graph, data
      ensures |graph| == max + 1
      ensures graph == if to == at then old(graph) else old(graph)[to := old(graph)[at]][at := old(graph)[to]]
      ensures data[..] == old(data[..])[to := old(data[at])]
    {
      if to != at {
        graph := graph[to := graph[at]][at := graph[to]];
        data[to] := data[at];
      }
    }

    ghost predicate IsNewLocation(loc: seq<nat>)
      reads this`locationToTag
    {
      |loc| == max + 1 && forall x: nat | x <= max :: loc[x] == if x in locationToTag then Rank(Live(), x) else max
    }

    lemma RenamingThrows(g: Graph, l: nat, loc: seq<nat>)
      requires |g| == max + 1 && EdgesInRange(g) && l <= max && IsNewLocation(loc) && Live() <= Below(max)
      ensures Dangling(g, Live(), max, l) <==> exists k :: 0 <= k < |g[l]| && g[l][k] <= max && loc[g[l][k]] > g[l][k]
    {
      forall k | 0 <= k < |g[l]|
        ensures g[l][k] <= max && (loc[g[l][k]] > g[l][k] <==> g[l][k] !in locationToTag && g[l][k] != max)
      {
        assert g[l][k] in g[l];
      }
      if Dangling(g, Live(), max, l) {
        var x :| x in g[l] && x !in Live() && x != max;
        var k :| 0 <= k < |g[l]| && g[l][k] == x;
        assert loc[g[l][k]] > g[l][k];
      }
    }

    /** The list of a live or frozen slot is renamed where it is, unless that throws. */
    method RenameSlot(at: nat, loc: seq<nat>, ghost g0: Graph) returns (thrown: bool)
      requires at <= max && |g0| == |graph| == max + 1 && EdgesInRange(g0) && graph[at] == g0[at]
      requires IsNewLocation(loc) && Live() <= Below(max) && (at in Live() || at == max)
      modifies this`graph
      ensures thrown <==> Broken(g0, Live(), max, at)
      ensures graph == if thrown then old(graph) else old(graph)[at := Renamed(Live(), max, g0[at])]
    {
      assert forall k | 0 <= k < |g0[at]| :: g0[at][k] in g0[at];
      RenamingThrows(g0, at, loc);
      var list: seq<nat>;
      thrown, list := RenameList(graph[at], loc);
      if !thrown {
        assert list == Renamed(Live(), max, g0[at]);
        graph := graph[at := list];
      }
    }

    /** A live or frozen slot: renames its list, or throws, and moves it. */
    method VisitLive(at: nat, loc: seq<nat>, ghost g0: Graph, ghost d0: seq<Vector>) returns (thrown: bool)
      requires at <= max && |g0| == |d0| == max + 1 && EdgesInRange(g0) && IsNewLocation(loc) && Live() <= Below(max)
      requires |graph| == max + 1 == data.Length && Moved(g0, d0, graph, data[..], Live(), max, at)
      requires at in Live() || at == max
      modifies this`graph, data
      ensures |graph| == max + 1
      ensures thrown <==> Broken(g0, Live(), max, at)
      ensures !thrown ==> Moved(g0, d0, graph, data[..], Live(), max, at + 1)
    {
      ghost var g1, d1 := graph, data[..];
      thrown := RenameSlot(at, loc, g0);
      if thrown {
        return;
      }
      if at == max {
        RenameFrozen(g0, d0, g1, d1, Live(), max);
        MoveSlot(at, loc[at]);
      } else {
        MoveSlot(at, loc[at]);
        MoveLive(g0, d0, g1, d1, graph, data[..], Live(), max, at);
      }
    }

    /** One turn of the moving loop: throws, or moves, or clears. */
    method Visit(at: nat, loc: seq<nat>, ghost g0: Graph, ghost d0: seq<Vector>) returns (thrown: bool)
      requires at <= max && |g0| == |d0| == max + 1 && EdgesInRange(g0) && IsNewLocation(loc) && Live() <= Below(max)
      requires |graph| == max + 1 == data.Length && Moved(g0, d0, graph, data[..], Live(), max, at)
      requires NoneBroken(g0, Live(), max, at)
      modifies this`graph, data
      ensures |graph| == max + 1
      ensures thrown ==> SomeBroken(g0, Live(), max)
      ensures !thrown ==> NoneBroken(g0, Live(), max, at + 1)
      ensures !thrown ==> Moved(g0, d0, graph, data[..], Live(), max, at + 1)
    {
      if loc[at] < max || at == max {
        thrown := VisitLive(at, loc, g0, d0);
      } else {
        DropDead(g0, d0, graph, data[..], Live(), max, at);
        graph := graph[at := []];
        thrown := false;
      }
    }

    /** The new location of every tag. */
    method NewTagMap(loc: seq<nat>) returns (renumbered: map<nat, nat>)
      requires Inverse(tagToLocation, locationToTag) && IsNewLocation(loc) && Live() <= Below(max)
      ensures renumbered == map t | t in tagToLocation :: Rank(Live(), tagToLocation[t])
    {
      renumbered := map[];
      var rest := locationToTag.Keys;
      while rest != {}
        invariant rest <= locationToTag.Keys
        invariant forall t :: t in renumbered <==> t in tagToLocation && tagToLocation[t] !in rest
        invariant forall t | t in renumbered :: renumbered[t] == Rank(Live(), tagToLocation[t])
      {
        var l :| l in rest;
        assert l in Below(max);
        renumbered := renumbered[locationToTag[l] := loc[l]];
        rest := rest - {l};
      }
    }

    /** Rebuilds both tag maps from locationToTag. */
    method RenumberTags(loc: seq<nat>)
      requires Inverse(tagToLocation, locationToTag) && IsNewLocation(loc) && Live() <= Below(max)
      modifies this`tagToLocation, this`locationToTag
      ensures tagToLocation == map t | t in old(tagToLocation) :: Rank(old(Live()), old(tagToLocation)[t])
      ensures Inverse(tagToLocation, locationToTag) && Live() == Below(|old(Live())|)
    {
      ghost var live, t2l := Live(), tagToLocation;
      var renumbered := NewTagMap(loc);
      RenumberedInverse(t2l, locationToTag, renumbered);
      tagToLocation := renumbered;
      locationToTag := map t | t in renumbered :: renumbered[t] := t;
      InvertedKeys(t2l, live, renumbered, locationToTag);
      RankSetIsPrefix(live, max);
    }

    /** The moving loop over all slots and the frozen one. */
    method MoveSlots(loc: seq<nat>, ghost g0: Graph, ghost d0: seq<Vector>) returns (thrown: bool)
      requires |g0| == |d0| == max + 1 && EdgesInRange(g0) && IsNewLocation(loc) && Live() <= Below(max)
      requires |graph| == max + 1 == data.Length && Moved(g0, d0, graph, data[..], Live(), max, 0)
      modifies this`graph, data
      ensures |graph| == max + 1
      ensures thrown <==> SomeBroken(g0, Live(), max)
      ensures !thrown ==> Moved(g0, d0, graph, data[..], Live(), max, max + 1)
    {
      thrown := false;
      var at := 0;
      while at <= max && !thrown
        invariant at <= max + 1 && |graph| == max + 1
        invariant !thrown ==> Moved(g0, d0, graph, data[..], Live(), max, at)
        invariant !thrown ==> NoneBroken(g0, Live(), max, at)
        invariant thrown ==> SomeBroken(g0, Live(), max)
        decreases max + 1 - at, !thrown
      {
        thrown := Visit(at, loc, g0, d0);
        if !thrown {
          at := at + 1;
        }
      }
      NoneIsNotSome(g0, Live(), max);
    }

    /** Moves everything, from the lists and vectors there are. */
    method MoveAll(loc: seq<nat>) returns (thrown: bool)
      requires |graph| == max + 1 == data.Length && EdgesInRange(graph) && IsNewLocation(loc) && Live() <= Below(max)
      modifies this`graph, data
      ensures |graph| == max + 1
      ensures thrown <==> SomeBroken(old(graph), Live(), max)
      ensures !thrown ==> GraphCompacted(old(graph), graph, Live(), max, max)
      ensures !thrown ==> DataCompacted(old(data[..]), data[..], Live(), max)
    {
      ghost var g0, d0 := graph, data[..];
      thrown := MoveSlots(loc, g0, d0);
      if !thrown {
        MovedAll(g0, d0, graph, data[..], Live(), max);
      }
    }

    /** Clears the lists from _nd on. */
    method ClearTail(ghost g0: Graph, ghost live: set<nat>)
      requires |g0| == |graph| == max + 1 && live <= Below(max)
      requires GraphCompacted(g0, graph, live, max, max)
      modifies this`graph
      ensures |graph| == max + 1 && GraphCompacted(g0, graph, live, max, nd)
    {
      ghost var g := graph;
      var k := nd;
      while k < max
        invariant |graph| == max + 1
        invariant forall i | 0 <= i <= max :: graph[i] == if nd <= i < k && i < max then [] else g[i]
      {
        graph := graph[k := []];
        k := k + 1;
      }
      ClearedIsCompacted(g0, g, graph, live, max, nd);
    }

    /** Clears the lists from _nd on and resets the sets and flags. */
    method FinishCompaction(ghost g0: Graph, ghost live: set<nat>)
      requires |g0| == |graph| == max + 1 && live <= Below(max)
      requires GraphCompacted(g0, graph, live, max, max)
      modifies this`graph, this`deleted, this`empty, this`lazyDone, this`compacted
      ensures |graph| == max + 1 && GraphCompacted(g0, graph, live, max, nd)
      ensures deleted == {} && empty == Below(max) - Below(nd) && compacted && !lazyDone
    {
      ClearTail(g0, live);
      deleted, empty := {}, Below(max) - Below(nd);
      lazyDone, compacted := false, true;
    }

    /** What compact_data does once the lists and vectors have been moved. */
    method Rebuild(loc: seq<nat>, ghost g0: Graph)
      requires |g0| == |graph| == max + 1 && IsNewLocation(loc)
      requires Inverse(tagToLocation, locationToTag) && Live() <= Below(max)
      requires GraphCompacted(g0, graph, Live(), max, max)
      modifies this`graph, this`deleted, this`empty, this`lazyDone, this`compacted, this`tagToLocation,
               this`locationToTag
      ensures |graph| == max + 1 && GraphCompacted(g0, graph, old(Live()), max, nd)
      ensures Renumbered(old(tagToLocation), old(Live()))
      ensures deleted == {} && empty == Below(max) - Below(nd) && compacted && !lazyDone
    {
      ghost var live, g := Live(), graph;
      RenumberTags(loc);
      assert graph == g;
      FinishCompaction(g0, live);
    }

    /** Every tag's location is the rank of its old one, and the two maps are inverse. */
    ghost predicate Renumbered(t2l: map<nat, nat>, live: set<nat>)
      reads this
    {
      && tagToLocation == (map t | t in t2l :: Rank(live, t2l[t]))
      && Inverse(tagToLocation, locationToTag) && Live() == Below(|live|)
    }

    /** The index has been compacted, from the graph, vectors and tags it had before. */
    ghost predicate CompactedFrom(g: Graph, d: seq<Vector>, live: set<nat>, t2l: map<nat, nat>)
      reads this, data
      requires |g| == |graph| == |d| == data.Length == max + 1 && live <= Below(max)
    {
      && GraphCompacted(g, graph, live, max, nd) && DataCompacted(d, data[..], live, max)
      && Renumbered(t2l, live)
      && deleted == {} && empty == Below(max) - Below(nd) && compacted && !lazyDone
    }

    /** compact_data past its guards. */
    method Compact() returns (thrown: bool)
      requires |graph| == max + 1 == data.Length && EdgesInRange(graph)
      requires Inverse(tagToLocation, locationToTag) && Live() <= Below(max)
      modifies this`graph, this`deleted, this`empty, this`lazyDone, this`compacted, this`tagToLocation,
               this`locationToTag, data
      ensures |graph| == max + 1
      ensures thrown <==> SomeBroken(old(graph), old(Live()), max)
      ensures !thrown ==> CompactedFrom(old(graph), old(data[..]), old(Live()), old(tagToLocation))
    {
      ghost var g0 := graph;
      var loc := NewLocations();
      thrown := MoveAll(loc);
      if !thrown {
        Rebuild(loc, g0);
      }
    }

    /** compact_data. It throws exactly when a slot that stays still has an edge to one that does not; else
        live slots have closed ranks in place, and every tag has kept its vector and, up to renaming, its
        neighbours, as far as the new locations lie below _nd. The invariant holds afterwards if and only if _nd
        counts the live points, so not if lazily deleted points were still waiting to be consolidated. */
    method CompactData() returns (thrown: bool)
      requires |graph| == max + 1 == data.Length && EdgesInRange(graph)
      requires Inverse(tagToLocation, locationToTag) && Live() <= Below(max)
      modifies this`graph, this`deleted, this`empty, this`lazyDone, this`compacted, this`tagToLocation,
               this`locationToTag, data
      ensures |graph| == max + 1
      ensures !old(lazyDone) || old(compacted) ==> !thrown && unchanged(this) && unchanged(data)
      ensures old(lazyDone) && !old(compacted) ==> (thrown <==> SomeBroken(old(graph), old(Live()), max))
      ensures old(lazyDone) && !old(compacted) && !thrown ==>
        && CompactedFrom(old(graph), old(data[..]), old(Live()), old(tagToLocation))
        && (Valid() <==> nd == |old(Live())|)
    {
      if !lazyDone || compacted {
        return false;
      }
      ghost var g0, live := graph, Live();
      thrown := Compact();
      if !thrown {
        ValidIffCounted(g0, graph, max, nd, live, tagToLocation, locationToTag);
      }
    }

    /** consolidate: both passes. Nothing is thrown, and no deleted slot is left. The invariant holds again if and
        only if it was not disturbed by consolidate_deletes alone before: no deleted slot had been freed already,
        and, when nothing was deleted, there is no hole. An index that was compacted before has neither. */
    method Consolidate(tie: (nat, nat) -> int, alpha: real, range: nat, maxc: nat, order: seq<nat>)
      returns (thrown: bool)
      requires Valid() && |deleted| <= nd
      requires NoRepeats(order) && forall i: nat :: i in order <==> i <= max
      modifies this`graph, this`deleted, this`empty, this`nd, this`lazyDone, this`compacted, this`tagToLocation,
               this`locationToTag, data
      ensures !thrown && compacted && deleted == {} && nd == old(nd) - |old(deleted)|
      ensures Valid() <==> Apart(old(empty), old(deleted)) && (old(deleted) == {} ==> NoHole(old(empty), old(nd), max))
      ensures old(compacted) ==> Valid()
      ensures old(deleted) == {} ==>
        graph == old(graph) && data[..] == old(data[..]) && tagToLocation == old(tagToLocation)
      ensures old(deleted) != {} ==>
        && |graph| == max + 1 == data.Length
        && CompactedFrom(
             Consolidated(ParamsOf(old(data[..]), tie, alpha, range, maxc), old(graph), old(deleted), old(empty)),
             old(data[..]), old(Live()), old(tagToLocation))
    {
      ghost var vectors := data[..];
      var n := ConsolidateDeletes(tie, alpha, range, maxc, order);
      assert data[..] == vectors;
      thrown := CompactData();
    }
  }

  function SlotsInOrder(n: nat): (r: seq<nat>)
    ensures |r| == n && forall i | 0 <= i < n :: r[i] == i
    ensures NoRepeats(r) && forall i: nat :: i in r <==> i < n
  {
    if n == 0 then [] else SlotsInOrder(n - 1) + [n - 1]
  }

  /** Three slots; the point in slot 0 has been deleted lazily. */
  method DeletedSlot(metric: (Vector, Vector) -> real) returns (index: Index)
    ensures fresh(index) && fresh(index.data) && index.Valid() && index.max == 3 && index.tagToLocation == map[]
    ensures index.nd == 1 && index.empty == {1, 2} && index.deleted == {0}
  {
    index := new Index(3, metric);
    var first := index.Reserve(10, [], 0);
    assert index.tagToLocation == map[10 := 0];
    var found := index.LazyDelete(10);
  }

  /** The deleted slot is freed by consolidate_deletes alone. */
  method FreedSlot(metric: (Vector, Vector) -> real) returns (index: Index)
    ensures fresh(index) && fresh(index.data) && index.Valid() && index.max == 3 && index.tagToLocation == map[]
    ensures index.nd == 0 && index.empty == {0, 1, 2} && index.deleted == {0} && !index.compacted
  {
    index := DeletedSlot(metric);
    var live := index.ConsolidateDeletes((i, j) => 0, 1.2, 8, 8, SlotsInOrder(index.max + 1));
  }

  /** Slots 2 and 0 are taken, in this order. */
  method RefilledSlots(metric: (Vector, Vector) -> real) returns (index: Index)
    ensures fresh(index) && fresh(index.data) && index.Valid() && index.max == 3 && 2 in index.Live()
    ensures index.nd == 2 && index.empty == {1} && index.deleted == {}
  {
    index := FreedSlot(metric);
    var second := index.Reserve(11, [], 2);
    var third := index.Reserve(12, [], 0);
    assert index.tagToLocation[11] == 2;
  }

  /** A run of consolidate_deletes without compact_data after which the index counts as compacted although slot 1
      is a hole: the next reservation, slot _nd, would take the slot of a live point. */
  method HoleTakenForCompacted(metric: (Vector, Vector) -> real) returns (index: Index)
    ensures index.compacted && index.nd < index.max && index.nd in index.Live() && !index.Valid()
  {
    index := RefilledSlots(metric);
    assert 1 in index.empty;
    var live := index.ConsolidateDeletes((i, j) => 0, 1.2, 8, 8, SlotsInOrder(index.max + 1));
  }

  /** What consolidate_deletes leaves for compact_data. */
  lemma FirstPass(p: Params, g: Graph, max: nat, nd: nat, live: set<nat>, deleted: set<nat>, empty: set<nat>)
    requires EdgesOk(g, max, empty) && Partition(max, live, deleted, empty)
    ensures live <= Below(max)
    ensures EdgesOk(Consolidated(p, g, deleted, empty), max, empty + deleted)
    ensures !SomeBroken(Consolidated(p, g, deleted, empty), live, max)
    ensures deleted == {} ==> Consolidated(p, g, deleted, empty) == g && empty + deleted == empty
  {
    ConsolidatedInRange(p, g, deleted, empty);
    RepairedEdges(p, g, max, live, deleted, empty);
    NothingBroken(p, g, max, live, deleted, empty);
    if deleted == {} { NothingToRepair(p, g, empty); }
  }

  lemma ConsolidatedInRange(p: Params, g: Graph, deleted: set<nat>, empty: set<nat>)
    requires EdgesInRange(g)
    ensures EdgesInRange(Consolidated(p, g, deleted, empty))
  {
    forall i: nat | i < |g| ensures forall x | x in Consolidated(p, g, deleted, empty)[i] :: x < |g| {
      NewListInRange(p, g, deleted, empty, i);
    }
  }

  lemma NothingToRepair(p: Params, g: Graph, empty: set<nat>)
    requires EdgesInRange(g)
    ensures Consolidated(p, g, {}, empty) == g
  {}

  /** After the repair the lists that stay name only slots that stay. */
  lemma RepairedEdges(p: Params, g: Graph, max: nat, live: set<nat>, deleted: set<nat>, empty: set<nat>)
    requires EdgesOk(g, max, empty) && Partition(max, live, deleted, empty)
    ensures var r := Consolidated(p, g, deleted, empty);
      forall l: nat, x | l <= max && l !in empty && l !in deleted && x in r[l] :: x !in empty && x !in deleted
  {
    var r := Consolidated(p, g, deleted, empty);
    forall l: nat, x | l <= max && l !in empty && l !in deleted && x in r[l] ensures x !in empty && x !in deleted {
      ConsolidationIsSound(p, g, deleted, empty, l);
      if x !in g[l] {
        var d :| d in g[l] && d in deleted && x in g[d];
        assert d !in empty;
      }
    }
  }

  lemma NothingBroken(p: Params, g: Graph, max: nat, live: set<nat>, deleted: set<nat>, empty: set<nat>)
    requires EdgesOk(g, max, empty) && Partition(max, live, deleted, empty)
    ensures !SomeBroken(Consolidated(p, g, deleted, empty), live, max)
  {
    var r := Consolidated(p, g, deleted, empty);
    RepairedEdges(p, g, max, live, deleted, empty);
    ConsolidatedInRange(p, g, deleted, empty);
    forall l: nat | l <= max ensures !Broken(r, live, max, l) {
      if l in live || l == max {
        assert l !in empty && l !in deleted;
        forall x | x in r[l] ensures x in live || x == max { assert x <= max; }
      }
    }
  }

  lemma ClearedIsCompacted(g0: Graph, g: Graph, g': Graph, live: set<nat>, max: nat, nd: nat)
    requires |g0| == |g| == |g'| == max + 1 && live <= Below(max) && GraphCompacted(g0, g, live, max, max)
    requires forall i | 0 <= i <= max :: g'[i] == if nd <= i < max then [] else g[i]
    ensures GraphCompacted(g0, g', live, max, nd)
  {
    forall l | l in live && Rank(live, l) < nd ensures g'[Rank(live, l)] == Renamed(live, max, g0[l]) {
      assert l in Below(max);
    }
  }

  /** With the right count, the compacted index satisfies the invariant, with the first |live| slots in use. */
  lemma CompactedIsValid(g: Graph, g': Graph, max: nat, live: set<nat>, t2l: map<nat, nat>, l2t: map<nat, nat>)
    requires |g| == |g'| == max + 1 && live <= Below(max) && GraphCompacted(g, g', live, max, |live|)
    requires EdgesInRange(g) && !SomeBroken(g, live, max) && Inverse(t2l, l2t) && l2t.Keys == Below(|live|)
    ensures SlotsOk(max, |live|, true, false, t2l, l2t, {}, Below(max) - Below(|live|))
    ensures EdgesOk(g', max, Below(max) - Below(|live|))
  {
    RankTotal(live, max);
    forall k, x | 0 <= k <= max && x in g'[k] ensures k < |live| || k == max ensures x < |live| || x == max {
      var l: nat := max;
      if k < |live| {
        l := RankOnto(live, max, k);
      }
      var j :| 0 <= j < |g'[k]| && g'[k][j] == x;
      assert g[l][j] in g[l];
      assert !Broken(g, live, max, l);
      if g[l][j] in live {
        RankBelow(live, max, g[l][j]);
      }
    }
  }

  /** And with a wrong one it does not. */
  lemma ValidIffCounted(g: Graph, g': Graph, max: nat, nd: nat, live: set<nat>, t2l: map<nat, nat>, l2t: map<nat, nat>)
    requires |g| == |g'| == max + 1 && live <= Below(max) && GraphCompacted(g, g', live, max, nd)
    requires EdgesInRange(g) && !SomeBroken(g, live, max) && Inverse(t2l, l2t) && l2t.Keys == Below(|live|)
    ensures var empty := Below(max) - Below(nd);
      SlotsOk(max, nd, true, false, t2l, l2t, {}, empty) && EdgesOk(g', max, empty) <==> nd == |live|
  {
    if nd == |live| {
      CompactedIsValid(g, g', max, live, t2l, l2t);
    } else if SlotsOk(max, nd, true, false, t2l, l2t, {}, Below(max) - Below(nd)) {
      CountFollows(max, nd, l2t.Keys, Below(max) - Below(nd));
    }
  }

  /** After a compaction, every tag has its old vector, and its list leads to the same tags, in the same order,
      and to the frozen slot where it did before. */
  lemma TagsKeepVectorsAndNeighbours(g: Graph, d: seq<Vector>, g': Graph, d': seq<Vector>, max: nat,
                                     t2l: map<nat, nat>, l2t: map<nat, nat>, t2l': map<nat, nat>, t: nat, k: nat)
    requires |g| == |g'| == |d| == |d'| == max + 1 && l2t.Keys <= Below(max) && Inverse(t2l, l2t)
    requires GraphCompacted(g, g', l2t.Keys, max, |l2t.Keys|) && DataCompacted(d, d', l2t.Keys, max)
    requires !SomeBroken(g, l2t.Keys, max)
    requires t2l' == map u | u in t2l :: Rank(l2t.Keys, t2l[u])
    requires t in t2l && t2l[t] <= max && k < |g[t2l[t]]|
    ensures t2l'[t] < max && d'[t2l'[t]] == d[t2l[t]] && |g'[t2l'[t]]| == |g[t2l[t]]|
    ensures var x, y := g[t2l[t]][k], g'[t2l'[t]][k];
      if x in l2t then l2t[x] in t2l' && y == t2l'[l2t[x]] else x == max && y == max
  {
    var l := t2l[t];
    assert l in Below(max);
    RankMonotone(l2t.Keys, l, max);
    RankBelow(l2t.Keys, max, l);
    assert g'[t2l'[t]] == Renamed(l2t.Keys, max, g[l]);
    assert !Broken(g, l2t.Keys, max, l);
    assert g[l][k] in g[l];
  }

  lemma RenumberedInverse(t2l: map<nat, nat>, l2t: map<nat, nat>, renumbered: map<nat, nat>)
    requires Inverse(t2l, l2t)
    requires renumbered == map t | t in t2l :: Rank(l2t.Keys, t2l[t])
    ensures forall t, u | t in renumbered && u in renumbered && renumbered[t] == renumbered[u] :: t == u
  {
    forall t, u | t in renumbered && u in renumbered && renumbered[t] == renumbered[u] ensures t == u {
      RankOrder(l2t.Keys, t2l[t], t2l[u]);
      RankOrder(l2t.Keys, t2l[u], t2l[t]);
    }
  }

  lemma InvertedKeys(t2l: map<nat, nat>, live: set<nat>, renumbered: map<nat, nat>, l2t: map<nat, nat>)
    requires renumbered == map t | t in t2l :: Rank(live, t2l[t])
    requires forall l :: l in live <==> exists t :: t in t2l && t2l[t] == l
    requires forall t | t in renumbered :: renumbered[t] in l2t && l2t[renumbered[t]] == t
    requires forall j | j in l2t :: l2t[j] in renumbered && renumbered[l2t[j]] == j
    ensures l2t.Keys == RankSet(live)
  {
    forall j | j in l2t ensures j in RankSet(live) {
      assert t2l[l2t[j]] in live;
    }
    forall j | j in RankSet(live) ensures j in l2t {
      var l :| l in live && Rank(live, l) == j;
      var t :| t in t2l && t2l[t] == l;
      assert renumbered[t] == j;
    }
  }

  /** After the slots in `done` have been processed. */
  ghost predicate Processed(p: Params, g0: Graph, g: Graph, deleted: set<nat>, empty: set<nat>, done: seq<nat>) {
    && |g| == |g0| && EdgesInRange(g0)
    && forall i: nat | i < |g| :: g[i] == if i in done then NewList(p, g0, deleted, empty, i) else g0[i]
  }

  lemma ProcessOne(p: Params, g0: Graph, g: Graph, deleted: set<nat>, empty: set<nat>, order: seq<nat>, k: nat)
    requires k < |order| && NoRepeats(order) && order[k] < |g0|
    requires Processed(p, g0, g, deleted, empty, order[..k])
    ensures EdgesInRange(g)
    ensures Processed(p, g0, g[order[k] := NewList(p, g, deleted, empty, order[k])], deleted, empty, order[..k + 1])
  {
    var i := order[k];
    assert order[..k + 1] == order[..k] + [i];
    assert i !in order[..k];
    forall j: nat | j < |g| ensures forall x | x in g[j] :: x < |g| {
      NewListInRange(p, g0, deleted, empty, j);
    }
    assert g[i] == g0[i];
    forall d | d in deleted && d < |g| ensures g[d] == g0[d] {}
    CandidatesAreLocal(g0, g, deleted, i);
    assert NewList(p, g, deleted, empty, i) == NewList(p, g0, deleted, empty, i);
  }

  lemma NewListInRange(p: Params, g: Graph, deleted: set<nat>, empty: set<nat>, i: nat)
    requires EdgesInRange(g) && i < |g|
    ensures forall x | x in NewList(p, g, deleted, empty, i) :: x < |g|
  {
    RepairedIsSound(p, g, deleted, i);
  }
}
