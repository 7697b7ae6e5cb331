/** Slot accounting and the two tag maps, as facts about values. */
module Slots {
  import opened Base

  /** Every slot below max is live, deleted or empty. A deleted slot becomes empty as well when it is consolidated:
      it stays in the delete set until it is taken again or the index is compacted. */
  ghost predicate Partition(max: nat, live: set<nat>, deleted: set<nat>, empty: set<nat>) {
    && (forall x: nat :: x in live || x in deleted || x in empty <==> x < max)
    && (forall x | x in live :: x !in deleted && x !in empty)
  }

  /** The empty slots are those from nd on. */
  ghost predicate NoHole(empty: set<nat>, nd: nat, max: nat) {
    forall x: nat :: x in empty <==> nd <= x < max
  }

  /** _nd counts the slots that are not empty; after a compaction these are the first _nd ones. */
  ghost predicate Counted(max: nat, nd: nat, compacted: bool, deleted: set<nat>, empty: set<nat>) {
    && nd + |empty| == max
    && (compacted ==> NoHole(empty, nd, max) && Apart(deleted, empty))
  }

  ghost predicate Inverse(tagToLocation: map<nat, nat>, locationToTag: map<nat, nat>) {
    && (forall t | t in tagToLocation :: tagToLocation[t] in locationToTag && locationToTag[tagToLocation[t]] == t)
    && (forall l | l in locationToTag :: locationToTag[l] in tagToLocation && tagToLocation[locationToTag[l]] == l)
  }

  lemma TakeSlot(max: nat, nd: nat, compacted: bool, live: set<nat>, deleted: set<nat>, empty: set<nat>, l: nat)
    requires Partition(max, live, deleted, empty) && Counted(max, nd, compacted, deleted, empty) && l in empty
    requires compacted ==> l == nd
    ensures Partition(max, live + {l}, deleted - {l}, empty - {l})
    ensures Counted(max, nd + 1, compacted, deleted - {l}, empty - {l})
  {
    assert |empty - {l}| == |empty| - 1;
  }

  lemma LiveSize(max: nat, live: set<nat>, deleted: set<nat>, empty: set<nat>)
    requires Partition(max, live, deleted, empty)
    ensures |live| + |empty + deleted| == max
  {
    assert live + (empty + deleted) == Below(max);
    assert |live + (empty + deleted)| == |live| + |empty + deleted|;
  }

  /** No slot of a is in b. */
  predicate Apart(a: set<nat>, b: set<nat>) {
    forall x | x in a :: x !in b
  }

  lemma UnionSize(a: set<nat>, b: set<nat>)
    ensures |a + b| == |a| + |b| <==> Apart(a, b)
  {
    assert |a + b| + |a * b| == |a| + |b|;
    if Apart(a, b) {
      assert a * b == {};
    } else {
      var x :| x in a && x in b;
      assert x in a * b;
    }
  }

  /** After a compaction the count is the number of live slots. */
  lemma CountFollows(max: nat, nd: nat, live: set<nat>, empty: set<nat>)
    requires Partition(max, live, {}, empty) && nd + |empty| == max
    ensures nd == |live|
  {
    LiveSize(max, live, {}, empty);
    assert empty + {} == empty;
  }

  /** consolidate_deletes frees the deleted slots. Its subtraction is right exactly when none of them was free
      before, and the flag it sets exactly when something was deleted or no hole is left. */
  lemma FreeSlots(max: nat, nd: nat, live: set<nat>, deleted: set<nat>, empty: set<nat>)
    requires Partition(max, live, deleted, empty) && nd + |empty| == max && |deleted| <= nd
    ensures Partition(max, live, deleted, empty + deleted)
    ensures Counted(max, nd - |deleted|, deleted == {}, deleted, empty + deleted)
       <==> Apart(empty, deleted) && (deleted == {} ==> NoHole(empty, nd, max))
    ensures Apart(empty, deleted) <==> nd - |deleted| == |live|
  {
    LiveSize(max, live, deleted, empty);
    UnionSize(empty, deleted);
    assert deleted == {} ==> empty + deleted == empty;
  }

  lemma Register(t2l: map<nat, nat>, l2t: map<nat, nat>, tag: nat, l: nat)
    requires Inverse(t2l, l2t) && tag !in t2l && l !in l2t
    ensures Inverse(t2l[tag := l], l2t[l := tag]) && l2t[l := tag].Keys == l2t.Keys + {l}
  {}

  lemma Unregister(t2l: map<nat, nat>, l2t: map<nat, nat>, tag: nat)
    requires Inverse(t2l, l2t) && tag in t2l
    ensures Inverse(t2l - {tag}, l2t - {t2l[tag]}) && (l2t - {t2l[tag]}).Keys == l2t.Keys - {t2l[tag]}
  {}

  lemma EmptyStart(max: nat)
    ensures SlotsOk(max, 0, true, false, map[], map[], {}, Below(max))
  {}

  /** The bookkeeping of an index. */
  ghost predicate SlotsOk(max: nat, nd: nat, compacted: bool, lazyDone: bool, t2l: map<nat, nat>, l2t: map<nat, nat>,
                          deleted: set<nat>, empty: set<nat>) {
    && Partition(max, l2t.Keys, deleted, empty)
    && Counted(max, nd, compacted, deleted, empty)
    && Inverse(t2l, l2t)
    && (deleted != {} ==> lazyDone)
  }

  lemma DeleteKeepsSlots(max: nat, nd: nat, compacted: bool, lazyDone: bool, t2l: map<nat, nat>, l2t: map<nat, nat>,
                         deleted: set<nat>, empty: set<nat>, tag: nat)
    requires SlotsOk(max, nd, compacted, lazyDone, t2l, l2t, deleted, empty) && tag in t2l
    ensures t2l[tag] in l2t
    ensures SlotsOk(max, nd, compacted, true, t2l - {tag}, l2t - {t2l[tag]}, deleted + {t2l[tag]}, empty)
    ensures (l2t - {t2l[tag]}).Keys == l2t.Keys - {t2l[tag]}
  {
    Unregister(t2l, l2t, tag);
  }

  lemma ReserveKeepsSlots(max: nat, nd: nat, compacted: bool, lazyDone: bool, t2l: map<nat, nat>, l2t: map<nat, nat>,
                          deleted: set<nat>, empty: set<nat>, tag: nat, l: nat)
    requires SlotsOk(max, nd, compacted, lazyDone, t2l, l2t, deleted, empty) && tag !in t2l && l in empty
    requires compacted ==> l == nd
    ensures SlotsOk(max, nd + 1, compacted, lazyDone, t2l[tag := l], l2t[l := tag], deleted - {l}, empty - {l})
    ensures l2t[l := tag].Keys == l2t.Keys + {l}
  {
    TakeSlot(max, nd, compacted, l2t.Keys, deleted, empty, l);
    Register(t2l, l2t, tag, l);
  }

  lemma FreeSlotExists(max: nat, nd: nat, compacted: bool, lazyDone: bool, t2l: map<nat, nat>, l2t: map<nat, nat>,
                       deleted: set<nat>, empty: set<nat>)
    requires SlotsOk(max, nd, compacted, lazyDone, t2l, l2t, deleted, empty) && nd < max
    ensures empty != {} && (compacted ==> nd in empty)
  {
    assert |empty| > 0;
  }
}
