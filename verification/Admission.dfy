/** Where a miss is admitted: slot reclaim, the choice of a shard, and LRU rotation. The insert pool is
    idle throughout. A mini-index is known by its contract: the tags it holds live, and the number of lazily
    deleted points that still occupy slots. */
module Admission {
  import opened Base
  import opened LruCache

  datatype Shard = Shard(live: set<nat>, dead: nat)

  predicate HasCapacity(sh: Shard, cap: nat) {
    |sh.live| < cap
  }

  predicate HasSlots(sh: Shard, cap: nat) {
    |sh.live| + sh.dead < cap
  }

  /** reclaim_insert_slots: consolidate_deletes frees the dead slots, if that is what is missing. */
  function Reclaimed(sh: Shard, cap: nat): (r: Shard)
    ensures r.live == sh.live && r.dead <= sh.dead
    ensures |sh.live| < cap <= |sh.live| + sh.dead ==> r.dead == 0
    ensures |r.live| + r.dead < cap <==> |sh.live| < cap
    ensures |sh.live| + sh.dead < cap || |sh.live| >= cap ==> r == sh
  {
    if HasCapacity(sh, cap) && !HasSlots(sh, cap) then Shard(sh.live, 0) else sh
  }

  ghost predicate IsPermutation(order: seq<nat>, n: nat) {
    NoRepeats(order) && |order| == n && forall i: nat :: i in order <==> i < n
  }

  lemma ToFront(order: seq<nat>, n: nat, i: nat)
    requires IsPermutation(order, n) && i < n
    ensures IsPermutation([i] + Without(order, i), n)
  {
    WithoutDistinct(order, i);
  }

  function Elements(s: seq<nat>): set<nat> {
    set x | x in s
  }

  lemma {:induction false} SizeOfElements(s: seq<nat>)
    requires NoRepeats(s)
    ensures |Elements(s)| == |s|
  {
    if s != [] {
      var front, last := s[..|s| - 1], s[|s| - 1];
      SizeOfElements(front);
      assert s == front + [last];
      assert Elements(s) == Elements(front) + {last};
      assert last !in front;
    }
  }

  /** Below n, an order that misses i has room for it. */
  lemma RoomFor(order: seq<nat>, n: nat, i: nat)
    requires NoRepeats(order) && (forall k | k in order :: k < n) && i < n && i !in order
    ensures |order| < n
  {
    SizeOfElements(order);
    SubsetSize(Elements(order), Below(n) - {i});
    assert i in Below(n);
  }

  lemma Complete(order: seq<nat>, n: nat)
    requires NoRepeats(order) && (forall k | k in order :: k < n) && forall k: nat | k < n :: k in order
    ensures IsPermutation(order, n)
  {
    SizeOfElements(order);
    assert Elements(order) == Below(n);
  }

  /** The orders while missing shards are added: those below i are there, and the given order comes last. */
  ghost predicate Filling(order: seq<nat>, given: seq<nat>, n: nat, i: nat) {
    && NoRepeats(order) && (forall k | k in order :: k < n)
    && (forall k: nat | k < i :: k in order)
    && |given| <= |order| && order[|order| - |given|..] == given
  }

  lemma FillOne(order: seq<nat>, given: seq<nat>, n: nat, i: nat)
    requires Filling(order, given, n, i) && i < n
    ensures i in order ==> Filling(order, given, n, i + 1)
    ensures i !in order ==> |order| < n && Filling([i] + order, given, n, i + 1)
  {
    if i !in order {
      RoomFor(order, n, i);
      assert ([i] + order)[|order| + 1 - |given|..] == order[|order| - |given|..];
    }
  }

  /** The order after the shards in `ids` have been accessed one after the other. */
  function Touched(order: seq<nat>, ids: seq<nat>): seq<nat> {
    if ids == [] then order
    else var l := |ids| - 1; [ids[l]] + Without(Touched(order, ids[..l]), ids[l])
  }

  function WithoutAll(order: seq<nat>, ids: seq<nat>): (r: seq<nat>)
    ensures forall x :: x in r <==> x in order && x !in ids
  {
    if ids == [] then order
    else
      var l := |ids| - 1;
      assert ids == ids[..l] + [ids[l]];
      Without(WithoutAll(order, ids[..l]), ids[l])
  }

  lemma {:induction false} WithoutJoins(a: seq<nat>, b: seq<nat>, tag: nat)
    ensures Without(a + b, tag) == Without(a, tag) + Without(b, tag)
  {
    if a == [] {
      assert a + b == b;
    } else {
      WithoutJoins(a[1..], b, tag);
      assert (a + b)[1..] == a[1..] + b && (a + b)[0] == a[0];
      Regroup([a[0]], Without(a[1..], tag), Without(b, tag));
    }
  }

  /** Different shards end up in front, the last one accessed first, and the others keep their order. */
  lemma {:induction false} TouchedOrder(order: seq<nat>, ids: seq<nat>)
    requires NoRepeats(ids)
    ensures Touched(order, ids) == Reversed(ids) + WithoutAll(order, ids)
  {
    if ids == [] {
      assert Reversed(ids) + order == order;
    } else {
      var l := |ids| - 1;
      var front, rest, last := Reversed(ids[..l]), WithoutAll(order, ids[..l]), ids[l];
      TouchedOrder(order, ids[..l]);
      WithoutJoins(front, rest, last);
      forall i | 0 <= i < |front| ensures front[i] != last { assert front[i] == ids[l - 1 - i]; }
      ReversedStep(ids);
      Regroup([last], front, Without(rest, last));
    }
  }

  lemma ReversedStep(ids: seq<nat>)
    requires ids != []
    ensures Reversed(ids) == [ids[|ids| - 1]] + Reversed(ids[..|ids| - 1])
  {}

  /** find_shard_with_capacity: the least loaded shard whose live and lazily deleted points leave a slot, the first of
      equals; n if none does. */
  ghost predicate IsBestSpare(shards: seq<Shard>, cap: nat, best: nat) {
    if best < |shards| then
      && |shards[best].live| + shards[best].dead < cap
      && forall i | 0 <= i < |shards| && |shards[i].live| + shards[i].dead < cap ::
           |shards[i].live| >= |shards[best].live| && (|shards[i].live| == |shards[best].live| ==> best <= i)
    else best == |shards| && forall i | 0 <= i < |shards| :: |shards[i].live| + shards[i].dead >= cap
  }

  ghost predicate AllFull(shards: seq<Shard>, cap: nat) {
    forall i | 0 <= i < |shards| :: |shards[i].live| >= cap
  }

  class Cache {
    const n: nat                // number_of_mini_indexes
    const cap: nat              // memory_index_max_points_per_index
    const lru: Lru
    var shards: seq<Shard>
    var active: nat             // active_insert_index_id
    var evicting: bool          // eviction_in_progress

    ghost predicate Valid()
      reads this, lru
    {
      && n >= 1 && |shards| == n && active < n
      && lru.Valid() && lru.capacity == n && IsPermutation(lru.order, n)
      && forall i | 0 <= i < n :: |shards[i].live| + shards[i].dead <= cap
    }

    constructor (n: nat, cap: nat)
      requires n >= 1
      ensures Valid() && !evicting && active == 0 && this.n == n && this.cap == cap && fresh(lru)
      ensures forall i | 0 <= i < n :: shards[i] == Shard({}, 0)
    {
      var l := new Lru(n);
      this.n, this.cap, lru := n, cap, l;
      shards, active, evicting := seq(n, _ => Shard({}, 0)), 0, false;
      new;
      for i := 0 to n
        invariant lru == l && fresh(lru) && lru.Valid() && lru.capacity == n
        invariant NoRepeats(lru.order) && |lru.order| == i && forall k: nat :: k in lru.order <==> k < i
        invariant |shards| == n && active == 0 && !evicting && forall k | 0 <= k < n :: shards[k] == Shard({}, 0)
        modifies lru
      {
        var isNew := lru.Access(i);
      }
    }

    /** The LRU update after a hit: the contributing shards, least contributing first. */
    method Touch(ids: seq<nat>)
      requires Valid() && forall k | 0 <= k < |ids| :: ids[k] < n
      modifies lru
      ensures Valid() && lru.order == Touched(old(lru.order), ids)
    {
      ghost var order := lru.order;
      for k := 0 to |ids|
        invariant Valid() && lru.order == Touched(order, ids[..k])
      {
        assert ids[..k + 1][..k] == ids[..k];
        ToFront(lru.order, n, ids[k]);
        var inserted := lru.Access(ids[k]);
      }
      assert ids[..|ids|] == ids;
    }

    method Reclaim(i: nat)
      requires i < |shards|
      modifies this`shards
      ensures shards == old(shards)[i := Reclaimed(old(shards)[i], cap)]
      ensures |shards[i].live| + shards[i].dead < cap <==> |old(shards)[i].live| < cap
    {
      if HasCapacity(shards[i], cap) && !HasSlots(shards[i], cap) {
        shards := shards[i := Shard(shards[i].live, 0)];
      } else {
        assert shards[i := shards[i]] == shards;
      }
    }

    /** The loop of find_shard_with_capacity. */
    method FindShardWithCapacity() returns (best: nat)
      ensures IsBestSpare(shards, cap, best)
    {
      best := |shards|;
      for i := 0 to |shards|
        invariant best < i || best == |shards|
        invariant best < i ==> HasSlots(shards[best], cap)
        invariant best < i ==> forall k | 0 <= k < i && HasSlots(shards[k], cap) ::
          |shards[k].live| >= |shards[best].live| && (|shards[k].live| == |shards[best].live| ==> best <= k)
        invariant best == |shards| ==> forall k | 0 <= k < i :: !HasSlots(shards[k], cap)
      {
        if HasSlots(shards[i], cap) && (best == |shards| || |shards[i].live| < |shards[best].live|) {
          best := i;
        }
      }
    }

    method AddIfMissing(i: nat, ghost given: seq<nat>)
      requires lru.Valid() && lru.capacity == n && i < n && Filling(lru.order, given, n, i)
      modifies lru
      ensures lru.Valid() && Filling(lru.order, given, n, i + 1)
    {
      FillOne(lru.order, given, n, i);
      var known := lru.Contains(i);
      if !known {
        var inserted := lru.Access(i);
      }
    }

    /** The last loop of perform_eviction: shards missing from the order enter it in front of the others, so that
        there is nothing to do while the order is complete. */
    method AddMissing()
      requires lru.Valid() && lru.capacity == n && forall i | i in lru.order :: i < n
      modifies lru
      ensures lru.Valid() && IsPermutation(lru.order, n)
      ensures |old(lru.order)| <= n && lru.order[n - |old(lru.order)|..] == old(lru.order)
    {
      ghost var order := lru.order;
      assert order[0..] == order;
      for i := 0 to n
        invariant lru.Valid() && Filling(lru.order, order, n, i)
      {
        AddIfMissing(i, order);
      }
      Complete(lru.order, n);
    }

    /** perform_eviction: the least recently used shard is replaced by an empty one, unless it is the only one. */
    method PerformEviction()
      requires Valid()
      modifies this`shards, this`active, this`evicting, lru
      ensures Valid() && !evicting
      ensures n == 1 ==> shards == old(shards) && active == old(active) && lru.order == old(lru.order)
      ensures n >= 2 ==>
        && active == old(lru.order)[n - 1]
        && shards == old(shards)[active := Shard({}, 0)]
        && lru.order == [active] + Without(old(lru.order), active)
    {
      var current := lru.GetAllTags();
      var lruTags := lru.GetLruTags(1);
      var replaced := lruTags[0];
      assert replaced == lru.order[n - 1] && replaced in lru.order;
      if |current| == 1 {
        evicting := false;
        return;
      }
      shards := shards[replaced := Shard({}, 0)];
      active := replaced;
      ToFront(lru.order, n, replaced);
      var inserted := lru.Access(replaced);
      AddMissing();
      evicting := false;
    }

    method ReclaimOthers(except: nat)
      requires |shards| == n
      modifies this`shards
      ensures |shards| == n
      ensures forall i | 0 <= i < n ::
        shards[i] == if i == except then old(shards)[i] else Reclaimed(old(shards)[i], cap)
    {
      ghost var s := shards;
      for i := 0 to n
        invariant |shards| == n
        invariant forall k | 0 <= k < n :: shards[k] == if k != except && k < i then Reclaimed(s[k], cap) else s[k]
      {
        if i != except {
          Reclaim(i);
        }
      }
    }

    /** ensure_admit_shard. */
    method EnsureAdmitShard() returns (shard: nat)
      requires Valid() && !evicting
      modifies this`shards, this`active, this`evicting, lru
      ensures Valid() && !evicting && shard == active
      ensures |shards[shard].live| + shards[shard].dead < cap <==> cap > 0 && (n >= 2 || |old(shards)[0].live| < cap)
      ensures !AllFull(old(shards), cap) || n == 1 ==> forall i | 0 <= i < n :: shards[i].live == old(shards)[i].live
      ensures AllFull(old(shards), cap) && n >= 2 ==>
        && shard == old(lru.order)[n - 1] && shards == old(shards)[shard := Shard({}, 0)]
      ensures |old(shards)[old(active)].live| < cap ==>
        && shard == old(active) && lru.order == old(lru.order)
        && shards == old(shards)[shard := Reclaimed(old(shards)[shard], cap)]
      ensures !AllFull(old(shards), cap) && |old(shards)[old(active)].live| >= cap ==>
        && IsBestSpare(shards, cap, shard) && shard < n
        && forall i | 0 <= i < n :: shards[i] == Reclaimed(old(shards)[i], cap)
      ensures n >= 2 && |old(shards)[old(active)].live| >= cap ==> lru.order == [shard] + Without(old(lru.order), shard)
    {
      shard := active;
      Reclaim(shard);
      if HasSlots(shards[shard], cap) {
        return;
      }
      ReclaimOthers(shard);
      var spare := FindShardWithCapacity();
      if spare < |shards| {
        ToFront(lru.order, n, spare);
        active := spare;
        var inserted := lru.Access(spare);
        shard := spare;
        return;
      }
      forall i | 0 <= i < n ensures |old(shards)[i].live| >= cap && shards[i] == old(shards)[i] {
        assert !HasSlots(shards[i], cap);
      }
      assert shards == old(shards);
      if !evicting {
        evicting := true;
        PerformEviction();
      }
      shard := active;
    }
  }
}
