/** PCAUtils: the learned threshold of every region, kept in three maps that reads, misses and writes change.
    A region is given by the bucket code that compute_region_key finds for a vector. */
module Thresholds {
  import opened Base
  import opened Regions
  import opened L1Ball

  lemma {:induction false} TightenJoins(s: Store, a: seq<Key>, b: seq<Key>, alpha: real)
    ensures var first, second := TightenAll(s, a, alpha), TightenAll(TightenAll(s, a, alpha).0, b, alpha);
      TightenAll(s, a + b, alpha) == (second.0, first.1 + second.1)
  {
    if b == [] {
      assert a + b == a;
    } else {
      TightenJoins(s, a, b[..|b| - 1], alpha);
      assert (a + b)[..|a + b| - 1] == a + b[..|b| - 1];
    }
  }

  lemma StoredJoins(front: seq<nat>, a: seq<seq<nat>>, b: seq<seq<nat>>)
    ensures Stored(front, a + b) == Stored(front, a) + Stored(front, b)
  {}

  lemma StoredPrefixed(front: seq<nat>, b: nat, codes: seq<seq<nat>>)
    ensures Stored(front, Prefixed(b, codes)) == Stored(front + [b % 256], codes)
  {
    forall i | 0 <= i < |codes| ensures front + Cut([b] + codes[i]) == front + [b % 256] + Cut(codes[i]) {}
  }

  /** A code that is all set is looked up. */
  lemma WalkEnds(s: Store, front: seq<nat>, left: nat, buckets: nat, alpha: real)
    ensures TightenAll(s, Stored(front, Codes([], left, buckets)), alpha)
         == (TightenOne(s, front, alpha), if CanTighten(s, front, alpha) then 1 else 0)
  {
    assert Stored(front, [[]])[0] == front + Cut([]) == front;
    assert Stored(front, [[]]) == [front];
    assert TightenAll(s, [front][..0], alpha) == (s, 0);
  }

  /** A step outside the box adds nothing. */
  lemma WalkSkips(front: seq<nat>, rest: seq<nat>, left: nat, buckets: nat, delta: int)
    requires rest != [] && 0 <= left + delta && delta <= left && !(0 <= rest[0] + delta < buckets)
    ensures Stored(front, CodesBelow(rest, left, buckets, delta + 1))
         == Stored(front, CodesBelow(rest, left, buckets, delta))
  {
    assert CodesBelow(rest, left, buckets, delta + 1) == CodesBelow(rest, left, buckets, delta) + [];
  }

  /** One turn of the loop adds what the walk of the remaining coordinates does. */
  lemma WalkGoesOn(s: Store, front: seq<nat>, rest: seq<nat>, left: nat, buckets: nat, delta: int, alpha: real,
                   before: (Store, nat), more: (Store, nat))
    requires rest != [] && 0 <= left + delta && delta <= left && 0 <= rest[0] + delta < buckets
    requires before == TightenAll(s, Stored(front, CodesBelow(rest, left, buckets, delta)), alpha)
    requires more == TightenAll(before.0, Stored(front + [(rest[0] + delta) % 256],
                                                 Codes(rest[1..], left - Abs(delta), buckets)), alpha)
    ensures TightenAll(s, Stored(front, CodesBelow(rest, left, buckets, delta + 1)), alpha)
         == (more.0, before.1 + more.1)
  {
    var done, piece := CodesBelow(rest, left, buckets, delta), Piece(rest, left, buckets, delta);
    StoredJoins(front, done, piece);
    TightenJoins(s, Stored(front, done), Stored(front, piece), alpha);
    StoredPrefixed(front, rest[0] + delta, Codes(rest[1..], left - Abs(delta), buckets));
  }

  /** A live threshold, relaxed by the deviation factor, is not exceeded. */
  predicate Tolerates(t: Theta, d: real, deviation: real) {
    t.Value? && d <= (1.0 + deviation) * t.v
  }

  lemma Relaxed(d: real, v: real, deviation: real)
    ensures d <= (1.0 + deviation) * v <==> d - v <= deviation * v
  {
    assert (1.0 + deviation) * v == v + deviation * v;
  }

  class PcaUtils {
    const buckets: nat                        // BUCKETS_PER_DIM
    const maxRegions: nat
    var radius: nat                           // write_l1_radius
    var theta: map<Key, map<nat, Theta>>      // region_theta_map
    var discount: map<Key, real>              // region_discount_map
    var order: seq<Key>                       // region_insertion_order

    ghost function View(): Store
      reads this
    {
      Store(theta, discount, order)
    }

    constructor (buckets: nat, maxRegions: nat)
      ensures View() == Store(map[], map[], []) && radius == 1
      ensures this.buckets == buckets && this.maxRegions == maxRegions
    {
      this.buckets, this.maxRegions, radius := buckets, maxRegions, 1;
      theta, discount, order := map[], map[], [];
    }

    /** lazy_init_region. */
    method Init(key: Key)
      modifies this`theta, this`discount, this`order
      ensures View() == LazyInit(old(View()), key, maxRegions)
    {
      if key !in theta {
        if |theta| >= maxRegions && order != [] {
          var oldest := order[0];
          order := order[1..];
          theta := theta - {oldest};
          discount := discount - {oldest};
        }
        theta := theta[key := SEEDED];
        order := order + [key];
      }
    }

    /** isHit: the K-th distance against the region's relaxed threshold. Too few results or no buffer is a miss
        that touches nothing. */
    method IsHit(region: Key, K: nat, distances: Option<seq<real>>, n: nat, deviation: real) returns (hit: bool)
      requires distances.Some? && K <= n ==> K <= |distances.value|
      modifies this`theta, this`discount, this`order
      ensures hit <==>
        && 0 < K <= n && distances.Some?
        && var t := Found(old(theta), region, K);
           t.Value? && distances.value[K - 1] - t.v <= deviation * t.v
      ensures View() == if 0 < K <= n && distances.Some? then Look(old(View()), region, K, maxRegions) else old(View())
    {
      if n < K || distances.None? || K == 0 {
        return false;
      }
      FoundIs(View(), region, K, maxRegions);
      Init(region);
      var t := ThetaAt(theta[region], K);
      theta := theta[region := SetTheta(theta[region], K, t)];
      hit := Tolerates(t, distances.value[K - 1], deviation);
      if t.Value? { Relaxed(distances.value[K - 1], t.v, deviation); }
    }

    /** update_theta. */
    method UpdateTheta(region: Key, K: nat, d: real, p: real)
      modifies this`theta, this`discount, this`order
      ensures View() == Learn(old(View()), region, K, d, p, maxRegions)
      ensures Learned(old(View()), View(), region, K, d, p)
    {
      ghost var s := View();
      Init(region);
      var t := ThetaAt(theta[region], K);
      var now := if t.Unset? then d else MovingAverage(t.v, d, p);
      theta := theta[region := SetTheta(theta[region], K, Value(now))];
      discount := discount[region := 1.0];
      LearnMeans(s, region, K, d, p, maxRegions);
    }

    /** tighten_one_region_locked: 1 if the region was scaled. */
    method TightenRegion(key: Key, alpha: real) returns (n: nat)
      modifies this`theta, this`discount
      ensures View() == TightenOne(old(View()), key, alpha)
      ensures n == if CanTighten(old(View()), key, alpha) then 1 else 0
      ensures n == 1 <==>
        && (exists K :: StoredAt(old(theta), key, K).Some? && old(theta)[key][K].Value?)
        && (if key in old(discount) then old(discount)[key] else 1.0) > alpha
      ensures n == 0 ==> View() == old(View())
      ensures n == 1 ==> key in theta && key in discount && discount[key] == alpha
      ensures n == 1 ==> forall K :: match StoredAt(old(theta), key, K)
        case Some(Value(v)) => StoredAt(theta, key, K) == Some(Value(alpha * v))
        case other => StoredAt(theta, key, K) == other
      ensures forall k, K | k != key :: StoredAt(theta, k, K) == StoredAt(old(theta), k, K)
    {
      ghost var s := View();
      TightenMeans(s, key, alpha);
      if key !in theta || forall K | K in theta[key] :: theta[key][K].Unset? {
        return 0;
      }
      var already := if key in discount then discount[key] else 1.0;
      if already <= alpha {
        return 0;
      }
      theta := theta[key := Scaled(theta[key], alpha)];
      discount := discount[key := alpha];
      return 1;
    }

    /** tighten_l1_ball_locked: `cur` is the scratch key, whose coordinates before i are set and the others
        equal the centre's. It is left as it was found. */
    method TightenBall(center: Key, i: nat, left: nat, cur: array<nat>, alpha: real) returns (n: nat)
      requires i <= |center| == cur.Length && cur[i..] == center[i..]
      modifies this`theta, this`discount, cur
      ensures cur[..] == old(cur[..])
      ensures (View(), n)
           == TightenAll(old(View()), Stored(old(cur[..i]), Codes(center[i..], left, buckets)), alpha)
      decreases |center| - i
    {
      ghost var s0, front, rest := View(), cur[..i], center[i..];
      if i == |center| {
        assert front == cur[..] && rest == [];
        WalkEnds(s0, front, left, buckets, alpha);
        n := TightenRegion(cur[..], alpha);
        return;
      }
      n := 0;
      var delta: int := 0 - left;
      while delta <= left
        invariant 0 <= left + delta && delta <= left + 1
        invariant cur[..i] == front && cur[i + 1..] == center[i + 1..]
        invariant (View(), n) == TightenAll(s0, Stored(front, CodesBelow(rest, left, buckets, delta)), alpha)
      {
        n := Visit(center, i, left, cur, alpha, delta, n, s0);
        delta := delta + 1;
      }
      cur[i] := center[i];
      assert cur[..] == front + [center[i]] + center[i + 1..];
    }

    /** One turn of the loop: the walk below `delta` has been done with count n, and this adds one piece. */
    method Visit(center: Key, i: nat, left: nat, cur: array<nat>, alpha: real, delta: int, n: nat, ghost s0: Store)
      returns (n': nat)
      requires i < |center| == cur.Length && cur[i + 1..] == center[i + 1..]
      requires 0 <= left + delta && delta <= left
      requires (View(), n) == TightenAll(s0, Stored(cur[..i], CodesBelow(center[i..], left, buckets, delta)), alpha)
      modifies this`theta, this`discount, cur
      ensures cur[..i] == old(cur[..i]) && cur[i + 1..] == center[i + 1..]
      ensures (View(), n')
           == TightenAll(s0, Stored(old(cur[..i]), CodesBelow(center[i..], left, buckets, delta + 1)), alpha)
      decreases |center| - i, 0
    {
      ghost var front, rest, before := cur[..i], center[i..], (View(), n);
      var b := center[i] + delta;
      if b < 0 || b >= buckets {
        WalkSkips(front, rest, left, buckets, delta);
        return n;
      }
      cur[i] := b % 256;
      assert cur[..i + 1] == front + [b % 256];
      assert rest[1..] == center[i + 1..];
      var more := TightenBall(center, i + 1, left - Abs(delta), cur, alpha);
      WalkGoesOn(s0, front, rest, left, buckets, delta, alpha, before, (View(), more));
      assert cur[..i] == cur[..][..i] && cur[i + 1..] == cur[..][i + 1..];
      n' := n + more;
    }

    /** tighten_theta_for_vector, None being a null vector: a write scales every learned region in the ball
        around its own that was not scaled since it was learned, and returns how many there were. A discount
        outside (0, 1) does nothing. */
    method TightenAround(vec: Option<Key>, alpha: real) returns (n: nat)
      requires vec.Some? ==> forall i | 0 <= i < |vec.value| :: vec.value[i] < 256 && vec.value[i] < buckets
      modifies this`theta, this`discount
      ensures vec.None? || alpha >= 1.0 || alpha <= 0.0 ==> n == 0 && View() == old(View())
      ensures vec.Some? && 0.0 < alpha < 1.0 ==>
        (View(), n) == TightenAll(old(View()), Stored([], Codes(vec.value, radius, buckets)), alpha)
      ensures vec.Some? && 0.0 < alpha < 1.0 && FitsBytes(vec.value, radius, buckets) ==>
        exists ball: set<Key> ::
          && (forall k :: k in ball <==> InBall(vec.value, radius, buckets, k))
          && View() == TightenSet(old(View()), ball, alpha)
          && n == |Tightened(old(View()), ball, alpha)|
    {
      if vec.None? || alpha >= 1.0 || alpha <= 0.0 {
        return 0;
      }
      var key := vec.value;
      var cur := new nat[|key|](i requires 0 <= i < |key| => key[i]);
      assert cur[0..] == key[0..];
      n := TightenBall(key, 0, radius, cur, alpha);
      ghost var keys := Stored([], Codes(key, radius, buckets));
      assert key[0..] == key && cur[..0] == [];
      ExactIff(key, radius, buckets);
      if FitsBytes(key, radius, buckets) {
        OneByOneIsAllAtOnce(old(View()), keys, alpha);
        CountIsExact(old(View()), keys, alpha);
        assert forall k :: k in ToSet(keys) <==> InBall(key, radius, buckets, k);
      }
    }
  }
}
