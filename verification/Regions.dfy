/** Learned thresholds per PCA region, as values: what each operation of PCAUtils does to the three maps,
    and what holds over every run. Keys are bucket codes. Distances are non-negative (L2 or cosine). */
module Regions {
  import opened Base

  type Key = seq<nat>

  /** A threshold: the uninitialised marker, or a value. */
  datatype Theta = Unset | Value(v: real)

  /** region_theta_map, region_discount_map and region_insertion_order. */
  datatype Store = Store(theta: map<Key, map<nat, Theta>>, discount: map<Key, real>, order: seq<Key>)

  /** The four K that a new region is seeded with. */
  const SEEDED: map<nat, Theta> := map[1 := Unset, 5 := Unset, 10 := Unset, 100 := Unset]

  /** operator[] on a region's entry: an unseeded K springs into being as 0.0. */
  function ThetaAt(entry: map<nat, Theta>, K: nat): Theta {
    if K in entry then entry[K] else Value(0.0)
  }

  function SetTheta(entry: map<nat, Theta>, K: nat, t: Theta): map<nat, Theta> {
    entry[K := t]
  }

  function DiscountAt(s: Store, key: Key): real {
    if key in s.discount then s.discount[key] else 1.0
  }

  /** entry_has_live_theta. */
  predicate HasLive(entry: map<nat, Theta>) {
    exists K :: K in entry && entry[K].Value?
  }

  function DropOldest(s: Store): Store
    requires s.order != []
  {
    Store(s.theta - {s.order[0]}, s.discount - {s.order[0]}, s.order[1..])
  }

  /** What is stored for a region and a K, if anything. */
  function StoredAt(theta: map<Key, map<nat, Theta>>, key: Key, K: nat): Option<Theta> {
    if key in theta && K in theta[key] then Some(theta[key][K]) else None
  }

  /** The threshold that operator[] finds once the region is there: a new region has four unset ones, and any other K
      springs up as 0.0. */
  function Found(theta: map<Key, map<nat, Theta>>, key: Key, K: nat): Theta {
    if key in theta && K in theta[key] then theta[key][K]
    else if key !in theta && (K == 1 || K == 5 || K == 10 || K == 100) then Unset
    else Value(0.0)
  }

  /** lazy_init_region: the oldest region makes room when max regions are stored. */
  function LazyInit(s: Store, key: Key, max: nat): (r: Store)
    ensures key in r.theta
  {
    if key in s.theta then s
    else
      var e := if |s.theta| >= max && s.order != [] then DropOldest(s) else s;
      Store(e.theta[key := SEEDED], e.discount, e.order + [key])
  }

  /** A new region goes to the end of the order with four unset thresholds. */
  lemma InitAdds(s: Store, key: Key, max: nat)
    requires key !in s.theta && (|s.theta| < max || s.order == [])
    ensures var r := LazyInit(s, key, max);
      && r.theta == s.theta[key := map[1 := Unset, 5 := Unset, 10 := Unset, 100 := Unset]]
      && r.order == s.order + [key] && r.discount == s.discount
  {}

  /** If the limit is reached, the region inserted first leaves all three maps. */
  lemma InitMakesRoom(s: Store, key: Key, max: nat)
    requires key !in s.theta && |s.theta| >= max && s.order != []
    ensures var r, oldest := LazyInit(s, key, max), s.order[0];
      && (forall k :: k in r.theta <==> k == key || (k in s.theta && k != oldest))
      && (forall k | k in r.theta && k != key :: r.theta[k] == s.theta[k])
      && r.theta[key] == map[1 := Unset, 5 := Unset, 10 := Unset, 100 := Unset]
      && (forall k :: k in r.discount <==> k in s.discount && k != oldest)
      && (forall k | k in r.discount :: r.discount[k] == s.discount[k])
      && r.order == s.order[1..] + [key]
  {}

  lemma FoundIs(s: Store, key: Key, K: nat, max: nat)
    ensures ThetaAt(LazyInit(s, key, max).theta[key], K) == Found(s.theta, key, K)
  {}

  /** isHit's read of the threshold. */
  function Look(s: Store, key: Key, K: nat, max: nat): Store {
    var r := LazyInit(s, key, max);
    Store(r.theta[key := SetTheta(r.theta[key], K, ThetaAt(r.theta[key], K))], r.discount, r.order)
  }

  /** update_theta: the first distance, or an exponential moving average; clears the write discount. */
  function Learn(s: Store, key: Key, K: nat, d: real, p: real, max: nat): Store {
    var r := LazyInit(s, key, max);
    Store(r.theta[key := SetTheta(r.theta[key], K, Value(Average(ThetaAt(r.theta[key], K), d, p)))],
          r.discount[key := 1.0], r.order)
  }

  function MovingAverage(v: real, d: real, p: real): real {
    p * d + (1.0 - p) * v
  }

  /** The average moves the share p of the way to the new distance. */
  lemma Drift(v: real, d: real, p: real)
    ensures MovingAverage(v, d, p) - v == p * (d - v)
  {
    assert (1.0 - p) * v == v - p * v;
    assert p * (d - v) == p * d - p * v;
  }

  function Average(t: Theta, d: real, p: real): real {
    match t case Unset => d case Value(v) => MovingAverage(v, d, p)
  }

  /** r is s with a distance learned: an unset threshold becomes d, any other moves the share p of the way to it. What
      else a known region stores stays, and its discount is cleared. */
  ghost predicate Learned(s: Store, r: Store, key: Key, K: nat, d: real, p: real) {
    && (var now, before := StoredAt(r.theta, key, K), Found(s.theta, key, K);
        && now.Some? && now.value.Value?
        && if before.Unset? then now.value.v == d else now.value.v - before.v == p * (d - before.v))
    && (key in s.theta ==> forall J | J != K :: StoredAt(r.theta, key, J) == StoredAt(s.theta, key, J))
    && key in r.discount && r.discount[key] == 1.0
  }

  lemma LearnMeans(s: Store, key: Key, K: nat, d: real, p: real, max: nat)
    ensures Learned(s, Learn(s, key, K, d, p, max), key, K, d, p)
  {
    FoundIs(s, key, K, max);
    var before := Found(s.theta, key, K);
    if before.Value? { Drift(before.v, d, p); }
  }

  function Scale(t: Theta, alpha: real): Theta {
    match t case Unset => Unset case Value(v) => Value(v * alpha)
  }

  function Scaled(entry: map<nat, Theta>, alpha: real): map<nat, Theta> {
    map K: nat | K in entry :: Scale(entry[K], alpha)
  }

  /** Stored, with a live threshold, and not discounted since it was last learned. */
  predicate CanTighten(s: Store, key: Key, alpha: real) {
    key in s.theta && HasLive(s.theta[key]) && DiscountAt(s, key) > alpha
  }

  /** tighten_one_region_locked. */
  function TightenOne(s: Store, key: Key, alpha: real): Store {
    if CanTighten(s, key, alpha)
    then Store(s.theta[key := Scaled(s.theta[key], alpha)], s.discount[key := alpha], s.order)
    else s
  }

  /** What that does: the live thresholds of the region are scaled if it has one and is not discounted that far. */
  lemma TightenMeans(s: Store, key: Key, alpha: real)
    ensures CanTighten(s, key, alpha) <==>
      (exists K :: StoredAt(s.theta, key, K) != None && s.theta[key][K].Value?)
      && (if key in s.discount then s.discount[key] else 1.0) > alpha
    ensures var r := TightenOne(s, key, alpha);
      if CanTighten(s, key, alpha) then
        && key in r.theta && key in r.discount && r.discount[key] == alpha
        && (forall K :: match StoredAt(s.theta, key, K)
              case Some(Value(v)) => StoredAt(r.theta, key, K) == Some(Value(alpha * v))
              case other => StoredAt(r.theta, key, K) == other)
        && forall k, K | k != key :: StoredAt(r.theta, k, K) == StoredAt(s.theta, k, K)
      else r == s
  {
    if key in s.theta && HasLive(s.theta[key]) {
      var live :| live in s.theta[key] && s.theta[key][live].Value?;
      assert StoredAt(s.theta, key, live) == Some(s.theta[key][live]);
    }
  }

  /** One after the other. */
  function TightenAll(s: Store, keys: seq<Key>, alpha: real): (Store, nat) {
    if keys == [] then (s, 0)
    else
      var r := TightenAll(s, keys[..|keys| - 1], alpha);
      var key := keys[|keys| - 1];
      (TightenOne(r.0, key, alpha), r.1 + if CanTighten(r.0, key, alpha) then 1 else 0)
  }

  /** The regions among `keys` that can be tightened. */
  function Tightened(s: Store, keys: set<Key>, alpha: real): set<Key> {
    set k | k in keys && CanTighten(s, k, alpha)
  }

  /** All at once. */
  function TightenSet(s: Store, keys: set<Key>, alpha: real): Store {
    var hit := Tightened(s, keys, alpha);
    Store(ScaledOn(s.theta, hit, alpha), DiscountedOn(s.discount, hit, alpha), s.order)
  }

  function ScaledOn(theta: map<Key, map<nat, Theta>>, hit: set<Key>, alpha: real): map<Key, map<nat, Theta>> {
    map k | k in theta :: if k in hit then Scaled(theta[k], alpha) else theta[k]
  }

  function DiscountedOn(discount: map<Key, real>, hit: set<Key>, alpha: real): map<Key, real> {
    map k | k in discount.Keys + hit :: if k in hit then alpha else discount[k]
  }

  lemma ScaleOneMore(theta: map<Key, map<nat, Theta>>, hit: set<Key>, key: Key, alpha: real)
    requires key in theta && key !in hit
    ensures ScaledOn(theta, hit, alpha)[key := Scaled(theta[key], alpha)] == ScaledOn(theta, hit + {key}, alpha)
  {}

  lemma DiscountOneMore(discount: map<Key, real>, hit: set<Key>, key: Key, alpha: real)
    requires key !in hit
    ensures DiscountedOn(discount, hit, alpha)[key := alpha] == DiscountedOn(discount, hit + {key}, alpha)
  {}

  function ToSet(keys: seq<Key>): set<Key> {
    set k | k in keys
  }

  lemma OtherKeyUnaffected(s: Store, keys: set<Key>, key: Key, alpha: real)
    requires key !in keys
    ensures CanTighten(TightenSet(s, keys, alpha), key, alpha) <==> CanTighten(s, key, alpha)
  {
    var r := TightenSet(s, keys, alpha);
    assert key in r.theta <==> key in s.theta;
    assert key in s.theta ==> r.theta[key] == s.theta[key];
    assert DiscountAt(r, key) == DiscountAt(s, key);
  }

  lemma OneMoreHit(s: Store, keys: set<Key>, key: Key, alpha: real)
    ensures Tightened(s, keys + {key}, alpha)
         == Tightened(s, keys, alpha) + if CanTighten(s, key, alpha) then {key} else {}
  {}

  lemma OneMore(s: Store, keys: set<Key>, key: Key, alpha: real)
    requires key !in keys
    ensures TightenOne(TightenSet(s, keys, alpha), key, alpha) == TightenSet(s, keys + {key}, alpha)
  {
    OtherKeyUnaffected(s, keys, key, alpha);
    OneMoreHit(s, keys, key, alpha);
    var hit := Tightened(s, keys, alpha);
    if CanTighten(s, key, alpha) {
      ScaleOneMore(s.theta, hit, key, alpha);
      DiscountOneMore(s.discount, hit, key, alpha);
    }
  }

  lemma SplitKeys(keys: seq<Key>)
    requires keys != [] && NoRepeats(keys)
    ensures var front, key := keys[..|keys| - 1], keys[|keys| - 1];
      ToSet(keys) == ToSet(front) + {key} && key !in ToSet(front) && NoRepeats(front)
  {
    assert keys == keys[..|keys| - 1] + [keys[|keys| - 1]];
  }

  /** On different keys the two agree. */
  lemma {:induction false} OneByOneIsAllAtOnce(s: Store, keys: seq<Key>, alpha: real)
    requires NoRepeats(keys)
    ensures TightenAll(s, keys, alpha).0 == TightenSet(s, ToSet(keys), alpha)
  {
    if keys == [] {
      assert TightenSet(s, {}, alpha) == s;
    } else {
      SplitKeys(keys);
      OneByOneIsAllAtOnce(s, keys[..|keys| - 1], alpha);
      OneMore(s, ToSet(keys[..|keys| - 1]), keys[|keys| - 1], alpha);
    }
  }

  /** And the count is the number of regions tightened. */
  lemma {:induction false} CountIsExact(s: Store, keys: seq<Key>, alpha: real)
    requires NoRepeats(keys)
    ensures TightenAll(s, keys, alpha).1 == |Tightened(s, ToSet(keys), alpha)|
  {
    if keys != [] {
      var front, key := keys[..|keys| - 1], keys[|keys| - 1];
      SplitKeys(keys);
      CountIsExact(s, front, alpha);
      OneByOneIsAllAtOnce(s, front, alpha);
      OtherKeyUnaffected(s, ToSet(front), key, alpha);
      OneMoreHit(s, ToSet(front), key, alpha);
    }
  }
}
