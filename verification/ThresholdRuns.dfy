/** Learned thresholds over whole runs: reads, misses and writes in any order, for a fixed discount alpha in
    (0, 1), a moving-average weight p in [0, 1] and non-negative distances. */
module ThresholdRuns {
  import opened Base
  import opened Regions

  /** A threshold is read for a hit test, a miss learns the distance of its K-th result, or a write tightens
      the regions around a vector. */
  datatype Op = Read(key: Key, K: nat) | Miss(key: Key, K: nat, d: real) | Write(keys: set<Key>)

  datatype Config = Config(max: nat, p: real, alpha: real)

  predicate Sane(c: Config) {
    0.0 <= c.p <= 1.0 && 0.0 < c.alpha < 1.0
  }

  ghost predicate Legal(ops: seq<Op>) {
    forall i | 0 <= i < |ops| && ops[i].Miss? :: ops[i].d >= 0.0
  }

  function Apply(c: Config, s: Store, op: Op): Store {
    match op
    case Read(key, K) => Look(s, key, K, c.max)
    case Miss(key, K, d) => Learn(s, key, K, d, c.p, c.max)
    case Write(keys) => TightenSet(s, keys, c.alpha)
  }

  function Run(c: Config, ops: seq<Op>): Store {
    if ops == [] then Store(map[], map[], []) else Apply(c, Run(c, ops[..|ops| - 1]), ops[|ops| - 1])
  }

  /** The largest K-th distance that misses of `ops` learned for a region, 0 if none was. */
  function Largest(ops: seq<Op>, key: Key, K: nat): (m: real)
    ensures m >= 0.0
  {
    if ops == [] then 0.0
    else
      var m, op := Largest(ops[..|ops| - 1], key, K), ops[|ops| - 1];
      if op.Miss? && op.key == key && op.K == K && op.d > m then op.d else m
  }

  /** How often a region was scaled since it was last learned, or since it was created. */
  function Scalings(c: Config, ops: seq<Op>, key: Key): nat {
    if ops == [] then 0
    else
      var s, n, op := Run(c, ops[..|ops| - 1]), Scalings(c, ops[..|ops| - 1], key), ops[|ops| - 1];
      if key !in s.theta || (op.Miss? && op.key == key) then 0
      else if op.Write? && key in Tightened(s, op.keys, c.alpha) then n + 1
      else n
  }

  // ---------------------------------------------------------------- thresholds

  ghost predicate EntryOk(entry: map<nat, Theta>, ops: seq<Op>, key: Key) {
    forall K: nat | K in entry :: Fits(entry[K], Largest(ops, key, K))
  }

  predicate Fits(t: Theta, m: real) {
    t.Value? ==> 0.0 <= t.v <= m
  }

  ghost predicate ThetaOk(s: Store, ops: seq<Op>) {
    forall key | key in s.theta :: EntryOk(s.theta[key], ops, key)
  }

  /** More history never lowers the largest distance. */
  lemma MoreHistory(entry: map<nat, Theta>, ops: seq<Op>, op: Op, key: Key)
    requires EntryOk(entry, ops, key)
    ensures EntryOk(entry, ops + [op], key)
  {
    assert (ops + [op])[..|ops|] == ops;
  }

  lemma LearnedEntry(entry: map<nat, Theta>, ops: seq<Op>, key: Key, K: nat, d: real, p: real)
    requires EntryOk(entry, ops, key) && d >= 0.0 && 0.0 <= p <= 1.0
    ensures EntryOk(SetTheta(entry, K, Value(Average(ThetaAt(entry, K), d, p))), ops + [Miss(key, K, d)], key)
  {
    var op := Miss(key, K, d);
    MoreHistory(entry, ops, op, key);
    assert (ops + [op])[..|ops|] == ops;
    Averaged(ThetaAt(entry, K), d, p, Largest(ops + [op], key, K));
  }

  lemma ScaledTheta(t: Theta, alpha: real, m: real)
    requires Fits(t, m) && 0.0 < alpha < 1.0
    ensures Fits(Scale(t, alpha), m)
  {
    if t.Value? { Shrunk(t.v, alpha, m); }
  }

  lemma ScaledEntry(entry: map<nat, Theta>, ops: seq<Op>, key: Key, alpha: real)
    requires EntryOk(entry, ops, key) && 0.0 < alpha < 1.0
    ensures EntryOk(Scaled(entry, alpha), ops, key)
  {
    forall K: nat | K in entry ensures Fits(Scale(entry[K], alpha), Largest(ops, key, K)) {
      ScaledTheta(entry[K], alpha, Largest(ops, key, K));
    }
  }

  lemma Product(a: real, x: real, m: real)
    requires a >= 0.0 && 0.0 <= x <= m
    ensures 0.0 <= a * x <= a * m
  {
    assert a * (m - x) >= 0.0;
  }

  lemma Chain(a: real, b: real, c: real)
    requires 0.0 <= a <= b <= c
    ensures 0.0 <= a <= c
  {}

  lemma Sum(a: real, b: real, c: real, d: real, m: real)
    requires 0.0 <= a <= c && 0.0 <= b <= d && c + d == m
    ensures 0.0 <= a + b <= m
  {}

  lemma Shares(p: real, q: real, m: real)
    requires p + q == 1.0
    ensures p * m + q * m == m
  {
    assert q == 1.0 - p;
    assert (1.0 - p) * m == m - p * m;
  }

  /** A weighted mean of two numbers within a bound is within it. */
  lemma Mean(p: real, q: real, x: real, y: real, m: real)
    requires p >= 0.0 && q >= 0.0 && p + q == 1.0
    requires 0.0 <= x <= m && 0.0 <= y <= m
    ensures 0.0 <= p * x + q * y <= m
  {
    Product(p, x, m);
    Product(q, y, m);
    Shares(p, q, m);
    Sum(p * x, q * y, p * m, q * m, m);
  }

  lemma Shrunk(v: real, alpha: real, m: real)
    requires 0.0 <= v <= m && 0.0 < alpha < 1.0
    ensures 0.0 <= v * alpha <= m
  {
    Product(v, alpha, 1.0);
    Chain(v * alpha, v * 1.0, m);
  }

  lemma Averaged(t: Theta, d: real, p: real, m: real)
    requires Fits(t, m) && 0.0 <= d <= m && 0.0 <= p <= 1.0
    ensures 0.0 <= Average(t, d, p) <= m
  {
    if t.Value? { Mean(p, 1.0 - p, d, t.v, m); }
  }

  lemma InitTheta(s: Store, key: Key, max: nat, ops: seq<Op>)
    requires ThetaOk(s, ops)
    ensures ThetaOk(LazyInit(s, key, max), ops)
  {
    forall k | k in LazyInit(s, key, max).theta ensures EntryOk(LazyInit(s, key, max).theta[k], ops, k) {
      if key in s.theta || k != key { assert EntryOk(s.theta[k], ops, k); }
    }
  }

  lemma StepTheta(c: Config, s: Store, ops: seq<Op>, op: Op)
    requires Sane(c) && ThetaOk(s, ops) && (op.Miss? ==> op.d >= 0.0)
    ensures ThetaOk(Apply(c, s, op), ops + [op])
  {
    var r := Apply(c, s, op);
    if !op.Write? { InitTheta(s, op.key, c.max, ops); }
    forall k | k in r.theta ensures EntryOk(r.theta[k], ops + [op], k) {
      match op
      case Read(key, K) => MoreHistory(LazyInit(s, key, c.max).theta[k], ops, op, k);
      case Miss(key, K, d) =>
        if k == key { LearnedEntry(LazyInit(s, key, c.max).theta[k], ops, k, K, d, c.p); }
        else { MoreHistory(LazyInit(s, key, c.max).theta[k], ops, op, k); }
      case Write(keys) =>
        if k in Tightened(s, keys, c.alpha) { ScaledEntry(s.theta[k], ops, k, c.alpha); }
        MoreHistory(r.theta[k], ops, op, k);
    }
  }

  lemma {:induction false} RunTheta(c: Config, ops: seq<Op>)
    requires Sane(c) && Legal(ops)
    ensures ThetaOk(Run(c, ops), ops)
  {
    if ops != [] {
      var front, op := ops[..|ops| - 1], ops[|ops| - 1];
      RunTheta(c, front);
      StepTheta(c, Run(c, front), front, op);
      assert ops == front + [op];
    }
  }

  /** Over any run, a threshold never exceeds the largest K-th distance learned for it. An unseeded K reads 0
      until it is learned. */
  lemma ThresholdsStayBelowWhatWasLearned(c: Config, ops: seq<Op>, key: Key, K: nat)
    requires Sane(c) && Legal(ops) && key in Run(c, ops).theta
    ensures var t := ThetaAt(Run(c, ops).theta[key], K); t.Value? ==> 0.0 <= t.v <= Largest(ops, key, K)
  {
    RunTheta(c, ops);
    assert EntryOk(Run(c, ops).theta[key], ops, key);
  }

  /** The largest distance is one that was learned, unless none above 0 was, and no miss of the region exceeds it. */
  lemma {:induction false} LargestIsLearned(ops: seq<Op>, key: Key, K: nat)
    ensures Largest(ops, key, K) == 0.0 || Miss(key, K, Largest(ops, key, K)) in ops
    ensures forall d | Miss(key, K, d) in ops :: d <= Largest(ops, key, K)
  {
    if ops != [] {
      LargestIsLearned(ops[..|ops| - 1], key, K);
      assert ops == ops[..|ops| - 1] + [ops[|ops| - 1]];
    }
  }

  // ---------------------------------------------------------------- convergence

  function Power(x: real, n: nat): real {
    if n == 0 then 1.0 else Power(x, n - 1) * x
  }

  /** v moved n times the share p of the way to d. */
  function Toward(v: real, d: real, p: real, n: nat): real {
    if n == 0 then v else Nearer(Toward(v, d, p, n - 1), d, p)
  }

  function Nearer(v: real, d: real, p: real): real {
    v + p * (d - v)
  }

  lemma GapStep(v: real, d: real, p: real, f: real, first: real)
    requires v - d == f * (first - d)
    ensures Nearer(v, d, p) - d == (f * (1.0 - p)) * (first - d)
  {
    var gap, q := first - d, 1.0 - p;
    assert Nearer(v, d, p) - d == q * (v - d);
    assert q * (f * gap) == (f * q) * gap;
  }

  lemma {:induction false} TowardCloses(v: real, d: real, p: real, n: nat)
    ensures Toward(v, d, p, n) - d == Power(1.0 - p, n) * (v - d)
  {
    if n != 0 {
      TowardCloses(v, d, p, n - 1);
      GapStep(Toward(v, d, p, n - 1), d, p, Power(1.0 - p, n - 1), v);
    }
  }

  lemma MissMoves(s: Store, key: Key, K: nat, v: real, d: real, p: real, max: nat)
    requires StoredAt(s.theta, key, K) == Some(Value(v))
    ensures StoredAt(Learn(s, key, K, d, p, max).theta, key, K) == Some(Value(Nearer(v, d, p)))
  {
    LearnMeans(s, key, K, d, p, max);
  }

  /** How many misses of a region and a K there are. */
  function Misses(ops: seq<Op>, key: Key, K: nat): nat {
    if ops == [] then 0
    else
      var op := ops[|ops| - 1];
      Misses(ops[..|ops| - 1], key, K) + if op.Miss? && op.key == key && op.K == K then 1 else 0
  }

  /** During `more` the region is not evicted, no write reaches it, and its misses learn the distance d. */
  ghost predicate Calm(c: Config, ops: seq<Op>, more: seq<Op>, key: Key, K: nat, d: real) {
    && (forall i: nat | i <= |more| :: key in Run(c, ops + more[..i]).theta)
    && (forall i: nat | i < |more| :: CalmOp(more[i], key, K, d))
  }

  predicate CalmOp(op: Op, key: Key, K: nat, d: real) {
    match op
    case Read(_, _) => true
    case Miss(k, J, e) => k == key && J == K ==> e == d
    case Write(keys) => key !in keys
  }

  lemma CalmFront(c: Config, ops: seq<Op>, more: seq<Op>, key: Key, K: nat, d: real)
    requires Calm(c, ops, more, key, K, d) && more != []
    ensures var front, op := more[..|more| - 1], more[|more| - 1];
      && Calm(c, ops, front, key, K, d) && CalmOp(op, key, K, d)
      && Run(c, ops + more) == Apply(c, Run(c, ops + front), op) && key in Run(c, ops + more).theta
  {
    var l := |more| - 1;
    assert (ops + more)[..|ops| + l] == ops + more[..l];
    assert more[..|more|] == more;
    forall i: nat | i <= l ensures key in Run(c, ops + more[..l][..i]).theta {
      assert more[..l][..i] == more[..i];
    }
  }

  /** Nothing else moves a stored threshold. */
  lemma OtherOp(c: Config, s: Store, op: Op, key: Key, K: nat, d: real)
    requires CalmOp(op, key, K, d) && StoredAt(s.theta, key, K) != None && key in Apply(c, s, op).theta
    requires !(op.Miss? && op.key == key && op.K == K)
    ensures StoredAt(Apply(c, s, op).theta, key, K) == StoredAt(s.theta, key, K)
  {}

  lemma {:induction false} MissesMove(c: Config, ops: seq<Op>, more: seq<Op>, key: Key, K: nat, v: real, d: real)
    requires StoredAt(Run(c, ops).theta, key, K) == Some(Value(v)) && Calm(c, ops, more, key, K, d)
    ensures StoredAt(Run(c, ops + more).theta, key, K) == Some(Value(Toward(v, d, c.p, Misses(more, key, K))))
    decreases |more|
  {
    if more == [] {
      assert ops + more == ops;
    } else {
      var front, op := more[..|more| - 1], more[|more| - 1];
      CalmFront(c, ops, more, key, K, d);
      MissesMove(c, ops, front, key, K, v, d);
      if op.Miss? && op.key == key && op.K == K {
        MissMoves(Run(c, ops + front), key, K, Toward(v, d, c.p, Misses(front, key, K)), d, c.p, c.max);
      } else {
        OtherOp(c, Run(c, ops + front), op, key, K, d);
      }
    }
  }

  /** While a region is not evicted and no write reaches it, n misses at one distance d shrink the gap between its
      threshold and d to the n-th power of 1 - p, whatever happens to other regions and other K in between. */
  lemma GapShrinks(c: Config, ops: seq<Op>, more: seq<Op>, key: Key, K: nat, v: real, d: real)
    returns (last: real, factor: real)
    requires StoredAt(Run(c, ops).theta, key, K) == Some(Value(v)) && Calm(c, ops, more, key, K, d)
    ensures StoredAt(Run(c, ops + more).theta, key, K) == Some(Value(last))
    ensures last - d == factor * (v - d) && factor == Power(1.0 - c.p, Misses(more, key, K))
  {
    last, factor := Closed(v, d, c.p, Misses(more, key, K));
    MissesMove(c, ops, more, key, K, v, d);
  }

  lemma Closed(v: real, d: real, p: real, n: nat) returns (last: real, factor: real)
    ensures last == Toward(v, d, p, n) && factor == Power(1.0 - p, n) && last - d == factor * (v - d)
  {
    last, factor := Toward(v, d, p, n), Power(1.0 - p, n);
    TowardCloses(v, d, p, n);
  }

  /** The first distance learned for an unset threshold becomes it. */
  lemma FirstIsTaken(c: Config, ops: seq<Op>, key: Key, K: nat, d: real)
    requires Found(Run(c, ops).theta, key, K).Unset?
    ensures StoredAt(Run(c, ops + [Miss(key, K, d)]).theta, key, K) == Some(Value(d))
  {
    assert (ops + [Miss(key, K, d)])[..|ops|] == ops;
    LearnMeans(Run(c, ops), key, K, d, c.p, c.max);
  }

  // ---------------------------------------------------------------- discounts

  /** Once scaled, a region's discount says so until the region is learned again. */
  ghost predicate DiscountsOk(c: Config, s: Store, ops: seq<Op>) {
    && s.discount.Keys <= s.theta.Keys
    && forall key | key in s.theta :: CountOk(c.alpha, DiscountAt(s, key), Scalings(c, ops, key))
  }

  predicate CountOk(alpha: real, discount: real, scalings: nat) {
    (scalings == 0 && discount == 1.0) || (scalings == 1 && discount == alpha)
  }

  /** Making room and adding a region: the others keep their discount, the new one has none. */
  lemma InitDiscount(s: Store, key: Key, max: nat)
    requires s.discount.Keys <= s.theta.Keys
    ensures var r := LazyInit(s, key, max);
      && r.discount.Keys <= r.theta.Keys
      && (key !in s.theta ==> key !in r.discount)
      && forall k | k in r.theta && (k != key || k in s.theta) :: k in s.theta && DiscountAt(r, k) == DiscountAt(s, k)
  {}

  lemma StepDiscounts(c: Config, ops: seq<Op>, op: Op)
    requires Sane(c) && DiscountsOk(c, Run(c, ops), ops)
    ensures DiscountsOk(c, Run(c, ops + [op]), ops + [op])
  {
    var s, r := Run(c, ops), Run(c, ops + [op]);
    assert (ops + [op])[..|ops|] == ops;
    if !op.Write? { InitDiscount(s, op.key, c.max); }
    forall k | k in r.theta ensures CountOk(c.alpha, DiscountAt(r, k), Scalings(c, ops + [op], k)) {
      if k in s.theta { assert CountOk(c.alpha, DiscountAt(s, k), Scalings(c, ops, k)); }
    }
  }

  lemma {:induction false} RunDiscounts(c: Config, ops: seq<Op>)
    requires Sane(c)
    ensures DiscountsOk(c, Run(c, ops), ops)
  {
    if ops != [] {
      RunDiscounts(c, ops[..|ops| - 1]);
      StepDiscounts(c, ops[..|ops| - 1], ops[|ops| - 1]);
      assert ops == ops[..|ops| - 1] + [ops[|ops| - 1]];
    }
  }

  /** Between two times it is learned, a region is scaled at most once; while it is scaled, writes leave it be. */
  lemma ScaledAtMostOnce(c: Config, ops: seq<Op>, key: Key, keys: set<Key>)
    requires Sane(c) && key in Run(c, ops).theta
    ensures Scalings(c, ops, key) <= 1
    ensures Scalings(c, ops, key) == 1 ==> key !in Tightened(Run(c, ops), keys, c.alpha)
  {
    RunDiscounts(c, ops);
    assert CountOk(c.alpha, DiscountAt(Run(c, ops), key), Scalings(c, ops, key));
  }

  // ---------------------------------------------------------------- insertion order

  /** The insertion order lists the stored regions, each once, and their number stays within the limit (a limit
      of 0 acts like 1, since room is made before a region is added). */
  ghost predicate OrderOk(s: Store, max: nat) {
    && NoRepeats(s.order)
    && (forall key :: key in s.theta <==> key in s.order)
    && |s.theta| <= if max == 0 then 1 else max
  }

  lemma {:induction false} Lengths(s: Store)
    requires NoRepeats(s.order) && forall key :: key in s.theta <==> key in s.order
    ensures |s.theta| == |s.order|
    decreases |s.order|
  {
    if s.order == [] {
      assert s.theta == map[];
    } else {
      var e := DropOldest(s);
      assert s.theta.Keys == e.theta.Keys + {s.order[0]};
      Lengths(e);
    }
  }

  lemma InitOrder(s: Store, key: Key, max: nat)
    requires OrderOk(s, max)
    ensures OrderOk(LazyInit(s, key, max), max)
  {
    if key !in s.theta {
      var r := LazyInit(s, key, max);
      Lengths(s);
      Lengths(r);
    }
  }

  lemma {:induction false} RunOrder(c: Config, ops: seq<Op>)
    ensures OrderOk(Run(c, ops), c.max)
  {
    if ops != [] {
      var s, op := Run(c, ops[..|ops| - 1]), ops[|ops| - 1];
      RunOrder(c, ops[..|ops| - 1]);
      if op.Write? {
        assert Apply(c, s, op).theta.Keys == s.theta.Keys;
      } else {
        InitOrder(s, op.key, c.max);
        assert Apply(c, s, op).theta.Keys == LazyInit(s, op.key, c.max).theta.Keys;
      }
    }
  }
}
