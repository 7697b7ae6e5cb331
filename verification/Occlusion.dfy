/** Alpha pruning of a candidate list, occlude_list. The factors are IEEE quotients: dividing a positive
    distance by zero gives infinity, and 0/0 is not a number, which std::max ignores. */
module Occlusion {
  import opened Neighbors

  datatype Factor = Finite(r: real) | Infinite

  predicate Exceeds(f: Factor, a: real) {
    f.Infinite? || f.r > a
  }

  /** Whether num/den exceeds a. */
  predicate QuotientExceeds(num: real, den: real, a: real) {
    if den == 0.0 then num > 0.0 else num / den > a
  }

  /** Without the division: being more than a times as far. */
  lemma QuotientMeans(num: real, den: real, a: real)
    requires den >= 0.0
    ensures QuotientExceeds(num, den, a) <==> if den == 0.0 then num > 0.0 else num > a * den
  {
    if den > 0.0 {
      var q := num / den;
      assert num == q * den;
      if q > a {
        assert (q - a) * den > 0.0;
      } else {
        assert (a - q) * den >= 0.0;
      }
    }
  }

  /** std::max(f, num/den). */
  function MaxQuotient(f: Factor, num: real, den: real): (r: Factor)
    ensures forall a :: Exceeds(r, a) <==> Exceeds(f, a) || QuotientExceeds(num, den, a)
  {
    if f.Infinite? || (den == 0.0 && num <= 0.0) then f
    else if den == 0.0 then Infinite
    else if f.r < num / den then Finite(num / den) else f
  }

  /** The candidates, their mutual distances and the parameters of a call. */
  datatype Problem = Problem(pool: seq<Neighbor>, dist: (nat, nat) -> real, alpha: real, degree: nat, maxc: nat) {
    function Limit(): nat {
      if maxc < |pool| then maxc else |pool|
    }

    /** Candidate t is at least a times farther from the query than from candidate p. */
    predicate Occludes(p: nat, t: nat, a: real)
      requires p < |pool| && t < |pool|
    {
      QuotientExceeds(pool[t].distance, dist(pool[t].id, pool[p].id), a)
    }
  }

  /** What the pick of candidate p does to the factor of candidate t. */
  function Shaded(c: Problem, p: nat, t: nat, f: Factor): (r: Factor)
    requires p < c.Limit() && t < |c.pool|
    ensures forall a | a <= c.alpha :: Exceeds(r, a) <==> Exceeds(f, a) || (p < t < c.Limit() && c.Occludes(p, t, a))
    ensures f.Infinite? ==> r == f
  {
    if p < t < c.Limit() && !Exceeds(f, c.alpha)
    then MaxQuotient(f, c.pool[t].distance, c.dist(c.pool[t].id, c.pool[p].id))
    else f
  }

  /** The inner for loop: candidate p has been picked and occludes those behind it. */
  function Shade(c: Problem, p: nat, occ: seq<Factor>): (r: seq<Factor>)
    requires p < c.Limit() && |occ| == |c.pool|
    ensures |r| == |occ|
    ensures forall t | 0 <= t < |occ| :: r[t] == Shaded(c, p, t, occ[t])
  {
    seq(|occ|, t requires 0 <= t < |occ| => Shaded(c, p, t, occ[t]))
  }

  /** One pass over the candidates from `start` on. `picks` are positions in the pool. */
  function Scan(c: Problem, cur: real, start: nat, occ: seq<Factor>, picks: seq<nat>): (r: (seq<Factor>, seq<nat>))
    requires |occ| == |c.pool|
    ensures |r.0| == |occ|
    decreases c.Limit() - start
  {
    if |picks| < c.degree && start < c.Limit() then
      if Exceeds(occ[start], cur) then Scan(c, cur, start + 1, occ, picks)
      else Scan(c, cur, start + 1, Shade(c, start, occ[start := Infinite]), picks + [start])
    else (occ, picks)
  }

  /** The outer loop: passes at growing alpha. */
  function Passes(c: Problem, cur: real, occ: seq<Factor>, picks: seq<nat>): (r: seq<nat>)
    requires |occ| == |c.pool| && cur >= 1.0
    decreases (c.alpha - cur) * 5.0
  {
    if cur <= c.alpha && |picks| < c.degree then
      var s := Scan(c, cur, 0, occ, picks);
      Passes(c, cur * 1.2, s.0, s.1)
    else picks
  }

  function NoFactors(n: nat): (r: seq<Factor>)
    ensures |r| == n
  {
    seq(n, _ => Finite(0.0))
  }

  function Picks(c: Problem): seq<nat> {
    Passes(c, 1.0, NoFactors(|c.pool|), [])
  }

  ghost predicate InRange(picks: seq<nat>, n: nat) {
    forall i | 0 <= i < |picks| :: picks[i] < n
  }

  function Chosen(c: Problem, picks: seq<nat>): (r: seq<Neighbor>)
    requires forall i | 0 <= i < |picks| :: picks[i] < |c.pool|
    ensures |r| == |picks| && forall i | 0 <= i < |r| :: r[i] == c.pool[picks[i]]
  {
    seq(|picks|, i requires 0 <= i < |picks| => c.pool[picks[i]])
  }

  // ---------------------------------------------------------------- which candidates are picked

  /** The k-th alpha that is tried. */
  function Step(k: nat): (a: real)
    ensures a >= 1.0
  {
    if k == 0 then 1.0 else Step(k - 1) * 1.2
  }

  /** No pick that lies before candidate t occludes it at alpha a. */
  ghost predicate Free(c: Problem, picks: seq<nat>, t: nat, a: real)
    requires t < |c.pool| && InRange(picks, |c.pool|)
  {
    forall i | 0 <= i < |picks| && picks[i] < t :: !c.Occludes(picks[i], t, a)
  }

  ghost predicate NothingFree(c: Problem, picks: seq<nat>, a: real)
    requires InRange(picks, |c.pool|)
  {
    forall t: nat | t < |c.pool| && t < c.maxc && t !in picks :: !Free(c, picks, t, a)
  }

  /** After `picks`, t is the first candidate that is free at the first alpha at which any is. */
  ghost predicate Next(c: Problem, picks: seq<nat>, t: nat, k: nat)
    requires InRange(picks, |c.pool|)
  {
    && t < |c.pool| && t < c.maxc && t !in picks && Step(k) <= c.alpha
    && Free(c, picks, t, Step(k))
    && (forall u: nat | u < t && u !in picks :: !Free(c, picks, u, Step(k)))
    && forall m: nat | m < k :: NothingFree(c, picks, Step(m))
  }

  ghost predicate IsNext(c: Problem, picks: seq<nat>, j: nat)
    requires InRange(picks, |c.pool|) && j < |picks|
  {
    exists k: nat :: Next(c, picks[..j], picks[j], k)
  }

  /** Every pick is the next one after those before it. */
  ghost predicate Ruled(c: Problem, picks: seq<nat>) {
    InRange(picks, |c.pool|) && forall j: nat | j < |picks| :: IsNext(c, picks, j)
  }

  /** And there are as many as the degree allows, or nothing is left at any alpha. */
  ghost predicate Greedy(c: Problem, picks: seq<nat>) {
    && |picks| <= c.degree && Ruled(c, picks)
    && (|picks| < c.degree ==> forall k: nat | Step(k) <= c.alpha :: NothingFree(c, picks, Step(k)))
  }

  lemma SameNext(c: Problem, picks: seq<nat>, t: nat, k: nat, u: nat, m: nat)
    requires InRange(picks, |c.pool|) && Next(c, picks, t, k) && Next(c, picks, u, m)
    ensures t == u && k == m
  {
    assert k < m ==> NothingFree(c, picks, Step(k));
    assert m < k ==> NothingFree(c, picks, Step(m));
  }

  /** This leaves no choice. */
  lemma GreedyIsUnique(c: Problem, a: seq<nat>, b: seq<nat>)
    requires Greedy(c, a) && Greedy(c, b)
    ensures a == b
  {
    var n := if |a| < |b| then |a| else |b|;
    SamePrefix(c, a, b, n);
    if |a| < |b| {
      Unfinished(c, a, b);
    } else if |b| < |a| {
      Unfinished(c, b, a);
    }
  }

  lemma {:induction false} SamePrefix(c: Problem, a: seq<nat>, b: seq<nat>, n: nat)
    requires Greedy(c, a) && Greedy(c, b) && n <= |a| && n <= |b|
    ensures a[..n] == b[..n]
  {
    if n > 0 {
      SamePrefix(c, a, b, n - 1);
      SameAt(c, a, b, n - 1);
      assert a[..n] == a[..n - 1] + [a[n - 1]] && b[..n] == b[..n - 1] + [b[n - 1]];
    }
  }

  lemma SameAt(c: Problem, a: seq<nat>, b: seq<nat>, j: nat)
    requires Greedy(c, a) && Greedy(c, b) && j < |a| && j < |b| && a[..j] == b[..j]
    ensures a[j] == b[j]
  {
    assert IsNext(c, a, j) && IsNext(c, b, j);
    var k: nat :| Next(c, a[..j], a[j], k);
    var m: nat :| Next(c, b[..j], b[j], m);
    SameNext(c, a[..j], a[j], k, b[j], m);
  }

  lemma Unfinished(c: Problem, a: seq<nat>, b: seq<nat>)
    requires Greedy(c, a) && Greedy(c, b)
    ensures !(|a| < |b| && a == b[..|a|])
  {
    if |a| < |b| {
      assert IsNext(c, b, |a|);
      var k: nat :| Next(c, b[..|a|], b[|a|], k);
      assert NothingFree(c, a, Step(k));
    }
  }

  /** The factors say exactly which candidates are free, at every alpha up to the last. */
  ghost predicate Exact(c: Problem, occ: seq<Factor>, picks: seq<nat>)
    requires |occ| == |c.pool|
  {
    && (forall i | 0 <= i < |picks| :: picks[i] < c.Limit() && occ[picks[i]] == Infinite)
    && forall t, a | 0 <= t < c.Limit() && t !in picks && 0.0 <= a <= c.alpha ::
         Exceeds(occ[t], a) <==> !Free(c, picks, t, a)
  }

  /** More picks leave less. */
  lemma FewerFree(c: Problem, picks: seq<nat>, p: nat, t: nat, a: real)
    requires InRange(picks, |c.pool|) && InRange(picks + [p], |c.pool|) && p < |c.pool| && t < |c.pool|
    ensures Free(c, picks + [p], t, a) <==> Free(c, picks, t, a) && (p < t ==> !c.Occludes(p, t, a))
  {
    var more := picks + [p];
    assert more[|picks|] == p && forall i | 0 <= i < |picks| :: more[i] == picks[i];
  }

  lemma PickKeepsExact(c: Problem, start: nat, occ: seq<Factor>, picks: seq<nat>)
    requires |occ| == |c.pool| && Exact(c, occ, picks) && start < c.Limit() && start !in picks
    ensures Exact(c, Shade(c, start, occ[start := Infinite]), picks + [start])
  {
    var occ' := Shade(c, start, occ[start := Infinite]);
    forall t, a | 0 <= t < c.Limit() && t !in picks + [start] && 0.0 <= a <= c.alpha
      ensures Exceeds(occ'[t], a) <==> !Free(c, picks + [start], t, a)
    {
      FewerFree(c, picks, start, t, a);
      assert occ'[t] == Shaded(c, start, t, occ[t]);
    }
  }

  /** Nothing is free at the alphas before the k-th, nor before `start` at the k-th. */
  ghost predicate Passed(c: Problem, k: nat, start: nat, picks: seq<nat>)
    requires InRange(picks, |c.pool|)
  {
    && (forall m: nat | m < k :: NothingFree(c, picks, Step(m)))
    && forall u: nat | u < start && u < c.Limit() && u !in picks :: !Free(c, picks, u, Step(k))
  }

  /** What holds while the pass at the k-th alpha stands at `start`. */
  ghost predicate Scanning(c: Problem, k: nat, start: nat, occ: seq<Factor>, picks: seq<nat>) {
    |occ| == |c.pool| && Exact(c, occ, picks) && |picks| <= c.degree && Ruled(c, picks) && Passed(c, k, start, picks)
  }

  lemma FewerLeft(c: Problem, picks: seq<nat>, p: nat, a: real)
    requires InRange(picks, |c.pool|) && InRange(picks + [p], |c.pool|) && p < |c.pool| && NothingFree(c, picks, a)
    ensures NothingFree(c, picks + [p], a)
  {
    forall t: nat | t < |c.pool| && t < c.maxc && t !in picks + [p] ensures !Free(c, picks + [p], t, a) {
      FewerFree(c, picks, p, t, a);
    }
  }

  lemma PassedGrows(c: Problem, k: nat, start: nat, picks: seq<nat>)
    requires InRange(picks, |c.pool|) && Passed(c, k, start, picks) && start < c.Limit()
    ensures InRange(picks + [start], |c.pool|) && Passed(c, k, start + 1, picks + [start])
  {
    var more := picks + [start];
    forall m: nat | m < k ensures NothingFree(c, more, Step(m)) { FewerLeft(c, picks, start, Step(m)); }
    forall u: nat | u < start + 1 && u < c.Limit() && u !in more ensures !Free(c, more, u, Step(k)) {
      assert more[|picks|] == start;
      FewerFree(c, picks, start, u, Step(k));
    }
  }

  lemma RuledGrows(c: Problem, picks: seq<nat>, t: nat, k: nat)
    requires Ruled(c, picks) && Next(c, picks, t, k)
    ensures Ruled(c, picks + [t])
  {
    var more := picks + [t];
    assert InRange(more, |c.pool|);
    forall j: nat | j < |more| ensures IsNext(c, more, j) {
      if j == |picks| {
        assert more[..j] == picks;
        assert Next(c, more[..j], more[j], k);
      } else {
        assert more[..j] == picks[..j] && IsNext(c, picks, j);
      }
    }
  }

  lemma PickIsNext(c: Problem, k: nat, start: nat, occ: seq<Factor>, picks: seq<nat>)
    requires Scanning(c, k, start, occ, picks) && start < c.Limit()
    requires Step(k) <= c.alpha && !Exceeds(occ[start], Step(k))
    ensures start !in picks && Next(c, picks, start, k)
  {
    assert forall i | 0 <= i < |picks| :: picks[i] != start;
  }

  lemma PickKeepsScanning(c: Problem, k: nat, start: nat, occ: seq<Factor>, picks: seq<nat>)
    requires Scanning(c, k, start, occ, picks) && start < c.Limit()
    requires Step(k) <= c.alpha && !Exceeds(occ[start], Step(k))
    requires |picks| < c.degree
    ensures Scanning(c, k, start + 1, Shade(c, start, occ[start := Infinite]), picks + [start])
  {
    PickIsNext(c, k, start, occ, picks);
    PickKeepsExact(c, start, occ, picks);
    PassedGrows(c, k, start, picks);
    RuledGrows(c, picks, start, k);
  }

  lemma SkipKeepsScanning(c: Problem, k: nat, start: nat, occ: seq<Factor>, picks: seq<nat>)
    requires Scanning(c, k, start, occ, picks) && start < c.Limit()
    requires Step(k) <= c.alpha && Exceeds(occ[start], Step(k))
    ensures Scanning(c, k, start + 1, occ, picks)
  {}

  lemma PassDone(c: Problem, k: nat, start: nat, occ: seq<Factor>, picks: seq<nat>)
    requires Scanning(c, k, start, occ, picks) && start >= c.Limit()
    ensures Scanning(c, k + 1, 0, occ, picks)
  {
    forall m: nat | m < k + 1 ensures NothingFree(c, picks, Step(m)) {
      if m == k { assert NothingFree(c, picks, Step(k)); }
    }
  }

  lemma {:induction false} ScanIsRuled(c: Problem, k: nat, start: nat, occ: seq<Factor>, picks: seq<nat>)
    requires Scanning(c, k, start, occ, picks) && Step(k) <= c.alpha
    ensures var (occ', picks') := Scan(c, Step(k), start, occ, picks);
      |picks'| <= c.degree && Ruled(c, picks') && (|picks'| < c.degree ==> Scanning(c, k + 1, 0, occ', picks'))
    decreases c.Limit() - start
  {
    if |picks| < c.degree && start < c.Limit() {
      if Exceeds(occ[start], Step(k)) {
        SkipKeepsScanning(c, k, start, occ, picks);
        ScanIsRuled(c, k, start + 1, occ, picks);
      } else {
        PickKeepsScanning(c, k, start, occ, picks);
        ScanIsRuled(c, k, start + 1, Shade(c, start, occ[start := Infinite]), picks + [start]);
      }
    } else if |picks| < c.degree {
      PassDone(c, k, start, occ, picks);
    }
  }

  /** The alphas grow. */
  lemma {:induction false} StepsGrow(k: nat, m: nat)
    requires k <= m
    ensures Step(k) <= Step(m)
  {
    if k < m { StepsGrow(k, m - 1); }
  }

  lemma {:induction false} PassesAreGreedy(c: Problem, k: nat, occ: seq<Factor>, picks: seq<nat>)
    requires |occ| == |c.pool| && |picks| <= c.degree && Ruled(c, picks)
    requires |picks| < c.degree ==> Scanning(c, k, 0, occ, picks)
    ensures Greedy(c, Passes(c, Step(k), occ, picks))
    decreases (c.alpha - Step(k)) * 5.0
  {
    if Step(k) <= c.alpha && |picks| < c.degree {
      ScanIsRuled(c, k, 0, occ, picks);
      var s := Scan(c, Step(k), 0, occ, picks);
      assert Step(k + 1) == Step(k) * 1.2;
      PassesAreGreedy(c, k + 1, s.0, s.1);
    } else if |picks| < c.degree {
      forall m: nat | Step(m) <= c.alpha ensures NothingFree(c, picks, Step(m)) {
        if k <= m { StepsGrow(k, m); }
      }
    }
  }

  /** The passes pick exactly these: at each moment the first candidate that is free at the smallest alpha at which
      one is. */
  lemma PicksAreGreedy(c: Problem, picks: seq<nat>)
    ensures Greedy(c, picks) <==> picks == Picks(c)
  {
    var occ := NoFactors(|c.pool|);
    assert Exact(c, occ, []);
    PassesAreGreedy(c, 0, occ, []);
    if Greedy(c, picks) { GreedyIsUnique(c, picks, Picks(c)); }
  }

  /** What a finished call guarantees: no position twice, no more than `degree`, and no pick occluded at
      alpha by an earlier pick that lies before it. If it stopped short, some alpha was tried, the last
      one within a factor 1.2 of the limit, and every candidate left out is occluded at that alpha by a
      pick nearer to the query. */
  ghost predicate Pruned(c: Problem, picks: seq<nat>, last: real) {
    && |picks| <= c.degree
    && (forall i | 0 <= i < |picks| :: picks[i] < c.Limit())
    && (forall i, j | 0 <= i < j < |picks| :: picks[i] != picks[j])
    && (forall i, j | 0 <= i < j < |picks| && picks[i] < picks[j] :: !c.Occludes(picks[i], picks[j], c.alpha))
    && (|picks| < c.degree && c.alpha >= 1.0 ==>
          && 1.0 <= last <= c.alpha < last * 1.2
          && forall t | 0 <= t < c.Limit() && t !in picks ::
               exists p :: p in picks && p < t && c.Occludes(p, t, last))
  }

  /** The last alpha tried if the degree is not reached. */
  lemma LastStep(alpha: real, k: nat) returns (m: nat)
    requires Step(k) <= alpha
    ensures Step(m) <= alpha < Step(m) * 1.2
    decreases (alpha - Step(k)) * 5.0
  {
    m := k;
    if Step(k) * 1.2 <= alpha {
      assert Step(k + 1) == Step(k) * 1.2;
      m := LastStep(alpha, k + 1);
    }
  }

  lemma PicksDiffer(c: Problem, picks: seq<nat>, i: nat, j: nat)
    requires Ruled(c, picks) && i < j < |picks|
    ensures picks[i] != picks[j] && picks[j] < c.Limit()
    ensures picks[i] < picks[j] ==> !c.Occludes(picks[i], picks[j], c.alpha)
  {
    assert IsNext(c, picks, j);
    var k: nat :| Next(c, picks[..j], picks[j], k);
    assert picks[..j][i] == picks[i];
    assert picks[i] < picks[j] ==> !c.Occludes(picks[i], picks[j], Step(k));
  }

  lemma PruningWorks(c: Problem) returns (last: real)
    ensures Pruned(c, Picks(c), last)
    ensures Picks(c) != [] <==> c.alpha >= 1.0 && c.degree > 0 && c.Limit() > 0
    ensures Picks(c) != [] ==> Picks(c)[0] == 0
  {
    var picks := Picks(c);
    PicksAreGreedy(c, picks);
    forall j: nat | j < |picks| ensures picks[j] < c.Limit() {
      assert IsNext(c, picks, j);
    }
    forall i: nat, j: nat | i < j < |picks|
      ensures picks[i] != picks[j] && (picks[i] < picks[j] ==> !c.Occludes(picks[i], picks[j], c.alpha))
    {
      PicksDiffer(c, picks, i, j);
    }
    last := 1.0;
    assert Step(0) == 1.0;
    if |picks| < c.degree && c.alpha >= 1.0 {
      var m := LastStep(c.alpha, 0);
      last := Step(m);
      forall t | 0 <= t < c.Limit() && t !in picks ensures exists p :: p in picks && p < t && c.Occludes(p, t, last) {
        assert NothingFree(c, picks, Step(m));
      }
    }
    FirstPick(c, picks);
  }

  lemma FirstPick(c: Problem, picks: seq<nat>)
    requires Greedy(c, picks)
    ensures picks != [] <==> c.alpha >= 1.0 && c.degree > 0 && c.Limit() > 0
    ensures picks != [] ==> picks[0] == 0
  {
    assert Step(0) == 1.0;
    if c.Limit() > 0 { assert Free(c, [], 0, Step(0)); }
    if picks != [] {
      assert IsNext(c, picks, 0) && picks[..0] == [];
      var k: nat :| Next(c, [], picks[0], k);
      assert k > 0 ==> NothingFree(c, [], Step(0));
    } else if c.alpha >= 1.0 && c.degree > 0 {
      assert NothingFree(c, [], Step(0));
    }
  }

  /** occlude_list, on factors that start at zero. */
  method OccludeList(c: Problem) returns (result: seq<Neighbor>)
    ensures Greedy(c, Picks(c)) && result == Chosen(c, Picks(c))
  {
    PicksAreGreedy(c, Picks(c));
    FirstPick(c, Picks(c));
    result := [];
    var pool, alpha := c.pool, c.alpha;
    if pool == [] {
      return;
    }
    var factor := new Factor[|pool|](_ => Finite(0.0));
    assert factor[..] == NoFactors(|pool|);
    ghost var picks: seq<nat> := [];
    var curAlpha := 1.0;
    while curAlpha <= alpha && |result| < c.degree
      invariant curAlpha >= 1.0 && factor.Length == |pool|
      invariant Passes(c, curAlpha, factor[..], picks) == Picks(c)
      invariant InRange(picks, |pool|) && result == Chosen(c, picks)
      decreases (alpha - curAlpha) * 5.0
    {
      ghost var goal := Scan(c, curAlpha, 0, factor[..], picks);
      var start := 0;
      while |result| < c.degree && start < |pool| && start < c.maxc
        invariant 0 <= start && factor.Length == |pool|
        invariant Scan(c, curAlpha, start, factor[..], picks) == goal
        invariant InRange(picks, |pool|) && result == Chosen(c, picks)
        decreases |pool| - start
      {
        if !Exceeds(factor[start], curAlpha) {
          ShadeInPlace(c, start, factor);
          result := result + [pool[start]];
          picks := picks + [start];
        }
        start := start + 1;
      }
      curAlpha := curAlpha * 1.2;
    }
  }

  /** Marks candidate p as picked and raises the factors behind it. */
  method ShadeInPlace(c: Problem, p: nat, factor: array<Factor>)
    requires p < c.Limit() && factor.Length == |c.pool|
    modifies factor
    ensures factor[..] == Shade(c, p, old(factor[..])[p := Infinite])
  {
    ghost var was := factor[..][p := Infinite];
    factor[p] := Infinite;
    var t := p + 1;
    while t < |c.pool| && t < c.maxc
      invariant p < t <= factor.Length
      invariant forall k | 0 <= k < factor.Length ::
        factor[k] == if k < t && k < c.Limit() then Shaded(c, p, k, was[k]) else was[k]
    {
      if !Exceeds(factor[t], c.alpha) {
        var djk := c.dist(c.pool[t].id, c.pool[p].id);
        factor[t] := MaxQuotient(factor[t], c.pool[t].distance, djk);
      }
      t := t + 1;
    }
  }
}
