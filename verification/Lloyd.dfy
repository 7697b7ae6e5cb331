/** Lloyd's k-means as the index builder runs it, in exact reals: nearest centres through the norm expansion,
    block by block; centres moved to the means; rounds until the residual stops falling. A row of a row-major
    matrix is one element here. */
module Lloyd {
  import opened Base
  import opened Vectors
  import opened Clusters

  const FLT_MAX: real := 340282346638528859811704183484516925440.0
  const FLT_EPSILON: real := 0.00000011920928955078125
  const BLOCK: nat := 8388608

  ghost predicate NormsOf(norms: seq<real>, data: seq<Point>) {
    |norms| == |data| && forall d | 0 <= d < |data| :: norms[d] == Dot(data[d], data[d])
  }

  method CalcDistance(u: Point, v: Point) returns (d: real)
    requires |u| == |v|
    ensures d == Dist(u, v)
  {
    d := 0.0;
    for j := 0 to |u|
      invariant d == Dist(u[..j], v[..j])
    {
      d := d + (u[j] - v[j]) * (u[j] - v[j]);
      assert u[..j + 1][..j] == u[..j] && v[..j + 1][..j] == v[..j];
    }
    assert u[..|u|] == u && v[..|u|] == v;
  }

  /** compute_vecs_l2sq. */
  method VecsL2Sq(data: seq<Point>) returns (norms: seq<real>)
    ensures NormsOf(norms, data)
  {
    norms := [];
    for i := 0 to |data|
      invariant |norms| == i && forall d | 0 <= d < i :: norms[d] == Dot(data[d], data[d])
    {
      norms := norms + [Dot(data[i], data[i])];
    }
  }

  /** The scan of one row of the distance matrix: None is a minimum above every distance. */
  method NearestCenter(x: Point, norm: real, centers: seq<Point>, centerNorms: seq<real>) returns (c: nat)
    requires Points(centers, |x|) && centers != [] && norm == Dot(x, x) && NormsOf(centerNorms, centers)
    ensures IsNearest(x, centers, c)
  {
    c := 0;
    var min: Option<real> := None;
    for j := 0 to |centers|
      invariant c < |centers| && (min.None? <==> j == 0)
      invariant j > 0 ==> c < j && min.value == Dist(x, centers[c])
      invariant forall m | 0 <= m < j :: Dist(x, centers[c]) <= Dist(x, centers[m])
      invariant forall m | 0 <= m < c :: Dist(x, centers[c]) < Dist(x, centers[m])
    {
      var current := norm + centerNorms[j] - 2.0 * Dot(x, centers[j]);
      NormExpansion(x, centers[j]);
      if min.None? || current < min.value {
        c := j;
        min := Some(current);
      }
    }
  }

  /** compute_closest_centers_in_block, for k = 1. */
  method ClosestInBlock(data: seq<Point>, start: nat, count: nat, dim: nat, centers: seq<Point>,
                        norms: seq<real>, centerNorms: seq<real>, index: array<nat>)
    requires Points(data, dim) && Points(centers, dim) && centers != []
    requires NormsOf(norms, data) && NormsOf(centerNorms, centers)
    requires start + count <= |data| && count <= index.Length
    modifies index
    ensures forall i | 0 <= i < count :: IsNearest(data[start + i], centers, index[i])
  {
    for i := 0 to count
      invariant forall m | 0 <= m < i :: IsNearest(data[start + m], centers, index[m])
    {
      var c := NearestCenter(data[start + i], norms[start + i], centers, centerNorms);
      index[i] := c;
    }
  }

  lemma Blocks(n: nat, block: nat, blocks: nat)
    requires block > 0 && blocks == if n % block == 0 then n / block else n / block + 1
    ensures n <= blocks * block
  {
    assert n == (n / block) * block + n % block;
    assert (n / block + 1) * block == (n / block) * block + block;
  }

  /** Every centre's list names the points given to it, in whatever order they were pushed. */
  ghost predicate Inverts(inverted: seq<seq<nat>>, a: seq<nat>) {
    forall c | 0 <= c < |inverted| :: multiset(inverted[c]) == multiset(Members(a, c))
  }

  /** So a list names exactly the points of its centre, each once. */
  lemma ListsAreClusters(inverted: seq<seq<nat>>, a: seq<nat>, c: nat)
    requires Inverts(inverted, a) && c < |inverted|
    ensures NoRepeats(inverted[c]) && forall d: nat :: d in inverted[c] <==> d < |a| && a[d] == c
  {
    MembersAre(a, c);
    PermutedNoRepeats(Members(a, c), inverted[c]);
    forall d: nat ensures d in inverted[c] <==> d in Members(a, c) {
      assert d in multiset(inverted[c]) <==> d in multiset(Members(a, c));
    }
  }

  /** One more point is pushed on its centre's list. */
  lemma PushOne(inverted: seq<seq<nat>>, a: seq<nat>, c: nat)
    requires Inverts(inverted, a) && c < |inverted|
    ensures Inverts(inverted[c := inverted[c] + [|a|]], a + [c])
  {
    assert (a + [c])[..|a|] == a;
  }

  /** compute_closest_centers, for k = 1: blocks of at most 2^23 points. */
  method ClosestCenters(data: seq<Point>, dim: nat, centers: seq<Point>, norms: seq<real>,
                        closest: array<nat>, inverted: array<seq<nat>>)
    requires Points(data, dim) && Points(centers, dim) && data != [] && centers != [] && NormsOf(norms, data)
    requires closest.Length == |data| && inverted.Length == |centers|
    requires forall c | 0 <= c < |centers| :: inverted[c] == []
    modifies closest, inverted
    ensures AllNearest(data, centers, closest[..], dim)
    ensures Inverts(inverted[..], closest[..])
  {
    var n := |data|;
    var block := if BLOCK < n then BLOCK else n;
    var blocks := if n % block == 0 then n / block else n / block + 1;
    Blocks(n, block, blocks);
    var centerNorms := VecsL2Sq(centers);
    var scratch := new nat[block];
    var start := 0;
    for cur := 0 to blocks
      invariant start == if cur * block < n then cur * block else n
      invariant AllNearest(data, centers, closest[..start], dim)
      invariant Inverts(inverted[..], closest[..start])
    {
      var end := if start + block < n then start + block else n;
      ClosestInBlock(data, start, end - start, dim, centers, norms, centerNorms, scratch);
      CopyBlock(data, dim, centers, scratch, start, end, closest, inverted);
      start := end;
    }
    assert closest[..n] == closest[..];
  }

  /** The block's answers are copied out and the lists extended. */
  method CopyBlock(data: seq<Point>, dim: nat, centers: seq<Point>, scratch: array<nat>, start: nat, end: nat,
                   closest: array<nat>, inverted: array<seq<nat>>)
    requires Points(data, dim) && Points(centers, dim) && start <= end <= |data| == closest.Length
    requires inverted.Length == |centers| && end - start <= scratch.Length && scratch != closest
    requires forall i | 0 <= i < end - start :: IsNearest(data[start + i], centers, scratch[i])
    requires AllNearest(data, centers, closest[..start], dim) && Inverts(inverted[..], closest[..start])
    modifies closest, inverted
    ensures AllNearest(data, centers, closest[..end], dim) && Inverts(inverted[..], closest[..end])
  {
    for j := start to end
      invariant AllNearest(data, centers, closest[..j], dim)
      invariant Inverts(inverted[..], closest[..j])
    {
      var id := scratch[j - start];
      assert IsNearest(data[start + (j - start)], centers, id);
      PushOne(inverted[..], closest[..j], id);
      closest[j] := id;
      inverted[id] := inverted[id] + [j];
      assert closest[..j + 1] == closest[..j] + [id];
    }
  }

  /** The mean of a list's points, coordinate by coordinate; the origin for an empty list. */
  method MeanOf(data: seq<Point>, docs: seq<nat>, dim: nat) returns (center: Point)
    requires Fits(data, docs, dim)
    ensures center == CenterOf(data, docs, dim)
  {
    var sum := Zero(dim);
    for i := 0 to |docs|
      invariant sum == SumOf(data, docs[..i], dim)
    {
      sum := Plus(sum, data[docs[i]]);
      assert docs[..i + 1][..i] == docs[..i];
    }
    assert docs[..|docs|] == docs;
    center := Zero(dim);
    if |docs| > 0 {
      center := seq(dim, j requires 0 <= j < dim => sum[j] / |docs| as real);
    }
  }

  lemma SameCenter(data: seq<Point>, a: seq<nat>, b: seq<nat>, dim: nat)
    requires Fits(data, a, dim) && multiset(a) == multiset(b)
    ensures Fits(data, b, dim) && CenterOf(data, a, dim) == CenterOf(data, b, dim)
  {
    forall i | 0 <= i < |b| ensures b[i] < |data| {
      assert b[i] in multiset(b);
      assert b[i] in a;
    }
    SumIgnoresOrder(data, a, b, dim);
    assert |multiset(a)| == |a| && |multiset(b)| == |b|;
  }

  lemma EmptyCluster(data: seq<Point>, a: seq<nat>, b: seq<nat>, dim: nat)
    requires Fits(data, a, dim) && multiset(a) == multiset(b) && b == []
    ensures CenterOf(data, a, dim) == seq(dim, _ => 0.0)
  {
    assert |multiset(a)| == |a|;
    forall j: nat | j < dim ensures CenterOf(data, a, dim)[j] == 0.0 { CenterMeans(data, a, dim, j); }
  }

  method MoveCenters(data: seq<Point>, dim: nat, centers: array<Point>, inverted: seq<seq<nat>>, ghost a: seq<nat>)
    requires Points(data, dim) && |inverted| == centers.Length && Assigns(a, data, centers.Length)
    requires Inverts(inverted, a)
    modifies centers
    ensures centers[..] == CentersOf(data, a, centers.Length, dim)
    ensures forall c | 0 <= c < centers.Length && inverted[c] == [] :: centers[c] == seq(dim, _ => 0.0)
  {
    ghost var means := CentersOf(data, a, centers.Length, dim);
    for c := 0 to centers.Length
      invariant forall k | 0 <= k < c :: centers[k] == means[k]
    {
      SameCenter(data, Members(a, c), inverted[c], dim);
      centers[c] := MeanOf(data, inverted[c], dim);
    }
    forall c | 0 <= c < centers.Length && inverted[c] == [] ensures centers[c] == seq(dim, _ => 0.0) {
      EmptyCluster(data, Members(a, c), inverted[c], dim);
    }
  }

  const CHUNK: nat := 16384

  function Total(parts: seq<real>): real {
    if parts == [] then 0.0 else Total(parts[..|parts| - 1]) + parts[|parts| - 1]
  }

  /** The residual, chunk by chunk. */
  method TotalResidual(data: seq<Point>, dim: nat, centers: seq<Point>, closest: seq<nat>) returns (residual: real)
    requires Points(data, dim) && Points(centers, dim) && |closest| == |data| && Assigns(closest, data, |centers|)
    ensures residual == Residual(data, centers, closest, dim)
  {
    var n := |data|;
    var chunks := n / CHUNK + if n % CHUNK == 0 then 0 else 1;
    var residuals: seq<real> := [];
    var d := 0;
    for chunk := 0 to chunks
      invariant |residuals| == chunk && d == if chunk * CHUNK < n then chunk * CHUNK else n
      invariant Total(residuals) == Residual(data, centers, closest[..d], dim)
    {
      var part := 0.0;
      while d < n && d < (chunk + 1) * CHUNK
        invariant d <= n && d <= (chunk + 1) * CHUNK
        invariant Total(residuals) + part == Residual(data, centers, closest[..d], dim)
      {
        var dist := CalcDistance(data[d], centers[closest[d]]);
        part := part + dist;
        assert closest[..d + 1][..d] == closest[..d];
        d := d + 1;
      }
      assert (residuals + [part])[..chunk] == residuals;
      residuals := residuals + [part];
    }
    assert closest[..n] == closest;
    residual := 0.0;
    for chunk := 0 to chunks
      invariant residual == Total(residuals[..chunk])
    {
      residual := residual + residuals[chunk];
      assert residuals[..chunk + 1][..chunk] == residuals[..chunk];
    }
    assert residuals[..chunks] == residuals;
  }

  /** What a round leaves: every point at its nearest old centre, every centre at the mean of its points, and the
      residual of that. */
  ghost predicate Round(data: seq<Point>, dim: nat, from: seq<Point>, centers: seq<Point>, a: seq<nat>, residual: real)
    requires Points(data, dim) && Points(from, dim)
  {
    && |a| == |data| && |centers| == |from|
    && Assigns(a, data, |from|) && AllNearest(data, from, a, dim)
    && centers == CentersOf(data, a, |from|, dim)
    && residual == Residual(data, centers, a, dim)
  }

  /** lloyds_iter. */
  method LloydsIter(data: seq<Point>, dim: nat, centers: array<Point>, norms: seq<real>,
                    closestDocs: array<seq<nat>>, closest: array<nat>) returns (residual: real)
    requires Points(data, dim) && Points(centers[..], dim) && data != [] && centers.Length > 0
    requires NormsOf(norms, data) && closest.Length == |data| && closestDocs.Length == centers.Length
    modifies centers, closestDocs, closest
    ensures Round(data, dim, old(centers[..]), centers[..], closest[..], residual)
    ensures Inverts(closestDocs[..], closest[..])
  {
    ghost var from := centers[..];
    Clear(closestDocs);
    ClosestCenters(data, dim, centers[..], norms, closest, closestDocs);
    ghost var a := closest[..];
    NearestAssigns(data, dim, from, a);
    MoveCenters(data, dim, centers, closestDocs[..], a);
    residual := TotalResidual(data, dim, centers[..], closest[..]);
  }

  method Clear(lists: array<seq<nat>>)
    modifies lists
    ensures forall c | 0 <= c < lists.Length :: lists[c] == []
  {
    for c := 0 to lists.Length
      invariant forall m | 0 <= m < c :: lists[m] == []
    {
      lists[c] := [];
    }
  }

  lemma NearestAssigns(data: seq<Point>, dim: nat, centers: seq<Point>, a: seq<nat>)
    requires Points(data, dim) && Points(centers, dim) && |a| <= |data| && AllNearest(data, centers, a, dim)
    ensures Assigns(a, data, |centers|)
  {
    forall d | 0 <= d < |a| ensures a[d] < |centers| { assert IsNearest(data[d], centers, a[d]); }
  }

  ghost predicate Descending(h: seq<real>) {
    forall i | 0 < i < |h| :: h[i] <= h[i - 1]
  }

  /** A round cut the residual by at least a hundred-thousandth of what is left, and something is left. */
  predicate Worthwhile(before: real, r: real) {
    r >= FLT_EPSILON && before - r >= 0.00001 * r
  }

  /** Another round follows the one with residual r, which came after `before` if it was not the first. */
  predicate GoesOn(first: bool, before: real, r: real) {
    if first then r >= FLT_EPSILON else Worthwhile(before, r)
  }

  lemma Ratio(x: real, r: real, t: real)
    requires r > 0.0
    ensures x / r < t <==> x < t * r
  {
    assert x == (x / r) * r;
    if x / r < t {
      assert (t - x / r) * r > 0.0;
    } else {
      assert (x / r - t) * r >= 0.0;
    }
  }

  /** The test for early termination. (A residual of 0 makes the float quotient infinite or not a number, and the
      second half of the test stops the loop.) */
  method Converged(i: nat, before: real, residual: real) returns (stop: bool)
    requires residual >= 0.0
    ensures stop <==> !GoesOn(i == 0, before, residual)
    ensures stop <==> residual < 0.00000011920928955078125 || (i != 0 && before - residual < 0.00001 * residual)
  {
    if residual > 0.0 { Ratio(before - residual, residual, 0.00001); }
    stop := (i != 0 && residual != 0.0 && (before - residual) / residual < 0.00001) || residual < FLT_EPSILON;
  }

  ghost predicate AllGoOn(h: seq<real>) {
    && (h != [] ==> h[0] >= FLT_EPSILON)
    && forall i | 0 < i < |h| :: Worthwhile(h[i - 1], h[i])
  }

  /** A round that is no worse than the one before extends the history. */
  lemma RoundDone(h: seq<real>, before: real, r: real)
    requires Descending(h) && AllGoOn(h)
    requires h != [] ==> before == h[|h| - 1] && r <= before
    ensures Descending(h + [r])
    ensures AllGoOn(h + [r]) <==> GoesOn(h == [], before, r)
  {
    var n := h + [r];
    if AllGoOn(n) && h != [] {
      assert Worthwhile(n[|h| - 1], n[|h|]);
    }
  }

  /** No assignment of the points to the given centres costs less. */
  ghost predicate BeatsAll(data: seq<Point>, dim: nat, given: seq<Point>, residual: real)
    requires Points(data, dim) && Points(given, dim)
  {
    forall b | |b| == |data| && Assigns(b, data, |given|) :: residual <= Residual(data, given, b, dim)
  }

  lemma RoundBeatsAll(data: seq<Point>, dim: nat, from: seq<Point>, centers: seq<Point>, a: seq<nat>, residual: real)
    requires Points(data, dim) && Points(from, dim) && Round(data, dim, from, centers, a, residual)
    ensures BeatsAll(data, dim, from, residual)
  {
    forall b | |b| == |data| && Assigns(b, data, |from|) ensures residual <= Residual(data, from, b, dim) {
      RoundImproves(data, from, a, b, dim);
    }
  }

  /** Two rounds in a row. */
  lemma NextRoundIsNoWorse(data: seq<Point>, dim: nat, c0: seq<Point>, c1: seq<Point>, c2: seq<Point>,
                           a1: seq<nat>, a2: seq<nat>, r1: real, r2: real)
    requires Points(data, dim) && Points(c0, dim) && Points(c1, dim)
    requires Round(data, dim, c0, c1, a1, r1) && Round(data, dim, c1, c2, a2, r2)
    ensures r2 <= r1
  {
    RoundImproves(data, c1, a2, a1, dim);
  }

  /** The state after the rounds of h: nothing has happened yet, or the last round went from `from` to `centers`
      and no assignment to the centres `given` at first costs less. */
  ghost predicate After(data: seq<Point>, dim: nat, given: seq<Point>, from: seq<Point>, centers: seq<Point>,
                        a: seq<nat>, residual: real, h: seq<real>)
  {
    && Points(data, dim) && Points(given, dim) && Points(from, dim) && Points(centers, dim)
    && |from| == |given| == |centers|
    && if h == [] then residual == FLT_MAX && centers == given
       else
         && residual == h[|h| - 1]
         && BeatsAll(data, dim, given, residual)
         && Round(data, dim, from, centers, a, residual)
  }

  lemma AfterRound(data: seq<Point>, dim: nat, given: seq<Point>, c0: seq<Point>, c1: seq<Point>, c2: seq<Point>,
                   a1: seq<nat>, a2: seq<nat>, r1: real, r2: real, h: seq<real>)
    requires After(data, dim, given, c0, c1, a1, r1, h) && Round(data, dim, c1, c2, a2, r2)
    requires Descending(h) && AllGoOn(h)
    ensures After(data, dim, given, c1, c2, a2, r2, h + [r2])
    ensures Descending(h + [r2]) && (AllGoOn(h + [r2]) <==> GoesOn(h == [], r1, r2)) && r2 >= 0.0
  {
    ResidualNonNegative(data, c2, a2, dim);
    if h == [] {
      RoundBeatsAll(data, dim, given, c2, a2, r2);
    } else {
      NextRoundIsNoWorse(data, dim, c0, c1, c2, a1, a2, r1, r2);
    }
    RoundDone(h, r1, r2);
  }

  /** run_lloyds, returning also the residuals of its rounds and the centres the last one started from. They never
      increase, and the last is at most the
      cost of the best assignment to the centres it was given. */
  method RunLloyds(data: seq<Point>, dim: nat, centers: array<Point>, maxReps: nat,
                   closestDocs: array<seq<nat>>, closest: array<nat>)
    returns (residual: real, ghost h: seq<real>, ghost from: seq<Point>)
    requires Points(data, dim) && Points(centers[..], dim) && data != [] && centers.Length > 0
    requires closest.Length == |data| && closestDocs.Length == centers.Length
    modifies centers, closestDocs, closest
    ensures After(data, dim, old(centers[..]), from, centers[..], closest[..], residual, h)
    ensures |h| <= maxReps && Descending(h)
    ensures |h| == maxReps || !AllGoOn(h)
    ensures h != [] ==> AllGoOn(h[..|h| - 1]) && Inverts(closestDocs[..], closest[..])
  {
    residual, h := FLT_MAX, [];
    var norms := VecsL2Sq(data);
    ghost var given := centers[..];
    from := given;
    var i := 0;
    while i < maxReps
      invariant i <= maxReps && |h| == i
      invariant After(data, dim, given, from, centers[..], closest[..], residual, h)
      invariant Descending(h) && AllGoOn(h) && (h != [] ==> AllGoOn(h[..|h| - 1]))
      invariant h != [] ==> Inverts(closestDocs[..], closest[..])
    {
      var before := residual;
      ghost var c0, a1 := from, closest[..];
      from := centers[..];
      residual := LloydsIter(data, dim, centers, norms, closestDocs, closest);
      AfterRound(data, dim, given, c0, from, centers[..], a1, closest[..], before, residual, h);
      var stop := Converged(i, before, residual);
      ghost var h0 := h;
      h := h0 + [residual];
      assert h[..|h| - 1] == h0;
      if stop {
        return;
      }
      i := i + 1;
    }
  }
}
