/** What one round of Lloyd's algorithm does to the residual: moving the centres to the means, and assigning
    points to nearest centres, each never raise it. */
module Clusters {
  import opened Vectors

  /** Every point of `a` is given one of the centres. */
  ghost predicate Assigns(a: seq<nat>, data: seq<Point>, k: nat) {
    |a| <= |data| && forall d | 0 <= d < |a| :: a[d] < k
  }

  /** The residual of the first |a| points. */
  function Residual(data: seq<Point>, centers: seq<Point>, a: seq<nat>, dim: nat): real
    requires Points(data, dim) && Points(centers, dim) && Assigns(a, data, |centers|)
  {
    if a == [] then 0.0
    else var l := |a| - 1; Residual(data, centers, a[..l], dim) + Dist(data[l], centers[a[l]])
  }

  /** The points given centre c, in ascending order. */
  function Members(a: seq<nat>, c: nat): (r: seq<nat>)
    ensures forall i | 0 <= i < |r| :: r[i] < |a|
  {
    if a == [] then []
    else var l := |a| - 1; Members(a[..l], c) + if a[l] == c then [l] else []
  }

  lemma {:induction false} MembersAre(a: seq<nat>, c: nat)
    ensures forall d :: d in Members(a, c) <==> 0 <= d < |a| && a[d] == c
    ensures forall i, j | 0 <= i < j < |Members(a, c)| :: Members(a, c)[i] < Members(a, c)[j]
  {
    if a != [] {
      MembersAre(a[..|a| - 1], c);
    }
  }

  /** Their squared distances to p. */
  function Spread(data: seq<Point>, docs: seq<nat>, p: Point): real
    requires Fits(data, docs, |p|)
  {
    if docs == [] then 0.0
    else var l := |docs| - 1; Spread(data, docs[..l], p) + Dist(data[docs[l]], p)
  }

  /** The mean of the members, the origin if there are none. */
  function CenterOf(data: seq<Point>, docs: seq<nat>, dim: nat): (r: Point)
    requires Fits(data, docs, dim)
    ensures |r| == dim
  {
    if docs == [] then Zero(dim)
    else var s := SumOf(data, docs, dim); seq(dim, j requires 0 <= j < dim => s[j] / |docs| as real)
  }

  /** Nothing but the origin for an empty cluster; else the coordinates add up to those of the members. */
  lemma CenterMeans(data: seq<Point>, docs: seq<nat>, dim: nat, j: nat)
    requires Fits(data, docs, dim) && j < dim
    ensures if docs == [] then CenterOf(data, docs, dim)[j] == 0.0
            else Times(|docs|, CenterOf(data, docs, dim)[j]) == SumOf(data, docs, dim)[j]
  {
    if docs != [] { Quotient(|docs|, SumOf(data, docs, dim)[j]); }
  }

  // ---------------------------------------------------------------- the mean is the best centre

  lemma {:induction false} SpreadShift(data: seq<Point>, docs: seq<nat>, p: Point, m: Point)
    requires |p| == |m| && Fits(data, docs, |p|)
    ensures var v, n := Minus(p, m), |docs|;
      Spread(data, docs, p) == Spread(data, docs, m) + Times(n, Dist(p, m))
                             - 2.0 * (Dot(v, SumOf(data, docs, |p|)) - Times(n, Dot(v, m)))
  {
    var v := Minus(p, m);
    if docs == [] {
      DotZero(v);
    } else {
      var l := |docs| - 1;
      SpreadShift(data, docs[..l], p, m);
      Shift(data[docs[l]], p, m);
      DotPlus(v, SumOf(data, docs[..l], |p|), data[docs[l]]);
    }
  }

  /** Around the mean, the deviations cancel out. */
  lemma DeviationsCancel(data: seq<Point>, docs: seq<nat>, v: Point)
    requires Fits(data, docs, |v|) && docs != []
    ensures Dot(v, SumOf(data, docs, |v|)) == Times(|docs|, Dot(v, CenterOf(data, docs, |v|)))
  {
    var m, s := CenterOf(data, docs, |v|), SumOf(data, docs, |v|);
    forall j | 0 <= j < |v| ensures s[j] == Times(|docs|, m[j]) { Quotient(|docs|, s[j]); }
    DotTimes(v, s, m, |docs|);
  }

  /** No other centre is closer to the members of a cluster, all told. */
  lemma MeanIsBest(data: seq<Point>, docs: seq<nat>, p: Point)
    requires Fits(data, docs, |p|)
    ensures Spread(data, docs, CenterOf(data, docs, |p|)) <= Spread(data, docs, p)
  {
    if docs != [] {
      var m := CenterOf(data, docs, |p|);
      SpreadShift(data, docs, p, m);
      DeviationsCancel(data, docs, Minus(p, m));
      DistNonNegative(p, m);
      TimesNonNegative(|docs|, Dist(p, m));
    }
  }

  // ---------------------------------------------------------------- one centre at a time

  lemma {:induction false} ReplaceOne(data: seq<Point>, centers: seq<Point>, a: seq<nat>, dim: nat, c: nat, q: Point)
    requires Points(data, dim) && Points(centers, dim) && Assigns(a, data, |centers|) && c < |centers| && |q| == dim
    ensures Residual(data, centers[c := q], a, dim) - Spread(data, Members(a, c), q)
         == Residual(data, centers, a, dim) - Spread(data, Members(a, c), centers[c])
  {
    if a != [] {
      var l := |a| - 1;
      ReplaceOne(data, centers, a[..l], dim, c, q);
      if a[l] == c {
        assert Members(a, c)[..|Members(a, c)| - 1] == Members(a[..l], c);
      } else {
        assert Members(a, c) == Members(a[..l], c);
      }
    }
  }

  /** The centres after a round: each the centre of the points assigned to it. */
  function CentersOf(data: seq<Point>, a: seq<nat>, k: nat, dim: nat): (r: seq<Point>)
    requires Points(data, dim) && Assigns(a, data, k)
    ensures Points(r, dim) && |r| == k
  {
    seq(k, c requires 0 <= c < k => CenterOf(data, Members(a, c), dim))
  }

  function Mixed(means: seq<Point>, centers: seq<Point>, c: nat): (r: seq<Point>)
    requires |means| == |centers| && c <= |centers|
    ensures |r| == |centers|
  {
    means[..c] + centers[c..]
  }

  lemma MixOneMore(means: seq<Point>, centers: seq<Point>, c: nat)
    requires |means| == |centers| && c < |centers|
    ensures Mixed(means, centers, c + 1) == Mixed(means, centers, c)[c := means[c]]
  {}

  lemma {:induction false} SomeReplaced(data: seq<Point>, centers: seq<Point>, means: seq<Point>, a: seq<nat>,
                                        dim: nat, c: nat)
    requires Points(data, dim) && Points(centers, dim) && Assigns(a, data, |centers|) && c <= |centers|
    requires means == CentersOf(data, a, |centers|, dim)
    ensures Points(Mixed(means, centers, c), dim)
    ensures Residual(data, Mixed(means, centers, c), a, dim) <= Residual(data, centers, a, dim)
  {
    if c == 0 {
      assert Mixed(means, centers, 0) == centers;
    } else {
      var before := Mixed(means, centers, c - 1);
      SomeReplaced(data, centers, means, a, dim, c - 1);
      ReplaceOne(data, before, a, dim, c - 1, means[c - 1]);
      MeanIsBest(data, Members(a, c - 1), before[c - 1]);
      MixOneMore(means, centers, c - 1);
    }
  }

  /** Moving every centre to its mean, empty clusters to the origin, never raises the residual. */
  lemma MeansAreBest(data: seq<Point>, centers: seq<Point>, a: seq<nat>, dim: nat)
    requires Points(data, dim) && Points(centers, dim) && Assigns(a, data, |centers|)
    ensures Residual(data, CentersOf(data, a, |centers|, dim), a, dim) <= Residual(data, centers, a, dim)
  {
    var means := CentersOf(data, a, |centers|, dim);
    SomeReplaced(data, centers, means, a, dim, |centers|);
    assert Mixed(means, centers, |centers|) == means;
  }

  // ---------------------------------------------------------------- nearest centres

  /** The first of the nearest centres. */
  ghost predicate IsNearest(x: Point, centers: seq<Point>, c: nat)
    requires Points(centers, |x|)
  {
    && c < |centers|
    && (forall j | 0 <= j < |centers| :: Dist(x, centers[c]) <= Dist(x, centers[j]))
    && (forall j | 0 <= j < c :: Dist(x, centers[c]) < Dist(x, centers[j]))
  }

  ghost predicate AllNearest(data: seq<Point>, centers: seq<Point>, a: seq<nat>, dim: nat)
    requires Points(data, dim) && Points(centers, dim) && |a| <= |data|
  {
    forall d | 0 <= d < |a| :: IsNearest(data[d], centers, a[d])
  }

  lemma {:induction false} NearestIsBest(data: seq<Point>, centers: seq<Point>, a: seq<nat>, b: seq<nat>, dim: nat)
    requires Points(data, dim) && Points(centers, dim)
    requires |a| == |b| <= |data| && AllNearest(data, centers, a, dim)
    requires Assigns(a, data, |centers|) && Assigns(b, data, |centers|)
    ensures Residual(data, centers, a, dim) <= Residual(data, centers, b, dim)
  {
    if a != [] {
      var l := |a| - 1;
      NearestIsBest(data, centers, a[..l], b[..l], dim);
      assert IsNearest(data[l], centers, a[l]);
    }
  }

  /** A round from any centres: its residual is at most that of any assignment to the centres it started from. */
  lemma RoundImproves(data: seq<Point>, centers: seq<Point>, a: seq<nat>, b: seq<nat>, dim: nat)
    requires Points(data, dim) && Points(centers, dim)
    requires |a| == |b| <= |data| && AllNearest(data, centers, a, dim)
    requires Assigns(a, data, |centers|) && Assigns(b, data, |centers|)
    ensures Residual(data, CentersOf(data, a, |centers|, dim), a, dim) <= Residual(data, centers, b, dim)
  {
    MeansAreBest(data, centers, a, dim);
    NearestIsBest(data, centers, a, b, dim);
  }

  /** No residual is left exactly when every point sits on its centre. */
  lemma {:induction false} ResidualZeroIff(data: seq<Point>, centers: seq<Point>, a: seq<nat>, dim: nat)
    requires Points(data, dim) && Points(centers, dim) && Assigns(a, data, |centers|)
    ensures Residual(data, centers, a, dim) == 0.0 <==> forall d | 0 <= d < |a| :: data[d] == centers[a[d]]
  {
    if a != [] {
      var l := |a| - 1;
      ResidualZeroIff(data, centers, a[..l], dim);
      ResidualNonNegative(data, centers, a[..l], dim);
      DistZeroIff(data[l], centers[a[l]]);
    }
  }

  lemma {:induction false} ResidualNonNegative(data: seq<Point>, centers: seq<Point>, a: seq<nat>, dim: nat)
    requires Points(data, dim) && Points(centers, dim) && Assigns(a, data, |centers|)
    ensures Residual(data, centers, a, dim) >= 0.0
  {
    if a != [] {
      var l := |a| - 1;
      ResidualNonNegative(data, centers, a[..l], dim);
      DistNonNegative(data[l], centers[a[l]]);
    }
  }
}
