/** Points of a fixed dimension in exact reals, and the algebra of squared distances. */
module Vectors {
  import opened Base

  type Point = seq<real>

  function Dot(u: Point, v: Point): real
    requires |u| == |v|
  {
    if u == [] then 0.0
    else var l := |u| - 1; Dot(u[..l], v[..l]) + u[l] * v[l]
  }

  /** calc_distance: the squared distance. */
  function Dist(u: Point, v: Point): real
    requires |u| == |v|
  {
    if u == [] then 0.0
    else var l := |u| - 1; Dist(u[..l], v[..l]) + (u[l] - v[l]) * (u[l] - v[l])
  }

  lemma BothPositive(x: real, y: real, p: real)
    requires p == x * y && x > 0.0 && y > 0.0
    ensures p > 0.0
  {}

  lemma BothNegative(x: real, y: real, p: real)
    requires p == x * y && x < 0.0 && y < 0.0
    ensures p > 0.0
  {}

  lemma SquareZeroIff(x: real, y: real, p: real)
    requires p == x * y && x == y
    ensures p >= 0.0 && (p == 0.0 <==> x == 0.0)
  {
    if x > 0.0 {
      BothPositive(x, y, p);
    } else if x < 0.0 {
      BothNegative(x, y, p);
    }
  }

  /** A point is at distance 0 from itself and from no other. */
  lemma {:induction false} DistZeroIff(u: Point, v: Point)
    requires |u| == |v|
    ensures Dist(u, v) >= 0.0 && (Dist(u, v) == 0.0 <==> u == v)
  {
    if u != [] {
      var l := |u| - 1;
      DistZeroIff(u[..l], v[..l]);
      var gap := Dist(u, v) - Dist(u[..l], v[..l]);
      SquareZeroIff(u[l] - v[l], u[l] - v[l], gap);
      assert u == u[..l] + [u[l]] && v == v[..l] + [v[l]];
    }
  }

  /** Every coordinate adds its squared difference. */
  lemma {:induction false} DistCoordinate(u: Point, v: Point, j: nat, x: real)
    requires |u| == |v| && j < |u|
    ensures Dist(u[j := x], v) - Dist(u, v) == (x - v[j]) * (x - v[j]) - (u[j] - v[j]) * (u[j] - v[j])
  {
    var l := |u| - 1;
    if j < l {
      DistCoordinate(u[..l], v[..l], j, x);
      assert u[j := x][..l] == u[..l][j := x];
    } else {
      assert u[j := x][..l] == u[..l];
    }
  }

  /** Every coordinate adds its product. */
  lemma {:induction false} DotCoordinate(u: Point, v: Point, j: nat, x: real)
    requires |u| == |v| && j < |u|
    ensures Dot(u, v[j := x]) - Dot(u, v) == u[j] * x - u[j] * v[j]
  {
    var l := |u| - 1;
    if j < l {
      DotCoordinate(u[..l], v[..l], j, x);
      assert v[j := x][..l] == v[..l][j := x];
    } else {
      assert v[j := x][..l] == v[..l];
    }
  }

  function Zero(dim: nat): (r: Point)
    ensures |r| == dim
  {
    seq(dim, _ => 0.0)
  }

  function Plus(u: Point, v: Point): (r: Point)
    requires |u| == |v|
    ensures |r| == |u|
  {
    seq(|u|, j requires 0 <= j < |u| => u[j] + v[j])
  }

  function Minus(u: Point, v: Point): (r: Point)
    requires |u| == |v|
    ensures |r| == |u|
  {
    seq(|u|, j requires 0 <= j < |u| => u[j] - v[j])
  }

  lemma Square(x: real)
    ensures x * x >= 0.0
  {}

  lemma {:induction false} DistNonNegative(u: Point, v: Point)
    requires |u| == |v|
    ensures Dist(u, v) >= 0.0
  {
    if u != [] {
      var l := |u| - 1;
      DistNonNegative(u[..l], v[..l]);
      Square(u[l] - v[l]);
    }
  }

  lemma Expand(x: real, c: real)
    ensures (x - c) * (x - c) == x * x + c * c - 2.0 * (x * c)
  {}

  /** The distance matrix is filled with |x|^2 + |c|^2 - 2 x.c. */
  lemma {:induction false} NormExpansion(x: Point, c: Point)
    requires |x| == |c|
    ensures Dot(x, x) + Dot(c, c) - 2.0 * Dot(x, c) == Dist(x, c)
  {
    if x != [] {
      var l := |x| - 1;
      NormExpansion(x[..l], c[..l]);
      Expand(x[l], c[l]);
    }
  }

  lemma ShiftCoordinate(x: real, p: real, m: real)
    ensures (x - p) * (x - p) == (x - m) * (x - m) + (p - m) * (p - m) - 2.0 * ((p - m) * x - (p - m) * m)
  {
    Expand(x, p);
    Expand(x, m);
    Expand(p, m);
    assert (p - m) * x == x * p - x * m;
    assert (p - m) * m == p * m - m * m;
  }

  /** Measuring from p instead of m. */
  lemma {:induction false} Shift(x: Point, p: Point, m: Point)
    requires |x| == |p| == |m|
    ensures Dist(x, p) == Dist(x, m) + Dist(p, m) - 2.0 * (Dot(Minus(p, m), x) - Dot(Minus(p, m), m))
  {
    if x != [] {
      var l, v := |x| - 1, Minus(p, m);
      assert v[..l] == Minus(p[..l], m[..l]);
      Shift(x[..l], p[..l], m[..l]);
      ShiftCoordinate(x[l], p[l], m[l]);
    }
  }

  lemma {:induction false} DotPlus(v: Point, a: Point, b: Point)
    requires |v| == |a| == |b|
    ensures Dot(v, Plus(a, b)) == Dot(v, a) + Dot(v, b)
  {
    if v != [] {
      var l := |v| - 1;
      assert Plus(a, b)[..l] == Plus(a[..l], b[..l]);
      DotPlus(v[..l], a[..l], b[..l]);
      assert v[l] * (a[l] + b[l]) == v[l] * a[l] + v[l] * b[l];
    }
  }

  lemma {:induction false} DotZero(v: Point)
    ensures Dot(v, Zero(|v|)) == 0.0
  {
    if v != [] {
      assert Zero(|v|)[..|v| - 1] == Zero(|v| - 1);
      DotZero(v[..|v| - 1]);
    }
  }

  /** x added up n times. */
  function Times(n: nat, x: real): real {
    if n == 0 then 0.0 else Times(n - 1, x) + x
  }

  lemma {:induction false} TimesIsProduct(n: nat, x: real)
    ensures Times(n, x) == n as real * x
  {
    if n != 0 {
      TimesIsProduct(n - 1, x);
      assert n as real == (n - 1) as real + 1.0;
      assert ((n - 1) as real + 1.0) * x == (n - 1) as real * x + x;
    }
  }

  lemma Quotient(n: nat, s: real)
    requires n > 0
    ensures Times(n, s / n as real) == s
  {
    TimesIsProduct(n, s / n as real);
  }

  lemma {:induction false} TimesNonNegative(n: nat, x: real)
    requires x >= 0.0
    ensures Times(n, x) >= 0.0
  {
    if n != 0 { TimesNonNegative(n - 1, x); }
  }

  lemma {:induction false} TimesPlus(n: nat, a: real, b: real)
    ensures Times(n, a + b) == Times(n, a) + Times(n, b)
  {
    if n != 0 { TimesPlus(n - 1, a, b); }
  }

  lemma {:induction false} TimesFactor(n: nat, v: real, m: real, s: real, vm: real, vs: real)
    requires s == Times(n, m) && vm == v * m && vs == v * s
    ensures vs == Times(n, vm)
  {
    if n != 0 {
      var r := Times(n - 1, m);
      TimesFactor(n - 1, v, m, r, vm, v * r);
      assert v * (r + m) == v * r + v * m;
    }
  }

  lemma {:induction false} DotTimes(v: Point, s: Point, m: Point, n: nat)
    requires |v| == |s| == |m| && forall j | 0 <= j < |s| :: s[j] == Times(n, m[j])
    ensures Dot(v, s) == Times(n, Dot(v, m))
  {
    if v == [] {
      TimesIsProduct(n, 0.0);
    } else {
      var l := |v| - 1;
      DotTimes(v[..l], s[..l], m[..l], n);
      var vm := DotLast(v, m);
      var vs := DotLast(v, s);
      TimesFactor(n, v[l], m[l], s[l], vm, vs);
      TimesPlus(n, Dot(v[..l], m[..l]), vm);
    }
  }

  /** The last product of an inner product. */
  lemma DotLast(u: Point, v: Point) returns (p: real)
    requires |u| == |v| > 0
    ensures p == u[|u| - 1] * v[|u| - 1] && Dot(u, v) == Dot(u[..|u| - 1], v[..|u| - 1]) + p
  {
    p := u[|u| - 1] * v[|u| - 1];
  }

  /** The sum of the points that `docs` names. */
  function SumOf(data: seq<Point>, docs: seq<nat>, dim: nat): (r: Point)
    requires Fits(data, docs, dim)
    ensures |r| == dim
  {
    if docs == [] then Zero(dim)
    else var l := |docs| - 1; Plus(SumOf(data, docs[..l], dim), data[docs[l]])
  }

  ghost predicate Points(data: seq<Point>, dim: nat) {
    forall d | 0 <= d < |data| :: |data[d]| == dim
  }

  ghost predicate Fits(data: seq<Point>, docs: seq<nat>, dim: nat) {
    && Points(data, dim)
    && forall i | 0 <= i < |docs| :: docs[i] < |data|
  }

  // ---------------------------------------------------------------- the order of a list does not matter

  lemma {:induction false} TakeOut(data: seq<Point>, docs: seq<nat>, dim: nat, i: nat)
    requires Fits(data, docs, dim) && i < |docs|
    ensures SumOf(data, docs, dim) == Plus(SumOf(data, docs[..i] + docs[i + 1..], dim), data[docs[i]])
  {
    var l, rest := |docs| - 1, docs[..i] + docs[i + 1..];
    if i == l {
      assert rest == docs[..l];
    } else {
      TakeOut(data, docs[..l], dim, i);
      assert rest[..l - 1] == docs[..l][..i] + docs[..l][i + 1..];
    }
  }

  lemma {:induction false} SumIgnoresOrder(data: seq<Point>, a: seq<nat>, b: seq<nat>, dim: nat)
    requires Fits(data, a, dim) && Fits(data, b, dim) && multiset(a) == multiset(b)
    ensures SumOf(data, a, dim) == SumOf(data, b, dim)
  {
    if a == [] {
      assert b == [];
    } else {
      var l := |a| - 1;
      assert a[l] in multiset(a);
      var i :| 0 <= i < |b| && b[i] == a[l];
      DropSame(a, b, i);
      SumIgnoresOrder(data, a[..l], b[..i] + b[i + 1..], dim);
      TakeOut(data, b, dim, i);
    }
  }
}
