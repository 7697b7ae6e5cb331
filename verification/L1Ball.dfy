/** The bucket codes that the recursive L1 walk visits: in each coordinate, every step within the remaining
    budget that stays in the box; the code is stored in bytes, so coordinates are cut to 8 bits. */
module L1Ball {
  import opened Base

  function Abs(x: int): nat {
    if x < 0 then -x else x
  }

  function Gap(a: nat, b: nat): nat {
    if a < b then b - a else a - b
  }

  function Distance(a: seq<nat>, b: seq<nat>): nat
    requires |a| == |b|
  {
    if a == [] then 0 else Gap(a[0], b[0]) + Distance(a[1..], b[1..])
  }

  /** Inside the box, within the radius. */
  ghost predicate InBall(center: seq<nat>, radius: nat, buckets: nat, k: seq<nat>) {
    && |k| == |center|
    && (forall j | 0 <= j < |k| :: k[j] < buckets)
    && Distance(center, k) <= radius
  }

  /** The codes in the order of the walk, before they are cut to bytes. */
  function Codes(center: seq<nat>, left: nat, buckets: nat): seq<seq<nat>>
    decreases |center|, 2, 0
  {
    if center == [] then [[]] else CodesBelow(center, left, buckets, left + 1)
  }

  /** Those whose first coordinate is less than `delta` past the centre's. */
  function CodesBelow(center: seq<nat>, left: nat, buckets: nat, delta: int): seq<seq<nat>>
    requires center != [] && 0 <= left + delta && delta <= left + 1
    decreases |center|, 1, delta + left
  {
    if left + delta == 0 then []
    else CodesBelow(center, left, buckets, delta - 1) + Piece(center, left, buckets, delta - 1)
  }

  function Piece(center: seq<nat>, left: nat, buckets: nat, delta: int): seq<seq<nat>>
    requires center != [] && 0 <= left + delta && delta <= left
    decreases |center|, 0, 0
  {
    if 0 <= center[0] + delta < buckets
    then Prefixed(center[0] + delta, Codes(center[1..], left - Abs(delta), buckets))
    else []
  }

  function Prefixed(b: nat, codes: seq<seq<nat>>): (r: seq<seq<nat>>)
    ensures |r| == |codes|
  {
    seq(|codes|, i requires 0 <= i < |codes| => [b] + codes[i])
  }

  lemma PrefixedHas(b: nat, codes: seq<seq<nat>>, k: seq<nat>)
    ensures k in Prefixed(b, codes) <==> k != [] && k[0] == b && k[1..] in codes
  {
    if k != [] && k[0] == b && k[1..] in codes {
      var i :| 0 <= i < |codes| && codes[i] == k[1..];
      assert Prefixed(b, codes)[i] == k;
    }
  }

  lemma BallStep(center: seq<nat>, left: nat, buckets: nat, delta: int, k: seq<nat>)
    requires center != [] && 0 <= left + delta && delta <= left && k != [] && k[0] == center[0] + delta
    ensures InBall(center, left, buckets, k)
      <==> k[0] < buckets && InBall(center[1..], left - Abs(delta), buckets, k[1..])
  {
    if k[0] < buckets && InBall(center[1..], left - Abs(delta), buckets, k[1..]) {
      forall j | 0 <= j < |k| ensures k[j] < buckets {
        if j > 0 { assert k[j] == k[1..][j - 1]; }
      }
    }
  }

  /** The walk visits a code exactly when it is in the ball. */
  lemma {:induction false} VisitsTheBall(center: seq<nat>, left: nat, buckets: nat, k: seq<nat>)
    ensures k in Codes(center, left, buckets) <==> InBall(center, left, buckets, k)
    decreases |center|, 2, 0
  {
    if center != [] {
      VisitsBelow(center, left, buckets, left + 1, k);
      if InBall(center, left, buckets, k) { assert Gap(center[0], k[0]) <= left; }
    }
  }

  lemma {:induction false} VisitsBelow(center: seq<nat>, left: nat, buckets: nat, delta: int, k: seq<nat>)
    requires center != [] && 0 <= left + delta && delta <= left + 1
    ensures k in CodesBelow(center, left, buckets, delta)
      <==> k != [] && center[0] <= k[0] + left && k[0] < center[0] + delta && InBall(center, left, buckets, k)
    decreases |center|, 1, delta + left
  {
    if left + delta != 0 {
      VisitsBelow(center, left, buckets, delta - 1, k);
      VisitsPiece(center, left, buckets, delta - 1, k);
    }
  }

  lemma VisitsPiece(center: seq<nat>, left: nat, buckets: nat, delta: int, k: seq<nat>)
    requires center != [] && 0 <= left + delta && delta <= left
    ensures k in Piece(center, left, buckets, delta)
      <==> k != [] && k[0] == center[0] + delta && InBall(center, left, buckets, k)
    decreases |center|, 0, 0
  {
    if k != [] && k[0] == center[0] + delta {
      BallStep(center, left, buckets, delta, k);
      VisitsTheBall(center[1..], left - Abs(delta), buckets, k[1..]);
    }
    if 0 <= center[0] + delta < buckets {
      PrefixedHas(center[0] + delta, Codes(center[1..], left - Abs(delta), buckets), k);
    }
  }

  lemma PrefixedNoRepeats(b: nat, codes: seq<seq<nat>>)
    requires NoRepeats(codes)
    ensures NoRepeats(Prefixed(b, codes))
  {
    var r := Prefixed(b, codes);
    forall i, j | 0 <= i < j < |r| ensures r[i] != r[j] {
      assert r[i][1..] == codes[i] && r[j][1..] == codes[j];
    }
  }

  lemma Apart(a: seq<seq<nat>>, b: seq<seq<nat>>)
    requires NoRepeats(a) && NoRepeats(b) && forall k | k in a :: k !in b
    ensures NoRepeats(a + b)
  {
    forall i, j | 0 <= i < j < |a + b| ensures (a + b)[i] != (a + b)[j] {
      if i < |a| <= j { assert a[i] in a && b[j - |a|] in b; }
    }
  }

  /** And never twice. */
  lemma {:induction false} VisitsOnce(center: seq<nat>, left: nat, buckets: nat)
    ensures NoRepeats(Codes(center, left, buckets))
    decreases |center|, 2, 0
  {
    if center != [] { BelowOnce(center, left, buckets, left + 1); }
  }

  lemma {:induction false} BelowOnce(center: seq<nat>, left: nat, buckets: nat, delta: int)
    requires center != [] && 0 <= left + delta && delta <= left + 1
    ensures NoRepeats(CodesBelow(center, left, buckets, delta))
    decreases |center|, 1, delta + left
  {
    if left + delta != 0 {
      var a, b := CodesBelow(center, left, buckets, delta - 1), Piece(center, left, buckets, delta - 1);
      BelowOnce(center, left, buckets, delta - 1);
      if 0 <= center[0] + delta - 1 < buckets {
        VisitsOnce(center[1..], left - Abs(delta - 1), buckets);
        PrefixedNoRepeats(center[0] + delta - 1, Codes(center[1..], left - Abs(delta - 1), buckets));
      }
      forall k | k in a ensures k !in b {
        VisitsBelow(center, left, buckets, delta - 1, k);
        VisitsPiece(center, left, buckets, delta - 1, k);
      }
      Apart(a, b);
    }
  }

  // ---------------------------------------------------------------- bytes

  function Cut(k: seq<nat>): (r: seq<nat>)
    ensures |r| == |k|
  {
    seq(|k|, j requires 0 <= j < |k| => k[j] % 256)
  }

  /** What is looked up: the codes as stored, below the coordinates `front` that are already set. */
  function Stored(front: seq<nat>, codes: seq<seq<nat>>): (r: seq<seq<nat>>)
    ensures |r| == |codes|
  {
    seq(|codes|, i requires 0 <= i < |codes| => front + Cut(codes[i]))
  }

  /** The walk looks up each code of the ball once and no other. */
  ghost predicate Exact(center: seq<nat>, radius: nat, buckets: nat) {
    var looked := Stored([], Codes(center, radius, buckets));
    NoRepeats(looked) && forall k :: k in looked <==> InBall(center, radius, buckets, k)
  }

  /** No code of the ball needs more than a byte. */
  predicate FitsBytes(center: seq<nat>, radius: nat, buckets: nat) {
    buckets <= 256 || forall j | 0 <= j < |center| :: center[j] + radius < 256
  }

  lemma {:induction false} Near(center: seq<nat>, k: seq<nat>, j: nat)
    requires |k| == |center| && j < |k|
    ensures Gap(center[j], k[j]) <= Distance(center, k)
  {
    if j > 0 { Near(center[1..], k[1..], j - 1); }
  }

  lemma CutIsIdentity(center: seq<nat>, radius: nat, buckets: nat, k: seq<nat>)
    requires FitsBytes(center, radius, buckets) && InBall(center, radius, buckets, k)
    ensures Cut(k) == k
  {
    forall j | 0 <= j < |k| ensures k[j] % 256 == k[j] { Near(center, k, j); }
  }

  lemma StoredIsCodes(center: seq<nat>, radius: nat, buckets: nat)
    requires FitsBytes(center, radius, buckets)
    ensures Stored([], Codes(center, radius, buckets)) == Codes(center, radius, buckets)
  {
    var codes := Codes(center, radius, buckets);
    forall i | 0 <= i < |codes| ensures [] + Cut(codes[i]) == codes[i] {
      VisitsTheBall(center, radius, buckets, codes[i]);
      CutIsIdentity(center, radius, buckets, codes[i]);
    }
  }

  lemma {:induction false} OneCoordinate(center: seq<nat>, j: nat, v: nat)
    requires j < |center|
    ensures Distance(center, center[j := v]) == Gap(center[j], v)
  {
    if j == 0 {
      Same(center[1..]);
      assert center[0 := v][1..] == center[1..];
    } else {
      OneCoordinate(center[1..], j - 1, v);
      assert center[j := v][1..] == center[1..][j - 1 := v];
    }
  }

  lemma {:induction false} Same(a: seq<nat>)
    ensures Distance(a, a) == 0
  {
    if a != [] { Same(a[1..]); }
  }

  /** A coordinate that reaches 256 wraps to 0: that code is looked up twice or lies outside the ball. */
  lemma WrapsAround(center: seq<nat>, radius: nat, buckets: nat, j: nat)
    requires forall i | 0 <= i < |center| :: center[i] < 256 && center[i] < buckets
    requires j < |center| && buckets > 256 && center[j] + radius >= 256
    ensures !Exact(center, radius, buckets)
  {
    var codes := Codes(center, radius, buckets);
    var over, zero := center[j := 256], center[j := 0];
    OneCoordinate(center, j, 256);
    VisitsTheBall(center, radius, buckets, over);
    VisitsTheBall(center, radius, buckets, zero);
    var a :| 0 <= a < |codes| && codes[a] == over;
    assert Cut(over) == zero && Cut(zero) == zero;
    assert Stored([], codes)[a] == zero;
    if zero in codes {
      var b :| 0 <= b < |codes| && codes[b] == zero;
      assert Stored([], codes)[b] == zero && over[j] != zero[j];
    }
  }

  /** For a centre that is itself a code of the box, the walk is exact if and only if no code needs more than
      a byte; with at most 256 buckets it always is. */
  lemma ExactIff(center: seq<nat>, radius: nat, buckets: nat)
    requires forall i | 0 <= i < |center| :: center[i] < 256 && center[i] < buckets
    ensures Exact(center, radius, buckets) <==> FitsBytes(center, radius, buckets)
  {
    if FitsBytes(center, radius, buckets) {
      StoredIsCodes(center, radius, buckets);
      VisitsOnce(center, radius, buckets);
      forall k ensures k in Codes(center, radius, buckets) <==> InBall(center, radius, buckets, k) {
        VisitsTheBall(center, radius, buckets, k);
      }
    } else {
      var j :| 0 <= j < |center| && center[j] + radius >= 256;
      WrapsAround(center, radius, buckets, j);
    }
  }
}
