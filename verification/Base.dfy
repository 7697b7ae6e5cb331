/** Small datatypes and facts shared by the other modules. */
module Base {
  datatype Option<+T> = None | Some(value: T)

  ghost predicate NoRepeats<T>(s: seq<T>) {
    forall i, j | 0 <= i < j < |s| :: s[i] != s[j]
  }

  /** {0, ..., n-1}. */
  function Below(n: nat): (s: set<nat>)
    ensures |s| == n
    ensures forall i: nat :: i in s <==> i < n
  {
    if n == 0 then {} else Below(n - 1) + {n - 1}
  }

  lemma WithoutOne<T>(s: seq<T>, front: seq<T>, back: seq<T>, x: T)
    requires s == front + [x] + back
    ensures multiset(front + back) == multiset(s) - multiset{x}
  {}

  /** Two lists with the same elements, without one element that both have. */
  lemma DropSame<T>(a: seq<T>, b: seq<T>, i: nat)
    requires multiset(a) == multiset(b) && a != [] && i < |b| && b[i] == a[|a| - 1]
    ensures multiset(a[..|a| - 1]) == multiset(b[..i] + b[i + 1..])
  {
    var front, rest, x := a[..|a| - 1], b[..i] + b[i + 1..], b[i];
    WithoutOne(a, front, [], x);
    WithoutOne(b, b[..i], b[i + 1..], x);
    assert front + [] == front;
  }

  lemma {:induction false} AtMostOnce<T>(s: seq<T>, x: T)
    requires NoRepeats(s)
    ensures multiset(s)[x] <= 1
  {
    if s != [] {
      var l := |s| - 1;
      assert s == s[..l] + [s[l]];
      AtMostOnce(s[..l], x);
    }
  }

  lemma Twice<T>(r: seq<T>, i: nat, j: nat)
    requires i < j < |r| && r[i] == r[j]
    ensures multiset(r)[r[i]] >= 2
  {
    assert r == r[..j] + ([r[j]] + r[j + 1..]);
    assert r[..j][i] in multiset(r[..j]);
  }

  /** A permutation of a list without repeats has none. */
  lemma PermutedNoRepeats<T>(s: seq<T>, r: seq<T>)
    requires NoRepeats(s) && multiset(r) == multiset(s)
    ensures NoRepeats(r)
  {
    forall i, j | 0 <= i < j < |r| ensures r[i] != r[j] {
      if r[i] == r[j] {
        AtMostOnce(s, r[i]);
        Twice(r, i, j);
      }
    }
  }

  lemma Regroup<T>(a: seq<T>, b: seq<T>, c: seq<T>)
    ensures a + (b + c) == a + b + c
  {}

  lemma SubsetSize<T>(a: set<T>, b: set<T>)
    requires a <= b
    ensures |a| <= |b|
  {
    assert |b - a| + |a| == |b - a + a|;
    assert b - a + a == b;
  }
}
