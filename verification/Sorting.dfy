/** std::sort, known to its callers only by its contract: the result is ordered and holds the same
    elements. Equal elements may come out in any order as far as any proof here can tell. */
module Sorting {
  ghost predicate TotalPreorder<T(!new)>(le: (T, T) -> bool) {
    && (forall x, y :: le(x, y) || le(y, x))
    && (forall x, y, z :: le(x, y) && le(y, z) ==> le(x, z))
  }

  ghost predicate SortedBy<T>(s: seq<T>, le: (T, T) -> bool) {
    forall i, j | 0 <= i < j < |s| :: le(s[i], s[j])
  }

  /** Where x belongs in the ordered sequence s. */
  function Place<T>(s: seq<T>, le: (T, T) -> bool, x: T): (k: nat)
    ensures k <= |s|
    ensures forall j | 0 <= j < k :: le(s[j], x)
    ensures k < |s| ==> !le(s[k], x)
  {
    if s != [] && le(s[0], x) then
      var k := 1 + Place(s[1..], le, x);
      assert forall j | 0 < j < k :: s[j] == s[1..][j - 1];
      k
    else 0
  }

  lemma PlaceKeepsOrder<T(!new)>(s: seq<T>, le: (T, T) -> bool, x: T)
    requires TotalPreorder(le) && SortedBy(s, le)
    ensures var k := Place(s, le, x); SortedBy(s[..k] + [x] + s[k..], le)
  {
    var k := Place(s, le, x);
    if k < |s| {
      assert le(x, s[k]);
    }
  }

  lemma PlaceKeepsElements<T>(r: seq<T>, k: nat, x: T)
    requires k <= |r|
    ensures multiset(r[..k] + [x] + r[k..]) == multiset(r) + multiset{x}
  {
    assert r == r[..k] + r[k..];
  }

  method Sort<T(!new)>(s: seq<T>, le: (T, T) -> bool) returns (r: seq<T>)
    requires TotalPreorder(le)
    ensures multiset(r) == multiset(s) && |r| == |s|
    ensures SortedBy(r, le)
  {
    r := [];
    for i := 0 to |s|
      invariant multiset(r) == multiset(s[..i]) && |r| == i
      invariant SortedBy(r, le)
    {
      var k := Place(r, le, s[i]);
      PlaceKeepsOrder(r, le, s[i]);
      PlaceKeepsElements(r, k, s[i]);
      assert s[..i + 1] == s[..i] + [s[i]];
      r := r[..k] + [s[i]] + r[k..];
    }
    assert s[..|s|] == s;
  }
}
