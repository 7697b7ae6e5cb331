/** The candidate list of a graph search: neighbours ordered by distance, and the insertion that keeps
    them so. Distances are exact reals. */
module Neighbors {
  datatype Neighbor = Neighbor(id: nat, distance: real, flag: bool)

  ghost predicate Sorted(s: seq<Neighbor>) {
    forall i, j | 0 <= i < j < |s| :: s[i].distance <= s[j].distance
  }

  ghost predicate Distinct(s: seq<Neighbor>) {
    forall i, j | 0 <= i < j < |s| :: s[i].id != s[j].id
  }

  /** memmove of addr[at..K] by one place, then a store into the gap. */
  method OpenGap(addr: array<Neighbor>, at: nat, K: nat, nn: Neighbor)
    requires at <= K < addr.Length
    modifies addr
    ensures addr[..] == old(addr[..at]) + [nn] + old(addr[at..K]) + old(addr[K + 1..])
  {
    forall i | at <= i < K { addr[i + 1] := addr[i]; }
    addr[at] := nn;
  }

  ghost predicate Has(s: seq<Neighbor>, id: nat) {
    exists i :: 0 <= i < |s| && s[i].id == id
  }

  /** The binary search of InsertIntoPool: neighbours up to `left` are no farther, from `right` on no
      nearer, and only the last place can hold an equally far one at or after `right`. */
  method Bisect(addr: array<Neighbor>, K: nat, d: real) returns (left: nat, right: nat)
    requires 0 < K < addr.Length && Sorted(addr[..K])
    requires addr[0].distance <= d <= addr[K - 1].distance
    ensures left <= right < K && right <= left + 1
    ensures addr[left].distance <= d <= addr[right].distance
    ensures left == right ==> K == 1
    ensures right == K - 1 || d < addr[right].distance
  {
    left, right := 0, K - 1;
    while right > 1 && left < right - 1
      invariant left <= right < K && (left == right ==> K == 1)
      invariant addr[left].distance <= d <= addr[right].distance
      invariant right == K - 1 || d < addr[right].distance
    {
      var mid := (left + right) / 2;
      if addr[mid].distance > d {
        right := mid;
      } else {
        left := mid;
      }
    }
  }

  /** The scan for an equal id, among the equally far neighbours at or before `left`. */
  method HasEqual(addr: array<Neighbor>, K: nat, nn: Neighbor, left: nat, right: nat) returns (found: bool)
    requires left <= right < K < addr.Length && right <= left + 1 && Sorted(addr[..K])
    requires forall i | 0 <= i < K :: addr[i].id == nn.id ==> addr[i].distance == nn.distance
    requires right == K - 1 || nn.distance < addr[right].distance
    ensures found <==> Has(addr[..K], nn.id)
  {
    ghost var s := addr[..K];
    var k := left;
    while k > 0
      invariant 0 <= k <= left
      invariant forall j | k < j <= left :: s[j].id != nn.id
    {
      if addr[k].distance < nn.distance {
        break;
      }
      if addr[k].id == nn.id {
        assert s[k].id == nn.id;
        return true;
      }
      k := k - 1;
    }
    assert s[k] == addr[k] && s[right] == addr[right];
    found := addr[k].id == nn.id || addr[right].id == nn.id;
  }

  /** Inserts nn at a place that fits its distance. */
  method Put(addr: array<Neighbor>, at: nat, K: nat, nn: Neighbor)
    requires at <= K < addr.Length && Sorted(addr[..K])
    requires forall i | 0 <= i < at :: addr[i].distance <= nn.distance
    requires forall i | at <= i < K :: nn.distance <= addr[i].distance
    modifies addr
    ensures addr[..] == old(addr[..at]) + [nn] + old(addr[at..K]) + old(addr[K + 1..])
    ensures Sorted(addr[..K + 1])
  {
    ghost var s := addr[..K];
    OpenGap(addr, at, K, nn);
    assert addr[..K + 1] == s[..at] + [nn] + s[at..];
  }

  /** Inserts nn into the ordered list addr[..K], moving the tail one place to the right. A neighbour
      that is already there is left alone, which K + 1 reports. */
  method InsertIntoPool(addr: array<Neighbor>, K: nat, nn: Neighbor) returns (r: nat)
    requires 0 < K < addr.Length && Sorted(addr[..K])
    requires forall i | 0 <= i < K :: addr[i].id == nn.id ==> addr[i].distance == nn.distance
    modifies addr
    ensures r == K + 1 <==> Has(old(addr[..K]), nn.id)
    ensures r == K + 1 ==> addr[..] == old(addr[..])
    ensures r != K + 1 ==>
      && r <= K
      && addr[..] == old(addr[..r]) + [nn] + old(addr[r..K]) + old(addr[K + 1..])
      && Sorted(addr[..K + 1])
  {
    ghost var s := addr[..K];
    if addr[0].distance > nn.distance {
      assert !Has(s, nn.id);
      Put(addr, 0, K, nn);
      return 0;
    }
    if addr[K - 1].distance < nn.distance {
      assert s[K - 1].distance < nn.distance;
      assert !Has(s, nn.id);
      Put(addr, K, K, nn);
      return K;
    }
    var left, right := Bisect(addr, K, nn.distance);
    var found := HasEqual(addr, K, nn, left, right);
    if found {
      return K + 1;
    }
    assert s[left] == addr[left] && s[right] == addr[right];
    Put(addr, right, K, nn);
    return right;
  }
}
