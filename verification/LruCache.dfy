/** The LRU order of the mini-indexes: a list, most recent first, and a hash map of the tags in it. */
module LruCache {
  import opened Base

  function Without(s: seq<nat>, tag: nat): (r: seq<nat>)
    ensures forall x :: x in r <==> x in s && x != tag
    ensures tag !in s ==> r == s
    ensures |r| <= |s|
  {
    if s == [] then []
    else if s[0] == tag then Without(s[1..], tag)
    else [s[0]] + Without(s[1..], tag)
  }

  lemma {:induction false} WithoutDistinct(s: seq<nat>, tag: nat)
    requires NoRepeats(s)
    ensures NoRepeats(Without(s, tag))
    ensures tag in s ==> |Without(s, tag)| == |s| - 1
  {
    if s != [] {
      var rest := s[1..];
      assert forall i | 0 <= i < |rest| :: rest[i] == s[i + 1] && rest[i] != s[0];
      assert s[0] !in rest;
      WithoutDistinct(rest, tag);
      if s[0] != tag {
        assert tag in s ==> tag in rest;
        var r := Without(rest, tag);
        assert s[0] !in r;
        assert NoRepeats([s[0]] + r);
      }
    }
  }

  /** The others keep their places. */
  lemma {:induction false} WithoutAt(s: seq<nat>, k: nat)
    requires NoRepeats(s) && k < |s|
    ensures Without(s, s[k]) == s[..k] + s[k + 1..]
  {
    var rest := s[1..];
    assert forall i | 0 <= i < |rest| :: rest[i] == s[i + 1];
    if k == 0 {
      assert s[0] !in rest;
    } else {
      assert s[0] != s[k] && rest[k - 1] == s[k];
      WithoutAt(rest, k - 1);
      assert [s[0]] + (rest[..k - 1] + rest[k..]) == s[..k] + s[k + 1..];
    }
  }

  function Reversed(s: seq<nat>): (r: seq<nat>)
    ensures |r| == |s|
    ensures forall i | 0 <= i < |s| :: r[i] == s[|s| - 1 - i]
  {
    seq(|s|, i requires 0 <= i < |s| => s[|s| - 1 - i])
  }

  class Lru {
    var order: seq<nat>        // order_list
    var present: set<nat>      // the keys of tag_map
    const capacity: nat

    ghost predicate Valid()
      reads this
    {
      && NoRepeats(order)
      && (forall x :: x in present <==> x in order)
      && |order| <= capacity
    }

    constructor (capacity: nat)
      ensures Valid() && order == [] && this.capacity == capacity
    {
      this.capacity := capacity;
      order, present := [], {};
    }

    /** Moves the tag to the front; a new tag pushes out the last one when the list is full. */
    method Access(tag: nat) returns (inserted: bool)
      requires Valid() && capacity > 0
      modifies this
      ensures Valid()
      ensures inserted <==> tag !in old(order)
      ensures order == [tag] + if inserted && |old(order)| == capacity then old(order)[..capacity - 1]
                               else Without(old(order), tag)
      ensures forall k | 0 <= k < |old(order)| && old(order)[k] == tag ::
        order == [tag] + (old(order)[..k] + old(order)[k + 1..])
    {
      WithoutDistinct(order, tag);
      forall k | 0 <= k < |order| && order[k] == tag ensures Without(order, tag) == order[..k] + order[k + 1..] {
        WithoutAt(order, k);
      }
      if tag in present {
        order := [tag] + Without(order, tag);
        return false;
      }
      if |order| >= capacity {
        var last := order[|order| - 1];
        assert order == order[..|order| - 1] + [last];
        order := order[..|order| - 1];
        present := present - {last};
      }
      order := [tag] + order;
      present := present + {tag};
      inserted := true;
    }

    /** Removes the n least recently used tags, the oldest first. */
    method Evict(n: nat) returns (evicted: seq<nat>)
      requires Valid()
      modifies this
      ensures Valid()
      ensures var k := if n < |old(order)| then n else |old(order)|;
        order == old(order)[..|old(order)| - k] && evicted == Reversed(old(order)[|old(order)| - k..])
    {
      var k := if n < |order| then n else |order|;
      ghost var s := order;
      evicted := [];
      for i := 0 to k
        invariant Valid() && k <= |s|
        invariant order == s[..|s| - i] && evicted == Reversed(s[|s| - i..])
      {
        var last := order[|order| - 1];
        assert order == order[..|order| - 1] + [last];
        evicted := evicted + [last];
        order := order[..|order| - 1];
        present := present - {last};
      }
    }

    method Contains(tag: nat) returns (b: bool)
      requires Valid()
      ensures b <==> tag in order
    {
      b := tag in present;
    }

    method GetAllTags() returns (tags: seq<nat>)
      ensures tags == order
    {
      tags := order;
    }

    /** The n least recently used tags, the oldest first. */
    method GetLruTags(n: nat) returns (tags: seq<nat>)
      ensures tags == Reversed(order)[..if n < |order| then n else |order|]
    {
      tags := [];
      var i := 0;
      while i < n && i < |order|
        invariant i <= |order| && i <= n && tags == Reversed(order)[..i]
      {
        tags := tags + [order[|order| - 1 - i]];
        i := i + 1;
      }
    }
  }
}
