/** The stable sort behind `sorted()` and `sorted_by(..)`, on an integer key. */
module Sorting {

  /** Non-decreasing by `key`. */
  ghost predicate SortedBy<T>(xs: seq<T>, key: T -> int)
  {
    forall i, j :: 0 <= i < j < |xs| ==> key(xs[i]) <= key(xs[j])
  }

  /** Inserts `x` before the first element whose key is not smaller, so that
      an element already present with an equal key stays after it. */
  function InsertBy<T>(x: T, xs: seq<T>, key: T -> int): (r: seq<T>)
    requires SortedBy(xs, key)
    ensures SortedBy(r, key)
    ensures multiset(r) == multiset(xs) + multiset{x}
    ensures |r| == |xs| + 1
    ensures r[0] == x || (|xs| > 0 && r[0] == xs[0])
  {
    if |xs| == 0 then [x]
    else if key(x) <= key(xs[0]) then [x] + xs
    else
      var tail := InsertBy(x, xs[1..], key);
      assert xs == [xs[0]] + xs[1..];
      assert key(xs[0]) <= key(tail[0]);
      var r := [xs[0]] + tail;
      assert forall j :: 0 < j < |r| ==> r[j] == tail[j - 1];
      r
  }

  /** Stable insertion sort: elements with equal keys keep their input order. */
  function SortBy<T>(xs: seq<T>, key: T -> int): (r: seq<T>)
    ensures SortedBy(r, key)
    ensures multiset(r) == multiset(xs)
    ensures |r| == |xs|
  {
    if |xs| == 0 then []
    else
      assert xs == [xs[0]] + xs[1..];
      InsertBy(xs[0], SortBy(xs[1..], key), key)
  }

  /** Every element of a sorted sequence is in the original and vice versa. */
  lemma SortByMembers<T>(xs: seq<T>, key: T -> int)
    ensures forall x :: x in SortBy(xs, key) <==> x in xs
  {
    var r := SortBy(xs, key);
    assert forall x :: x in r <==> x in multiset(r);
  }

  /** `sorted_by(..).take(n)`: the first `n` elements in key order. */
  function TopBy<T>(xs: seq<T>, key: T -> int, n: nat): (kept: seq<T>)
    ensures |kept| == if n < |xs| then n else |xs|
    ensures SortedBy(kept, key)
    ensures multiset(kept) <= multiset(xs)
  {
    var sorted := SortBy(xs, key);
    var m := if n < |xs| then n else |xs|;
    assert sorted == sorted[..m] + sorted[m..];
    sorted[..m]
  }

  /** Nothing `TopBy` leaves out has a smaller key than anything it keeps. */
  lemma TopByLeaders<T>(xs: seq<T>, key: T -> int, n: nat)
    ensures forall x, y :: x in TopBy(xs, key, n) && y in multiset(xs) - multiset(TopBy(xs, key, n)) ==> key(x) <= key(y)
  {
    var sorted := SortBy(xs, key);
    var m := if n < |xs| then n else |xs|;
    var kept, dropped := sorted[..m], sorted[m..];
    assert kept == TopBy(xs, key, n);
    assert sorted == kept + dropped;
    assert multiset(xs) == multiset(kept) + multiset(dropped);
    forall x, y | x in kept && y in multiset(xs) - multiset(kept)
      ensures key(x) <= key(y)
    {
      var i :| 0 <= i < |kept| && kept[i] == x;
      assert y in dropped;
      var j :| 0 <= j < |dropped| && dropped[j] == y;
      assert sorted[i] == x && sorted[m + j] == y;
    }
  }
}
