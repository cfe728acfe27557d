/** Newest-first ordering, shared by the backend listing (`ORDER BY created_at DESC`)
    and the frontend cache merge (`sort` by `created_at` descending). */
module Sorting {
  /** Keys never increase from left to right. */
  ghost predicate SortedDesc<T>(xs: seq<T>, key: T -> int) {
    forall i, j :: 0 <= i < j < |xs| ==> key(xs[i]) >= key(xs[j])
  }

  /** Putting a head no smaller than every tail key in front keeps the order. */
  lemma SortedCons<T>(h: T, t: seq<T>, key: T -> int)
    requires SortedDesc(t, key)
    requires forall k :: 0 <= k < |t| ==> key(h) >= key(t[k])
    ensures SortedDesc([h] + t, key)
  {
    var r := [h] + t;
    forall i, j | 0 <= i < j < |r| ensures key(r[i]) >= key(r[j]) {
      assert r[j] == t[j - 1];
      if i > 0 {
        assert r[i] == t[i - 1];
      }
    }
  }

  /** Putting back the head in front of a tail that received `x` keeps the order and
      adds exactly `x`. */
  lemma InsertBehindHead<T>(x: T, xs: seq<T>, tail: seq<T>, key: T -> int)
    requires |xs| > 0 && SortedDesc(xs, key) && key(xs[0]) >= key(x)
    requires SortedDesc(tail, key) && multiset(tail) == multiset(xs[1..]) + multiset{x}
    ensures SortedDesc([xs[0]] + tail, key)
    ensures multiset([xs[0]] + tail) == multiset(xs) + multiset{x}
  {
    assert xs == [xs[0]] + xs[1..];
    forall k | 0 <= k < |tail| ensures key(xs[0]) >= key(tail[k]) {
      assert tail[k] in multiset(xs[1..]) + multiset{x};
      if tail[k] != x {
        var j :| 0 <= j < |xs[1..]| && xs[1..][j] == tail[k];
        assert xs[1..][j] == xs[j + 1];
      }
    }
    SortedCons(xs[0], tail, key);
  }

  /** Inserts `x` after every leading element whose key is at least its own,
      so that equal keys keep their arrival order. */
  function InsertDesc<T(==)>(x: T, xs: seq<T>, key: T -> int): (r: seq<T>)
    requires SortedDesc(xs, key)
    ensures SortedDesc(r, key)
    ensures multiset(r) == multiset(xs) + multiset{x}
    ensures |r| == |xs| + 1
  {
    if |xs| == 0 then [x]
    else if key(xs[0]) >= key(x) then
      var tail := InsertDesc(x, xs[1..], key);
      InsertBehindHead(x, xs, tail, key);
      [xs[0]] + tail
    else
      SortedCons(x, xs, key);
      [x] + xs
  }

  /** A stable insertion sort, largest key first. */
  function SortDesc<T(==)>(xs: seq<T>, key: T -> int): (r: seq<T>)
    ensures SortedDesc(r, key)
    ensures multiset(r) == multiset(xs)
    ensures |r| == |xs|
  {
    if |xs| == 0 then []
    else
      var init := xs[..|xs| - 1];
      assert xs == init + [xs[|xs| - 1]];
      InsertDesc(xs[|xs| - 1], SortDesc(init, key), key)
  }
}
