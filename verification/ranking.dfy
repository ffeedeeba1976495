/** Python's `sort(key=..., reverse=True)` and `sorted(..., reverse=True)`:
    a stable sort into non-increasing key order. Any stable sort yields the
    same sequence, so an insertion sort stands in for Timsort. */
module Ranking {
  import opened Collections

  /** Keys never increase from left to right. */
  ghost predicate SortedDesc<T>(xs: seq<T>, key: T -> real) {
    forall i, j :: 0 <= i < j < |xs| ==> key(xs[i]) >= key(xs[j])
  }

  /** Places `x` in front of the first element whose key is not above
      `x`'s, so equal keys keep their input order. */
  function Insert<T(==)>(x: T, xs: seq<T>, key: T -> real): (r: seq<T>)
    ensures |r| == |xs| + 1
    ensures multiset(r) == multiset(xs) + multiset{x}
    decreases |xs|
  {
    if xs == [] || key(x) >= key(xs[0]) then [x] + xs
    else
      assert xs == [xs[0]] + xs[1..];
      [xs[0]] + Insert(x, xs[1..], key)
  }

  /** Inserting into a ranked sequence keeps it ranked. */
  lemma {:induction false} InsertSorted<T>(x: T, xs: seq<T>, key: T -> real)
    requires SortedDesc(xs, key)
    ensures SortedDesc(Insert(x, xs, key), key)
    decreases |xs|
  {
    if xs != [] && key(x) < key(xs[0]) {
      var tail := xs[1..];
      assert SortedDesc(tail, key) by {
        forall i, j | 0 <= i < j < |tail| ensures key(tail[i]) >= key(tail[j]) {
          assert tail[i] == xs[i + 1] && tail[j] == xs[j + 1];
        }
      }
      InsertSorted(x, tail, key);
      var rest := Insert(x, tail, key);
      forall y | y in rest ensures key(y) <= key(xs[0]) {
        assert y in multiset(rest);
        if y != x {
          assert y in multiset(tail);
          var k :| 0 <= k < |tail| && tail[k] == y;
          assert xs[k + 1] == y;
        }
      }
      ConsSorted(xs[0], rest, key);
      assert Insert(x, xs, key) == [xs[0]] + rest;
    }
  }

  /** A head above every element of a ranked tail gives a ranked sequence. */
  lemma ConsSorted<T>(h: T, rest: seq<T>, key: T -> real)
    requires SortedDesc(rest, key)
    requires forall y :: y in rest ==> key(y) <= key(h)
    ensures SortedDesc([h] + rest, key)
  {
  }

  /** Inserting a new element into a repetition-free sequence keeps it
      repetition-free. */
  lemma {:induction false} InsertDistinct<T>(x: T, xs: seq<T>, key: T -> real)
    requires Distinct(xs) && x !in xs
    ensures Distinct(Insert(x, xs, key))
    decreases |xs|
  {
    if xs != [] && key(x) < key(xs[0]) {
      var rest := Insert(x, xs[1..], key);
      assert xs == [xs[0]] + xs[1..];
      InsertDistinct(x, xs[1..], key);
      assert xs[0] !in multiset(rest);
      var r := [xs[0]] + rest;
      forall i, j | 0 <= i < j < |r|
        ensures r[i] != r[j]
      {
        if i == 0 {
          assert r[j] == rest[j - 1];
          assert r[j] in rest;
        } else {
          assert r[i] == rest[i - 1] && r[j] == rest[j - 1];
        }
      }
    }
  }

  /** The descending sort: a permutation of the input whose keys never
      increase. */
  function SortDesc<T(==)>(xs: seq<T>, key: T -> real): (r: seq<T>)
    ensures |r| == |xs|
    ensures multiset(r) == multiset(xs)
    ensures SortedDesc(r, key)
    decreases |xs|
  {
    if xs == [] then []
    else
      assert xs == [xs[0]] + xs[1..];
      var rest := SortDesc(xs[1..], key);
      InsertSorted(xs[0], rest, key);
      Insert(xs[0], rest, key)
  }

  /** Sorting a repetition-free sequence gives a repetition-free one. */
  lemma {:induction false} SortDescDistinct<T>(xs: seq<T>, key: T -> real)
    requires Distinct(xs)
    ensures Distinct(SortDesc(xs, key))
    decreases |xs|
  {
    if xs != [] {
      assert xs == [xs[0]] + xs[1..];
      assert Distinct(xs[1..]) by {
        forall i, j | 0 <= i < j < |xs[1..]| ensures xs[1..][i] != xs[1..][j] {
          assert xs[1..][i] == xs[i + 1] && xs[1..][j] == xs[j + 1];
        }
      }
      var rest := SortDesc(xs[1..], key);
      SortDescDistinct(xs[1..], key);
      assert xs[0] !in multiset(xs[1..]);
      assert xs[0] !in multiset(rest);
      InsertDistinct(xs[0], rest, key);
    }
  }

  /** Membership survives sorting, in both directions. */
  lemma SortDescMembers<T>(xs: seq<T>, key: T -> real, y: T)
    ensures y in SortDesc(xs, key) <==> y in xs
  {
    var r := SortDesc(xs, key);
    assert y in r <==> y in multiset(r);
    assert y in xs <==> y in multiset(xs);
  }
}
