/**
  Ordering rows by a numeric key, as `ORDER BY` and `sort_values` do: an
  insertion sort on sequences, proved to return an ascending permutation.
  When keys tie, it keeps the rows in their original order, one of the orders
  the engines may produce.
*/
module Sorting {

  predicate SortedByKey<T>(xs: seq<T>, key: T -> real)
  {
    forall i, j | 0 <= i < j < |xs| :: key(xs[i]) <= key(xs[j])
  }

  /** Put x before the first element whose key is larger, after any with an equal key. */
  function InsertByKey<T>(x: T, xs: seq<T>, key: T -> real): (r: seq<T>)
    ensures multiset(r) == multiset(xs) + multiset{x}
    ensures |r| == |xs| + 1
  {
    if xs == [] then [x]
    else if key(x) < key(xs[0]) then [x] + xs
    else
      assert xs == [xs[0]] + xs[1..];
      [xs[0]] + InsertByKey(x, xs[1..], key)
  }

  lemma {:induction false} InsertSorted<T>(x: T, xs: seq<T>, key: T -> real)
    requires SortedByKey(xs, key)
    ensures SortedByKey(InsertByKey(x, xs, key), key)
    decreases |xs|
  {
    if xs != [] && key(x) >= key(xs[0]) {
      var rest := InsertByKey(x, xs[1..], key);
      InsertSorted(x, xs[1..], key);
      forall i | 0 <= i < |rest| ensures key(xs[0]) <= key(rest[i]) {
        assert rest[i] in multiset(rest);
        if rest[i] != x {
          assert rest[i] in multiset(xs[1..]);
          var j :| 0 <= j < |xs[1..]| && xs[1..][j] == rest[i];
          assert xs[j + 1] == rest[i];
        }
      }
      var r := [xs[0]] + rest;
      forall i, j | 0 <= i < j < |r| ensures key(r[i]) <= key(r[j]) {
        if i > 0 {
          assert r[i] == rest[i - 1] && r[j] == rest[j - 1];
        } else {
          assert r[j] == rest[j - 1];
        }
      }
    }
  }

  /** The rows, ascending by key. */
  function SortByKey<T>(xs: seq<T>, key: T -> real): (r: seq<T>)
    ensures multiset(r) == multiset(xs)
    ensures |r| == |xs|
  {
    if xs == [] then []
    else
      assert xs == xs[..|xs| - 1] + [xs[|xs| - 1]];
      InsertByKey(xs[|xs| - 1], SortByKey(xs[..|xs| - 1], key), key)
  }

  lemma {:induction false} SortByKeySorted<T>(xs: seq<T>, key: T -> real)
    ensures SortedByKey(SortByKey(xs, key), key)
    decreases |xs|
  {
    if xs != [] {
      SortByKeySorted(xs[..|xs| - 1], key);
      InsertSorted(xs[|xs| - 1], SortByKey(xs[..|xs| - 1], key), key);
    }
  }

  /** Rows already in key order come back unchanged. */
  lemma {:induction false} SortByKeyKeepsSorted<T>(xs: seq<T>, key: T -> real)
    requires SortedByKey(xs, key)
    ensures SortByKey(xs, key) == xs
    decreases |xs|
  {
    if xs != [] {
      var init, last := xs[..|xs| - 1], xs[|xs| - 1];
      SortByKeyKeepsSorted(init, key);
      InsertAtEnd(last, init, key);
      assert init + [last] == xs;
    }
  }

  lemma {:induction false} InsertAtEnd<T>(x: T, xs: seq<T>, key: T -> real)
    requires forall i | 0 <= i < |xs| :: key(xs[i]) <= key(x)
    ensures InsertByKey(x, xs, key) == xs + [x]
    decreases |xs|
  {
    if xs != [] {
      InsertAtEnd(x, xs[1..], key);
      assert [xs[0]] + (xs[1..] + [x]) == xs + [x];
    }
  }
}
