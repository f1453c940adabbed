/** Sorting by an integer key, as a database `ORDER BY` does: a stable
    insertion sort with the sortedness and permutation facts the queries
    need. */
module Sorting {

  /** Keys never decrease along `s`. */
  predicate SortedBy<T>(s: seq<T>, key: T -> int)
  {
    forall i, j :: 0 <= i < j < |s| ==> key(s[i]) <= key(s[j])
  }

  /** Putting `y` in front of a sorted sequence whose keys are all at least
      `key(y)` keeps it sorted. */
  lemma SortedCons<T>(y: T, s: seq<T>, key: T -> int)
    requires SortedBy(s, key)
    requires forall z :: z in s ==> key(y) <= key(z)
    ensures SortedBy([y] + s, key)
  {
    var r := [y] + s;
    forall i, j | 0 <= i < j < |r| ensures key(r[i]) <= key(r[j]) {
      assert r[j] == s[j - 1];
      if i > 0 {
        assert r[i] == s[i - 1];
      }
    }
  }

  /** Inserts `x` in front of the first element with a larger key. */
  function Insert<T>(x: T, s: seq<T>, key: T -> int): (r: seq<T>)
    requires SortedBy(s, key)
    ensures SortedBy(r, key)
    ensures forall y :: y in r ==> y == x || y in s
    ensures multiset(r) == multiset(s) + multiset{x}
  {
    if s == [] then [x]
    else if key(x) <= key(s[0]) then
      SortedCons(x, s, key);
      [x] + s
    else
      var rest := Insert(x, s[1..], key);
      assert s == [s[0]] + s[1..];
      assert forall z :: z in s[1..] ==> key(s[0]) <= key(z) by {
        forall z | z in s[1..] ensures key(s[0]) <= key(z) {
          var m :| 0 <= m < |s[1..]| && s[1..][m] == z;
          assert s[m + 1] == z;
        }
      }
      SortedCons(s[0], rest, key);
      [s[0]] + rest
  }

  /** Insertion sort: a sorted permutation of `s`. */
  function SortBy<T>(s: seq<T>, key: T -> int): (r: seq<T>)
    ensures SortedBy(r, key)
    ensures multiset(r) == multiset(s)
    ensures |r| == |s|
  {
    if s == [] then []
    else
      assert s == [s[0]] + s[1..];
      Insert(s[0], SortBy(s[1..], key), key)
  }
}
