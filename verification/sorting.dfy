/**
 `sort.Sort` over a sort.Interface: the library only asks of `Less` that it be
 a strict weak order, and promises a permutation in which no element is
 followed by one it is greater than. The algorithm here is an insertion sort;
 Go's own algorithm differs, and neither fixes the order of equivalent elements.
 */
module Sorting {

  ghost predicate Asymmetric<T(!new)>(less: (T, T) -> bool)
  {
    forall x, y :: less(x, y) ==> !less(y, x)
  }

  ghost predicate Transitive<T(!new)>(less: (T, T) -> bool)
  {
    forall x, y, z :: less(x, y) && less(y, z) ==> less(x, z)
  }

  /** No later element is less than an earlier one. */
  ghost predicate SortedBy<T>(s: seq<T>, less: (T, T) -> bool)
  {
    forall i, j :: 0 <= i < j < |s| ==> !less(s[j], s[i])
  }

  /** Puts x before the first element it is less than. */
  function InsertBy<T(!new)>(x: T, s: seq<T>, less: (T, T) -> bool): (r: seq<T>)
    requires Asymmetric(less) && Transitive(less)
    requires SortedBy(s, less)
    ensures multiset(r) == multiset(s) + multiset{x}
    ensures SortedBy(r, less)
  {
    if |s| == 0 then [x]
    else if less(x, s[0]) then
      InsertFront(x, s, less);
      [x] + s
    else
      var rest := InsertBy(x, s[1..], less);
      InsertBehind(x, s, rest, less);
      [s[0]] + rest
  }

  lemma InsertFront<T(!new)>(x: T, s: seq<T>, less: (T, T) -> bool)
    requires Asymmetric(less) && Transitive(less)
    requires SortedBy(s, less) && |s| > 0 && less(x, s[0])
    ensures SortedBy([x] + s, less)
  {
    var r := [x] + s;
    forall k | 0 <= k < |s| ensures !less(s[k], x) {
    }
    forall i, j | 0 <= i < j < |r| ensures !less(r[j], r[i]) {
      assert r[j] == s[j - 1];
      if i > 0 {
        assert r[i] == s[i - 1];
      }
    }
  }

  lemma InsertBehind<T(!new)>(x: T, s: seq<T>, rest: seq<T>, less: (T, T) -> bool)
    requires SortedBy(s, less) && |s| > 0 && !less(x, s[0])
    requires SortedBy(rest, less) && multiset(rest) == multiset(s[1..]) + multiset{x}
    ensures SortedBy([s[0]] + rest, less)
    ensures multiset([s[0]] + rest) == multiset(s) + multiset{x}
  {
    var r := [s[0]] + rest;
    forall j | 0 <= j < |rest| ensures !less(rest[j], s[0]) {
      assert rest[j] in multiset(rest);
      if rest[j] != x {
        assert rest[j] in multiset(s[1..]);
        var m :| 0 <= m < |s[1..]| && s[1..][m] == rest[j];
        assert s[m + 1] == rest[j];
      }
    }
    forall i, j | 0 <= i < j < |r| ensures !less(r[j], r[i]) {
      assert r[j] == rest[j - 1];
      if i > 0 {
        assert r[i] == rest[i - 1];
      }
    }
    assert s == [s[0]] + s[1..];
  }

  /** A permutation of s, sorted by `less`. */
  function SortBy<T(!new)>(s: seq<T>, less: (T, T) -> bool): (r: seq<T>)
    requires Asymmetric(less) && Transitive(less)
    ensures multiset(r) == multiset(s)
    ensures SortedBy(r, less)
  {
    if |s| == 0 then []
    else
      assert s == [s[0]] + s[1..];
      InsertBy(s[0], SortBy(s[1..], less), less)
  }
}
