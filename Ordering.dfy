/** `order_by` on a queryset: a sort of the rows by an integer key, ascending.
    A descending order (`-pub_date`) is the ascending order of the negated key. */
module Ordering {

  /** The keys of `s` never decrease from left to right. */
  ghost predicate SortedBy<T>(s: seq<T>, key: T -> int) {
    forall i, j :: 0 <= i < j < |s| ==> key(s[i]) <= key(s[j])
  }

  /** A suffix of a sorted sequence is sorted. */
  lemma SortedTail<T>(s: seq<T>, key: T -> int)
    requires s != [] && SortedBy(s, key)
    ensures SortedBy(s[1..], key)
    ensures forall y :: y in s[1..] ==> key(s[0]) <= key(y)
  {
    var tail := s[1..];
    forall i, j | 0 <= i < j < |tail| ensures key(tail[i]) <= key(tail[j]) {
      assert tail[i] == s[i + 1] && tail[j] == s[j + 1];
    }
    forall y | y in tail ensures key(s[0]) <= key(y) {
      var m :| 0 <= m < |tail| && tail[m] == y;
      assert s[m + 1] == y;
    }
  }

  /** Putting in front a row whose key bounds all the others from below keeps the order. */
  lemma SortedCons<T>(x: T, s: seq<T>, key: T -> int)
    requires SortedBy(s, key)
    requires forall y :: y in s ==> key(x) <= key(y)
    ensures SortedBy([x] + s, key)
  {
    var r := [x] + s;
    forall i, j | 0 <= i < j < |r| ensures key(r[i]) <= key(r[j]) {
      assert r[j] == s[j - 1] && r[j] in s;
      if i > 0 { assert r[i] == s[i - 1]; }
    }
  }

  /** Inserts `x` into a sorted `s` before the first row whose key is not smaller. */
  function Insert<T(!new)>(x: T, s: seq<T>, key: T -> int): (r: seq<T>)
    requires SortedBy(s, key)
    ensures SortedBy(r, key)
    ensures multiset(r) == multiset(s) + multiset{x}
  {
    if s == [] then [x]
    else if key(x) <= key(s[0]) then
      SortedTail(s, key);
      assert forall y :: y in s ==> y == s[0] || y in s[1..];
      SortedCons(x, s, key);
      [x] + s
    else
      SortedTail(s, key);
      var rest := Insert(x, s[1..], key);
      assert forall y :: y in rest ==> y in multiset(rest);
      SortedCons(s[0], rest, key);
      assert s == [s[0]] + s[1..];
      [s[0]] + rest
  }

  /** The rows of `s` in ascending order of `key`: a permutation of `s`. */
  function SortBy<T(!new)>(s: seq<T>, key: T -> int): (r: seq<T>)
    ensures SortedBy(r, key)
    ensures multiset(r) == multiset(s)
    ensures |r| == |s|
  {
    if s == [] then []
    else
      var rest := SortBy(s[1..], key);
      assert s == [s[0]] + s[1..];
      Insert(s[0], rest, key)
  }

  /** Sorting keeps exactly the rows it was given. */
  lemma SortByMembers<T(!new)>(s: seq<T>, key: T -> int)
    ensures forall x :: x in SortBy(s, key) <==> x in s
  {
    var r := SortBy(s, key);
    forall x ensures x in r <==> x in s {
      assert x in r <==> x in multiset(r);
      assert x in s <==> x in multiset(s);
    }
  }
}
