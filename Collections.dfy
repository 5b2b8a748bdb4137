/** Query primitives over database tables, modelled as sequences of rows in
    table order: a queryset `filter`, a lookup by key (`get`), and the
    uniqueness of a key column (a primary key or a `unique=True` field). */
module Collections {

  datatype Option<T> = None | Some(value: T)

  /** The rows of `s` that satisfy `keep`, in their original order. */
  function Filter<T(!new)>(s: seq<T>, keep: T -> bool): (r: seq<T>)
    ensures forall x :: x in r <==> x in s && keep(x)
    ensures forall x :: multiset(r)[x] == if keep(x) then multiset(s)[x] else 0
    ensures |r| <= |s|
  {
    assert s != [] ==> s == [s[0]] + s[1..];
    if s == [] then []
    else if keep(s[0]) then [s[0]] + Filter(s[1..], keep)
    else Filter(s[1..], keep)
  }

  /** No two rows of `s` agree on `key`. */
  ghost predicate UniqueBy<T, K>(s: seq<T>, key: T -> K) {
    forall i, j :: 0 <= i < j < |s| ==> key(s[i]) != key(s[j])
  }

  /** The first row whose `key` is `k`, if any (`get_object_or_404` before the 404). */
  function FindKey<T(!new), K(==)>(s: seq<T>, key: T -> K, k: K): (r: Option<T>)
    ensures r.Some? ==> r.value in s && key(r.value) == k
    ensures r.None? <==> forall x :: x in s ==> key(x) != k
  {
    if s == [] then None
    else if key(s[0]) == k then Some(s[0])
    else FindKey(s[1..], key, k)
  }

  /** The set of keys that occur in `s`. */
  ghost function Keys<T(!new), K(!new)>(s: seq<T>, key: T -> K): (ks: set<K>)
    ensures forall x :: x in s ==> key(x) in ks
    ensures forall k :: k in ks ==> exists x :: x in s && key(x) == k
  {
    set x | x in s :: key(x)
  }

  /** Under a unique key, looking a row's key up gives that very row. */
  lemma {:induction false} FindKeyUnique<T(!new), K>(s: seq<T>, key: T -> K, x: T)
    requires UniqueBy(s, key)
    requires x in s
    ensures FindKey(s, key, key(x)) == Some(x)
  {
    if s[0] != x {
      assert x in s[1..];
      var j :| 1 <= j < |s| && s[j] == x;
      assert key(s[0]) != key(s[j]);
      TailUnique(s, key);
      FindKeyUnique(s[1..], key, x);
    }
  }

  /** A row whose key is new, put in front of rows with a unique key, keeps it unique. */
  lemma ConsUnique<T, K>(x: T, s: seq<T>, key: T -> K)
    requires UniqueBy(s, key)
    requires forall y :: y in s ==> key(y) != key(x)
    ensures UniqueBy([x] + s, key)
  {
    var r := [x] + s;
    forall i, k | 0 <= i < k < |r| ensures key(r[i]) != key(r[k]) {
      assert r[k] == s[k - 1];
      if i > 0 { assert r[i] == s[i - 1]; }
    }
  }

  /** The rows after the first keep a unique key, and none shares the first's key. */
  lemma TailUnique<T, K>(s: seq<T>, key: T -> K)
    requires s != [] && UniqueBy(s, key)
    ensures UniqueBy(s[1..], key)
    ensures forall y :: y in s[1..] ==> key(y) != key(s[0])
  {
    var tail := s[1..];
    forall i, k | 0 <= i < k < |tail| ensures key(tail[i]) != key(tail[k]) {
      assert tail[i] == s[i + 1] && tail[k] == s[k + 1];
    }
    forall y | y in tail ensures key(y) != key(s[0]) {
      var m :| 0 <= m < |tail| && tail[m] == y;
      assert s[m + 1] == y;
    }
  }

  /** Filtering keeps a key unique. */
  lemma {:induction false} FilterUnique<T(!new), K>(s: seq<T>, keep: T -> bool, key: T -> K)
    requires UniqueBy(s, key)
    ensures UniqueBy(Filter(s, keep), key)
  {
    if s != [] {
      TailUnique(s, key);
      FilterUnique(s[1..], keep, key);
      if keep(s[0]) {
        ConsUnique(s[0], Filter(s[1..], keep), key);
      }
    }
  }

  /** Appending a row whose key is new keeps the key unique. */
  lemma AppendUnique<T(!new), K>(s: seq<T>, x: T, key: T -> K)
    requires UniqueBy(s, key)
    requires forall y :: y in s ==> key(y) != key(x)
    ensures UniqueBy(s + [x], key)
  {
    var r := s + [x];
    forall i, k | 0 <= i < k < |r| ensures key(r[i]) != key(r[k]) {
      if k == |s| {
        assert r[i] == s[i] && r[i] in s;
      } else {
        assert r[i] == s[i] && r[k] == s[k];
      }
    }
  }

  /** A unique key takes as many distinct values as there are rows. */
  lemma {:induction false} UniqueKeysCount<T(!new), K(!new)>(s: seq<T>, key: T -> K)
    requires UniqueBy(s, key)
    ensures |Keys(s, key)| == |s|
  {
    if s != [] {
      var tail := s[1..];
      TailUnique(s, key);
      UniqueKeysCount(tail, key);
      assert Keys(s, key) == {key(s[0])} + Keys(tail, key) by {
        forall x | x in s ensures x == s[0] || x in tail {
          var m :| 0 <= m < |s| && s[m] == x;
          if m > 0 { assert tail[m - 1] == x; }
        }
      }
    }
  }

  /** A key never takes more values than there are rows, and takes fewer
      exactly when two rows share one. */
  lemma {:induction false} KeysCountBound<T(!new), K(!new)>(s: seq<T>, key: T -> K)
    ensures |Keys(s, key)| <= |s|
    ensures !UniqueBy(s, key) ==> |Keys(s, key)| < |s|
  {
    if s != [] {
      var tail := s[1..];
      KeysCountBound(tail, key);
      assert Keys(s, key) == {key(s[0])} + Keys(tail, key) by {
        forall x | x in s ensures x == s[0] || x in tail {
          var m :| 0 <= m < |s| && s[m] == x;
          if m > 0 { assert tail[m - 1] == x; }
        }
      }
      if !UniqueBy(s, key) {
        var i, j :| 0 <= i < j < |s| && key(s[i]) == key(s[j]);
        if i == 0 {
          assert s[j] == tail[j - 1];
          assert Keys(s, key) == Keys(tail, key);
        } else {
          assert tail[i - 1] == s[i] && tail[j - 1] == s[j];
        }
      }
    }
  }

  /** Reordering rows keeps a key unique. */
  lemma PermutationKeepsUnique<T(!new), K(!new)>(s: seq<T>, r: seq<T>, key: T -> K)
    requires multiset(r) == multiset(s)
    requires UniqueBy(s, key)
    ensures UniqueBy(r, key)
  {
    assert |r| == |multiset(r)| == |multiset(s)| == |s|;
    assert forall x :: x in r <==> x in s by {
      forall x ensures x in r <==> x in s {
        assert x in r <==> x in multiset(r);
        assert x in s <==> x in multiset(s);
      }
    }
    assert Keys(r, key) == Keys(s, key);
    UniqueKeysCount(s, key);
    KeysCountBound(r, key);
  }

  /** Filtering twice by nested conditions is filtering once by the narrower. */
  lemma {:induction false} FilterFilter<T(!new)>(s: seq<T>, wide: T -> bool, narrow: T -> bool)
    requires forall x :: narrow(x) ==> wide(x)
    ensures Filter(Filter(s, wide), narrow) == Filter(s, narrow)
  {
    if s != [] {
      FilterFilter(s[1..], wide, narrow);
    }
  }

  /** Filtering a table with one more row at the end. */
  lemma {:induction false} FilterAppend<T(!new)>(s: seq<T>, x: T, keep: T -> bool)
    ensures Filter(s + [x], keep) == Filter(s, keep) + (if keep(x) then [x] else [])
  {
    if s == [] {
      assert s + [x] == [x];
    } else {
      assert (s + [x])[1..] == s[1..] + [x];
      FilterAppend(s[1..], x, keep);
    }
  }

  /** A key survives a filter when every row carrying it is kept. */
  lemma KeyKept<T(!new), K(!new)>(s: seq<T>, keep: T -> bool, key: T -> K, k: K)
    requires k in Keys(s, key)
    requires forall x :: x in s && key(x) == k ==> keep(x)
    ensures k in Keys(Filter(s, keep), key)
  {
    var x :| x in s && key(x) == k;
    assert x in Filter(s, keep);
  }

  /** Appending a row adds its key and keeps all others. */
  lemma KeysAppend<T(!new), K(!new)>(s: seq<T>, x: T, key: T -> K)
    ensures Keys(s + [x], key) == Keys(s, key) + {key(x)}
  {
    assert forall y :: y in s + [x] <==> y in s || y == x;
  }
}
