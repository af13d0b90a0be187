/** Stable sorting by a key. */
module Sorting {

  function Insert<T>(key: T -> real, x: T, s: seq<T>): seq<T> {
    if s == [] || key(x) <= key(s[0]) then [x] + s else [s[0]] + Insert(key, x, s[1..])
  }

  function SortBy<T>(key: T -> real, s: seq<T>): seq<T> {
    if s == [] then [] else Insert(key, s[0], SortBy(key, s[1..]))
  }

  predicate Sorted<T>(key: T -> real, s: seq<T>) {
    s == [] || ((forall k :: 0 < k < |s| ==> key(s[0]) <= key(s[k])) && Sorted(key, s[1..]))
  }

  lemma SortedCons<T>(key: T -> real, x: T, s: seq<T>)
    ensures Sorted(key, [x] + s) <==> Sorted(key, s) && forall y :: y in s ==> key(x) <= key(y)
  {
    var all := [x] + s;
    assert all[1..] == s;
    assert forall k :: 0 <= k < |s| ==> all[k + 1] == s[k];
  }

  lemma {:induction false} InsertMembers<T>(key: T -> real, x: T, s: seq<T>)
    ensures multiset(Insert(key, x, s)) == multiset(s) + multiset{x}
    ensures forall y :: y in Insert(key, x, s) <==> y == x || y in s
    decreases |s|
  {
    if s != [] {
      assert s == [s[0]] + s[1..];
      InsertMembers(key, x, s[1..]);
    }
  }

  lemma {:induction false} InsertSorts<T>(key: T -> real, x: T, s: seq<T>)
    requires Sorted(key, s)
    ensures Sorted(key, Insert(key, x, s))
    decreases |s|
  {
    if s == [] {
      SortedCons(key, x, s);
    } else {
      var h, rest := s[0], s[1..];
      hide Sorted;
      assert s == [h] + rest;
      SortedCons(key, h, rest);
      if key(x) <= key(h) {
        SortedCons(key, x, s);
        assert Insert(key, x, s) == [x] + s;
      } else {
        InsertSorts(key, x, rest);
        InsertMembers(key, x, rest);
        SortedCons(key, h, Insert(key, x, rest));
      }
    }
  }

  /** The same elements, in order. */
  lemma {:induction false} SortBySorts<T>(key: T -> real, s: seq<T>)
    ensures Sorted(key, SortBy(key, s)) && multiset(SortBy(key, s)) == multiset(s)
    ensures forall y :: y in SortBy(key, s) <==> y in s
    decreases |s|
  {
    hide Sorted;
    if s == [] {
      SortedNothing<T>(key);
    } else {
      assert s == [s[0]] + s[1..];
      SortBySorts(key, s[1..]);
      InsertSorts(key, s[0], SortBy(key, s[1..]));
      InsertMembers(key, s[0], SortBy(key, s[1..]));
    }
  }

  lemma SortedNothing<T>(key: T -> real)
    ensures Sorted(key, [])
  {
  }
}
