/** A stable sort of a sequence by an integer key.

    `Array.prototype.sort` is stable, and the chat code sorts by timestamps,
    so equal timestamps keep insertion order. Insertion sort is stable by
    construction; stability is stated as "for every key, the elements with
    that key appear in the same order before and after sorting". */
module Sorting {

  ghost predicate SortedBy<T>(s: seq<T>, key: T -> int) {
    forall i, j :: 0 <= i < j < |s| ==> key(s[i]) <= key(s[j])
  }

  /** The subsequence of `s` whose elements have key `k`. */
  function WithKey<T>(s: seq<T>, key: T -> int, k: int): seq<T> {
    if s == [] then []
    else (if key(s[0]) == k then [s[0]] else []) + WithKey(s[1..], key, k)
  }

  /** No two elements of `s` share an `f`-value. */
  ghost predicate DistinctBy<T, K>(s: seq<T>, f: T -> K) {
    forall i, j :: 0 <= i < j < |s| ==> f(s[i]) != f(s[j])
  }

  /** Inserts `x` before the first element whose key is not smaller. */
  function Insert<T>(x: T, t: seq<T>, key: T -> int): (r: seq<T>)
    ensures |r| == |t| + 1
    ensures multiset(r) == multiset(t) + multiset{x}
  {
    if t == [] || key(x) <= key(t[0]) then [x] + t
    else
      assert t == [t[0]] + t[1..];
      [t[0]] + Insert(x, t[1..], key)
  }

  lemma {:induction false} InsertSorted<T>(x: T, t: seq<T>, key: T -> int)
    requires SortedBy(t, key)
    ensures SortedBy(Insert(x, t, key), key)
  {
    if t != [] && key(x) > key(t[0]) {
      var rest := Insert(x, t[1..], key);
      SortedTail(t, key);
      InsertSorted(x, t[1..], key);
      forall y | y in rest ensures key(t[0]) <= key(y) {
        assert y in multiset(rest);
        assert y == x || y in t[1..];
      }
      ConsSorted(t[0], rest, key);
    }
  }

  lemma SortedTail<T>(t: seq<T>, key: T -> int)
    requires t != [] && SortedBy(t, key)
    ensures SortedBy(t[1..], key)
  {
    forall i, j | 0 <= i < j < |t[1..]| ensures key(t[1..][i]) <= key(t[1..][j]) {
      assert t[1..][i] == t[i + 1] && t[1..][j] == t[j + 1];
    }
  }

  /** A sorted sequence stays sorted under a head no larger than its elements. */
  lemma ConsSorted<T>(h: T, rest: seq<T>, key: T -> int)
    requires SortedBy(rest, key)
    requires forall y :: y in rest ==> key(h) <= key(y)
    ensures SortedBy([h] + rest, key)
  {
    var r := [h] + rest;
    forall i, j | 0 <= i < j < |r| ensures key(r[i]) <= key(r[j]) {
      assert r[j] == rest[j - 1];
      if i > 0 {
        assert r[i] == rest[i - 1];
      }
    }
  }

  /** Stable insertion sort, ascending by `key`. */
  function SortBy<T>(s: seq<T>, key: T -> int): (r: seq<T>)
    ensures |r| == |s|
    ensures multiset(r) == multiset(s)
    ensures SortedBy(r, key)
  {
    if s == [] then []
    else
      assert s == [s[0]] + s[1..];
      InsertSorted(s[0], SortBy(s[1..], key), key);
      Insert(s[0], SortBy(s[1..], key), key)
  }

  /** The index of the first element of minimal key: the element a stable
      ascending sort puts first. */
  function FirstMinIndex<T>(s: seq<T>, key: T -> int): (i: nat)
    requires s != []
    ensures i < |s|
    ensures forall j :: 0 <= j < |s| ==> key(s[i]) <= key(s[j])
    ensures forall j :: 0 <= j < i ==> key(s[i]) < key(s[j])
  {
    if |s| == 1 then 0
    else
      var j := 1 + FirstMinIndex(s[1..], key);
      if key(s[0]) <= key(s[j]) then 0 else j
  }

  lemma {:induction false} InsertWithKey<T>(x: T, t: seq<T>, key: T -> int, k: int)
    requires SortedBy(t, key)
    ensures WithKey(Insert(x, t, key), key, k) == (if key(x) == k then [x] else []) + WithKey(t, key, k)
  {
    if t == [] || key(x) <= key(t[0]) {
      assert ([x] + t)[1..] == t;
    } else {
      var rest := Insert(x, t[1..], key);
      assert ([t[0]] + rest)[1..] == rest;
      InsertWithKey(x, t[1..], key, k);
    }
  }

  /** Sorting keeps, for every key, the relative order of the elements with that key. */
  lemma {:induction false} SortStable<T>(s: seq<T>, key: T -> int, k: int)
    ensures WithKey(SortBy(s, key), key, k) == WithKey(s, key, k)
  {
    if s != [] {
      SortStable(s[1..], key, k);
      InsertWithKey(s[0], SortBy(s[1..], key), key, k);
    }
  }

  /** The head of the sorted sequence is the first element of minimal key. */
  lemma {:induction false} SortHeadIsFirstMin<T>(s: seq<T>, key: T -> int)
    requires s != []
    ensures SortBy(s, key)[0] == s[FirstMinIndex(s, key)]
  {
    if |s| > 1 {
      SortHeadIsFirstMin(s[1..], key);
    }
  }

  lemma {:induction false} InsertDistinct<T, K>(x: T, t: seq<T>, key: T -> int, f: T -> K)
    requires DistinctBy(t, f)
    requires forall y :: y in t ==> f(y) != f(x)
    ensures DistinctBy(Insert(x, t, key), f)
  {
    if t != [] && key(x) > key(t[0]) {
      var rest := Insert(x, t[1..], key);
      InsertDistinct(x, t[1..], key, f);
      forall y | y in rest ensures f(y) != f(t[0]) {
        assert y in multiset(rest);
      }
      assert forall i :: 0 < i < |[t[0]] + rest| ==> ([t[0]] + rest)[i] == rest[i - 1];
    }
  }

  /** Sorting never makes two elements share an `f`-value. */
  lemma {:induction false} SortDistinct<T, K>(s: seq<T>, key: T -> int, f: T -> K)
    requires DistinctBy(s, f)
    ensures DistinctBy(SortBy(s, key), f)
  {
    if s != [] {
      SortDistinct(s[1..], key, f);
      var t := SortBy(s[1..], key);
      forall y | y in t ensures f(y) != f(s[0]) {
        assert y in multiset(s[1..]);
      }
      InsertDistinct(s[0], t, key, f);
    }
  }

  /** Sorting an already sorted sequence changes nothing. */
  lemma {:induction false} SortSorted<T>(s: seq<T>, key: T -> int)
    requires SortedBy(s, key)
    ensures SortBy(s, key) == s
  {
    if s != [] {
      SortedTail(s, key);
      SortSorted(s[1..], key);
      assert s == [s[0]] + s[1..];
    }
  }
}
