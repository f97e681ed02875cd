/** `Array.prototype.sort` with a numeric comparator `(a, b) => key(a) - key(b)`:
    ascending keys, and, since the sort is stable, elements with equal keys kept
    in their original order. The pipeline sorts prices (`calculateMedian`), years
    and records by timestamp this way. */
module Sorting {

  ghost predicate SortedBy<T>(s: seq<T>, key: T -> real) {
    forall i, j :: 0 <= i < j < |s| ==> key(s[i]) <= key(s[j])
  }

  /** The elements of `s` whose key is `k`, in their order in `s`. */
  function WithKey<T>(s: seq<T>, key: T -> real, k: real): (r: seq<T>)
    ensures forall i :: 0 <= i < |r| ==> key(r[i]) == k && r[i] in s
  {
    if |s| == 0 then [] else (if key(s[0]) == k then [s[0]] else []) + WithKey(s[1..], key, k)
  }

  /** `x` placed in front of the first element of `s` whose key is not below its own. */
  function Insert<T>(x: T, s: seq<T>, key: T -> real): (r: seq<T>)
    ensures |r| == |s| + 1
    ensures multiset(r) == multiset(s) + multiset{x}
  {
    if |s| == 0 then [x]
    else if key(x) <= key(s[0]) then [x] + s
    else
      assert s == [s[0]] + s[1..];
      [s[0]] + Insert(x, s[1..], key)
  }

  lemma {:induction false} InsertLowerBound<T>(x: T, s: seq<T>, key: T -> real, b: real)
    requires b <= key(x)
    requires forall i :: 0 <= i < |s| ==> b <= key(s[i])
    ensures forall i :: 0 <= i < |Insert(x, s, key)| ==> b <= key(Insert(x, s, key)[i])
  {
    if |s| > 0 && key(x) > key(s[0]) {
      InsertLowerBound(x, s[1..], key, b);
    }
  }

  lemma {:induction false} InsertSorted<T>(x: T, s: seq<T>, key: T -> real)
    requires SortedBy(s, key)
    ensures SortedBy(Insert(x, s, key), key)
  {
    if |s| > 0 && key(x) > key(s[0]) {
      InsertSorted(x, s[1..], key);
      InsertLowerBound(x, s[1..], key, key(s[0]));
    }
  }

  /** The stable ascending sort of `s` by `key` (an insertion sort). */
  function SortBy<T>(s: seq<T>, key: T -> real): (r: seq<T>)
    ensures |r| == |s|
    ensures multiset(r) == multiset(s)
    ensures SortedBy(r, key)
  {
    if |s| == 0 then []
    else
      var rest := SortBy(s[1..], key);
      InsertSorted(s[0], rest, key);
      MultisetOfCons(s);
      Insert(s[0], rest, key)
  }

  lemma MultisetOfCons<T>(s: seq<T>)
    requires |s| > 0
    ensures multiset(s) == multiset(s[1..]) + multiset{s[0]}
  {
    assert s == [s[0]] + s[1..];
  }

  /** The elements of key `k` of `[x] + s`: `x` if its key is `k`, then those of `s`. */
  lemma WithKeyCons<T>(x: T, s: seq<T>, key: T -> real, k: real)
    ensures key(x) == k ==> WithKey([x] + s, key, k) == [x] + WithKey(s, key, k)
    ensures key(x) != k ==> WithKey([x] + s, key, k) == WithKey(s, key, k)
  {
    assert ([x] + s)[1..] == s;
  }

  /** Inserting adds the inserted element in front of the others of its key. */
  lemma {:induction false} InsertWithKey<T>(x: T, s: seq<T>, key: T -> real, k: real)
    ensures key(x) == k ==> WithKey(Insert(x, s, key), key, k) == [x] + WithKey(s, key, k)
    ensures key(x) != k ==> WithKey(Insert(x, s, key), key, k) == WithKey(s, key, k)
  {
    if |s| == 0 || key(x) <= key(s[0]) {
      WithKeyCons(x, s, key, k);
      assert Insert(x, s, key) == [x] + s;
    } else {
      var tail := Insert(x, s[1..], key);
      assert Insert(x, s, key) == [s[0]] + tail;
      assert s == [s[0]] + s[1..];
      InsertWithKey(x, s[1..], key, k);
      WithKeyCons(s[0], tail, key, k);
      WithKeyCons(s[0], s[1..], key, k);
    }
  }

  /** Stability: for every key, sorting keeps the elements with that key, in their
      original order. */
  lemma {:induction false} SortByStable<T>(s: seq<T>, key: T -> real, k: real)
    ensures WithKey(SortBy(s, key), key, k) == WithKey(s, key, k)
  {
    if |s| > 0 {
      var rest := SortBy(s[1..], key);
      assert SortBy(s, key) == Insert(s[0], rest, key);
      SortByStable(s[1..], key, k);
      InsertWithKey(s[0], rest, key, k);
      var head := if key(s[0]) == k then [s[0]] else [];
      assert WithKey(s, key, k) == head + WithKey(s[1..], key, k);
      if key(s[0]) != k {
        assert head + WithKey(s[1..], key, k) == WithKey(s[1..], key, k);
      }
    }
  }

  lemma WithKeyOfHead<T>(s: seq<T>, key: T -> real)
    requires |s| > 0
    ensures |WithKey(s, key, key(s[0]))| > 0 && WithKey(s, key, key(s[0]))[0] == s[0]
  {
  }

  lemma {:induction false} WithKeyOfTail<T>(s: seq<T>, key: T -> real, k: real)
    requires |s| > 0
    ensures WithKey(s[1..], key, k) == WithKey(s, key, k)[if key(s[0]) == k then 1 else 0..]
  {
    var head := if key(s[0]) == k then [s[0]] else [];
    assert WithKey(s, key, k) == head + WithKey(s[1..], key, k);
  }

  /** When two sorted sequences agree on which elements carry each key, and in
      which order, the first key of one is at least the first key of the other. */
  lemma FirstKeyBound<T>(a: seq<T>, b: seq<T>, key: T -> real)
    requires SortedBy(a, key) && |a| > 0 && |b| > 0
    requires forall k :: WithKey(a, key, k) == WithKey(b, key, k)
    ensures key(a[0]) <= key(b[0])
  {
    var k := key(b[0]);
    WithKeyOfHead(b, key);
    assert WithKey(a, key, k) == WithKey(b, key, k);
    var e := WithKey(a, key, k)[0];
    assert key(e) == k && e in a;
    var i :| 0 <= i < |a| && a[i] == e;
    assert key(a[0]) <= key(a[i]);
  }

  /** The stable sort is unique: two sorted sequences that agree on the elements
      of every key, in order, are equal. */
  lemma {:induction false} StableSortUnique<T>(a: seq<T>, b: seq<T>, key: T -> real)
    requires SortedBy(a, key) && SortedBy(b, key)
    requires forall k :: WithKey(a, key, k) == WithKey(b, key, k)
    ensures a == b
  {
    if |a| > 0 {
      WithKeyOfHead(a, key);
      assert WithKey(b, key, key(a[0])) == WithKey(a, key, key(a[0]));
    }
    if |b| > 0 {
      WithKeyOfHead(b, key);
      assert WithKey(a, key, key(b[0])) == WithKey(b, key, key(b[0]));
    }
    if |a| > 0 && |b| > 0 {
      FirstKeyBound(a, b, key);
      FirstKeyBound(b, a, key);
      var k := key(a[0]);
      WithKeyOfHead(a, key);
      WithKeyOfHead(b, key);
      assert WithKey(a, key, k) == WithKey(b, key, k);
      assert a[0] == b[0];
      forall k' ensures WithKey(a[1..], key, k') == WithKey(b[1..], key, k') {
        WithKeyOfTail(a, key, k');
        WithKeyOfTail(b, key, k');
        assert WithKey(a, key, k') == WithKey(b, key, k');
      }
      StableSortUnique(a[1..], b[1..], key);
      assert a == [a[0]] + a[1..];
      assert b == [b[0]] + b[1..];
    }
  }

  /** A sequence already sorted by `key` is its own sort. */
  lemma SortedIsFixed<T>(s: seq<T>, key: T -> real)
    requires SortedBy(s, key)
    ensures SortBy(s, key) == s
  {
    forall k ensures WithKey(SortBy(s, key), key, k) == WithKey(s, key, k) {
      SortByStable(s, key, k);
    }
    StableSortUnique(SortBy(s, key), s, key);
  }
}
