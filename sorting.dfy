/**
 * Sequence helpers standing for JavaScript array built-ins:
 * `Array.prototype.filter`, `map` and the stable `Array.prototype.sort`
 * with a key comparator.
 */
module Sorting {

  /** `s.filter(p)`: the elements of s that satisfy p, in order. */
  function Filter<T>(p: T -> bool, s: seq<T>): (r: seq<T>)
    ensures |r| <= |s|
    ensures forall i :: 0 <= i < |r| ==> p(r[i])
  {
    if s == [] then []
    else
      var rest := Filter(p, s[1..]);
      if p(s[0]) then [s[0]] + rest else rest
  }

  /** Filtering a sequence with one more element at its end. */
  lemma {:induction false} FilterSnoc<T>(p: T -> bool, s: seq<T>, x: T)
    ensures Filter(p, s + [x]) == Filter(p, s) + (if p(x) then [x] else [])
  {
    if s != [] {
      assert (s + [x])[1..] == s[1..] + [x];
      FilterSnoc(p, s[1..], x);
    }
  }

  /** Filtering distributes over concatenation. */
  lemma {:induction false} FilterConcat<T>(p: T -> bool, a: seq<T>, b: seq<T>)
    ensures Filter(p, a + b) == Filter(p, a) + Filter(p, b)
  {
    if a == [] {
      assert a + b == b;
    } else {
      assert (a + b)[0] == a[0];
      assert (a + b)[1..] == a[1..] + b;
      FilterConcat(p, a[1..], b);
    }
  }

  /** The elements kept by the filter are exactly those satisfying the predicate. */
  lemma {:induction false} FilterMembers<T>(p: T -> bool, s: seq<T>, x: T)
    ensures x in Filter(p, s) <==> x in s && p(x)
  {
    if s != [] {
      FilterMembers(p, s[1..], x);
      assert s == [s[0]] + s[1..];
    }
  }

  /** Filtering one more element of a prefix. */
  lemma FilterPrefixStep<T>(p: T -> bool, s: seq<T>, i: int)
    requires 0 <= i < |s|
    ensures Filter(p, s[..i + 1]) == Filter(p, s[..i]) + (if p(s[i]) then [s[i]] else [])
  {
    assert s[..i + 1] == s[..i] + [s[i]];
    FilterSnoc(p, s[..i], s[i]);
  }

  /** Filtering keeps everything when every element satisfies the predicate. */
  lemma {:induction false} FilterAll<T>(p: T -> bool, s: seq<T>)
    requires forall i :: 0 <= i < |s| ==> p(s[i])
    ensures Filter(p, s) == s
  {
    if s != [] {
      FilterAll(p, s[1..]);
      assert s == [s[0]] + s[1..];
    }
  }

  /** Filtering drops everything when no element satisfies the predicate. */
  lemma {:induction false} FilterNone<T>(p: T -> bool, s: seq<T>)
    requires forall i :: 0 <= i < |s| ==> !p(s[i])
    ensures Filter(p, s) == []
  {
    if s != [] {
      FilterNone(p, s[1..]);
    }
  }

  /** Filters with predicates that agree everywhere agree. */
  lemma {:induction false} FilterCongruent<T>(p: T -> bool, q: T -> bool, s: seq<T>)
    requires forall x :: p(x) == q(x)
    ensures Filter(p, s) == Filter(q, s)
  {
    if s != [] {
      FilterCongruent(p, q, s[1..]);
    }
  }

  /** Filtering twice with the same predicate changes nothing more. */
  lemma {:induction false} FilterIdempotent<T>(p: T -> bool, s: seq<T>)
    ensures Filter(p, Filter(p, s)) == Filter(p, s)
  {
    if s != [] {
      FilterIdempotent(p, s[1..]);
      FilterConcat(p, if p(s[0]) then [s[0]] else [], Filter(p, s[1..]));
    }
  }

  /** A slice inside the left part of a concatenation. */
  lemma SliceLeft<T>(a: seq<T>, b: seq<T>, k: int, l: int)
    requires 0 <= k <= l <= |a|
    ensures (a + b)[k..l] == a[k..l]
  {
  }

  /** A slice inside the right part of a concatenation. */
  lemma SliceRight<T>(a: seq<T>, b: seq<T>, k: int, l: int)
    requires 0 <= k <= l <= |b|
    ensures (a + b)[|a| + k..|a| + l] == b[k..l]
  {
  }

  /** `s.map(f)`. */
  function Map<T, U>(f: T -> U, s: seq<T>): (r: seq<U>)
    ensures |r| == |s| && forall i :: 0 <= i < |s| ==> r[i] == f(s[i])
  {
    if s == [] then [] else [f(s[0])] + Map(f, s[1..])
  }

  /** Is s ordered by non-decreasing key? */
  predicate SortedBy<T>(key: T -> int, s: seq<T>) {
    forall i, j :: 0 <= i < j < |s| ==> key(s[i]) <= key(s[j])
  }

  /** The elements whose key is k. */
  function KeyIs<T>(key: T -> int, k: int): T -> bool {
    x => key(x) == k
  }

  /** x placed before the first element of s whose key is not smaller. */
  function Insert<T>(key: T -> int, x: T, s: seq<T>): (r: seq<T>)
    ensures |r| == |s| + 1
    ensures multiset(r) == multiset(s) + multiset{x}
    ensures r[0] == x || (s != [] && r[0] == s[0])
  {
    if s == [] || key(x) <= key(s[0]) then [x] + s
    else
      assert s == [s[0]] + s[1..];
      [s[0]] + Insert(key, x, s[1..])
  }

  /** Inserting into a sorted sequence keeps it sorted. */
  lemma {:induction false} InsertSorted<T>(key: T -> int, x: T, s: seq<T>)
    requires SortedBy(key, s)
    ensures SortedBy(key, Insert(key, x, s))
  {
    if s != [] && key(x) > key(s[0]) {
      var rest := Insert(key, x, s[1..]);
      InsertSorted(key, x, s[1..]);
      assert key(s[0]) <= key(rest[0]);
      assert forall j :: 0 < j < |rest| ==> key(rest[0]) <= key(rest[j]);
      assert Insert(key, x, s) == [s[0]] + rest;
    }
  }

  /**
   * `s.sort((a, b) => key(a) - key(b))`.  The built-in sort is stable, and a
   * stable sort by key has a single possible result, which is the one an
   * insertion sort computes.
   */
  function SortBy<T>(key: T -> int, s: seq<T>): (r: seq<T>)
    ensures |r| == |s|
    ensures SortedBy(key, r)
    ensures multiset(r) == multiset(s)
  {
    if s == [] then []
    else
      var rest := SortBy(key, s[1..]);
      InsertSorted(key, s[0], rest);
      assert s == [s[0]] + s[1..];
      Insert(key, s[0], rest)
  }

  /** Inserting x keeps the elements of every key class in order, x first among its own. */
  lemma {:induction false} InsertStable<T>(key: T -> int, x: T, s: seq<T>, k: int)
    ensures Filter(KeyIs(key, k), Insert(key, x, s)) ==
      (if key(x) == k then [x] else []) + Filter(KeyIs(key, k), s)
  {
    if s != [] && key(x) > key(s[0]) {
      InsertStable(key, x, s[1..], k);
      assert Insert(key, x, s)[1..] == Insert(key, x, s[1..]);
    }
  }

  /** The sort is stable: elements with equal keys keep their relative order. */
  lemma {:induction false} SortStable<T>(key: T -> int, s: seq<T>, k: int)
    ensures Filter(KeyIs(key, k), SortBy(key, s)) == Filter(KeyIs(key, k), s)
  {
    if s != [] {
      SortStable(key, s[1..], k);
      InsertStable(key, s[0], SortBy(key, s[1..]), k);
    }
  }

  /** A sequence sorted by a key that is always 0 or 1 is its 0-keyed elements followed by its 1-keyed ones. */
  lemma {:induction false} SortedTwoKeys<T>(key: T -> int, r: seq<T>)
    requires SortedBy(key, r)
    requires forall i :: 0 <= i < |r| ==> key(r[i]) == 0 || key(r[i]) == 1
    ensures r == Filter(KeyIs(key, 0), r) + Filter(KeyIs(key, 1), r)
  {
    if r != [] {
      if key(r[0]) == 0 {
        SortedTwoKeys(key, r[1..]);
        assert r == [r[0]] + r[1..];
      } else {
        assert forall i :: 0 <= i < |r| ==> key(r[0]) <= key(r[i]);
        FilterNone(KeyIs(key, 0), r);
        FilterAll(KeyIs(key, 1), r);
      }
    }
  }

  /** Sorting keeps exactly the elements of the input. */
  lemma SortMembers<T>(key: T -> int, s: seq<T>, x: T)
    ensures x in SortBy(key, s) <==> x in s
  {
    var r := SortBy(key, s);
    assert x in r <==> x in multiset(r);
    assert x in s <==> x in multiset(s);
  }
}
