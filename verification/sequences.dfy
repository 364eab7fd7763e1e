/** Sequence operations the components use on their lists:
    `Array.prototype.filter` and the stable `Array.prototype.sort` with a
    numeric comparator. */
module Sequences {

  /** `s.filter(p)`. */
  function Filter<T>(s: seq<T>, p: T -> bool): (r: seq<T>)
    ensures |r| <= |s|
    ensures forall i :: 0 <= i < |r| ==> p(r[i])
    decreases |s|
  {
    if s == [] then [] else (if p(s[0]) then [s[0]] else []) + Filter(s[1..], p)
  }

  /** `a` is `b` with some elements left out, the rest in their order. */
  ghost predicate Subseq<T>(a: seq<T>, b: seq<T>)
    decreases |b|
  {
    if a == [] then true
    else if b == [] then false
    else if a[0] == b[0] then Subseq(a[1..], b[1..])
    else Subseq(a, b[1..])
  }

  lemma {:induction false} FilterAppend<T>(a: seq<T>, b: seq<T>, p: T -> bool)
    ensures Filter(a + b, p) == Filter(a, p) + Filter(b, p)
    decreases |a|
  {
    if a == [] {
      assert a + b == b;
    } else {
      assert (a + b)[1..] == a[1..] + b;
      FilterAppend(a[1..], b, p);
    }
  }

  /** The filter keeps an element exactly as often as it occurs when `p`
      holds of it, and drops it otherwise. */
  lemma {:induction false} FilterCount<T>(s: seq<T>, p: T -> bool, x: T)
    ensures multiset(Filter(s, p))[x] == if p(x) then multiset(s)[x] else 0
    decreases |s|
  {
    if s != [] {
      FilterCount(s[1..], p, x);
      assert s == [s[0]] + s[1..];
    }
  }

  /** An element is kept exactly when it occurs and satisfies `p`. */
  lemma FilterMembership<T>(s: seq<T>, p: T -> bool, x: T)
    ensures x in Filter(s, p) <==> x in s && p(x)
  {
    FilterCount(s, p, x);
  }

  /** The filter result is an order-preserving subsequence. */
  lemma {:induction false} FilterSubseq<T>(s: seq<T>, p: T -> bool)
    ensures Subseq(Filter(s, p), s)
    decreases |s|
  {
    if s != [] {
      FilterSubseq(s[1..], p);
      if p(s[0]) {
        assert Filter(s, p) == [s[0]] + Filter(s[1..], p);
      } else {
        assert Filter(s, p) == Filter(s[1..], p);
        SubseqSkip(Filter(s[1..], p), s);
      }
    }
  }

  /** Dropping the head of the longer sequence keeps a subsequence one. */
  lemma {:induction false} SubseqSkip<T>(a: seq<T>, b: seq<T>)
    requires b != [] && Subseq(a, b[1..])
    ensures Subseq(a, b)
    decreases |b|, 0
  {
    if a != [] && a[0] == b[0] {
      SubseqTail(a, b[1..]);
    }
  }

  lemma {:induction false} SubseqTail<T>(a: seq<T>, b: seq<T>)
    requires a != [] && Subseq(a, b)
    ensures Subseq(a[1..], b)
    decreases |b|, 1
  {
    if b != [] {
      if a[0] == b[0] {
        SubseqSkip(a[1..], b);
      } else {
        SubseqTail(a, b[1..]);
        SubseqSkip(a[1..], b);
      }
    }
  }

  /** A filter whose predicate holds everywhere returns its input. */
  lemma {:induction false} FilterAll<T>(s: seq<T>, p: T -> bool)
    requires forall i :: 0 <= i < |s| ==> p(s[i])
    ensures Filter(s, p) == s
    decreases |s|
  {
    if s != [] {
      FilterAll(s[1..], p);
    }
  }

  /** Filtering by a predicate agrees with filtering by an equivalent one. */
  lemma {:induction false} FilterCongruent<T>(s: seq<T>, p: T -> bool, q: T -> bool)
    requires forall i :: 0 <= i < |s| ==> p(s[i]) == q(s[i])
    ensures Filter(s, p) == Filter(s, q)
    decreases |s|
  {
    if s != [] {
      FilterCongruent(s[1..], p, q);
    }
  }

  /** Keys never decrease along `s`. */
  predicate SortedBy<T>(s: seq<T>, key: T -> real) {
    forall i, j :: 0 <= i < j < |s| ==> key(s[i]) <= key(s[j])
  }

  /** Inserts `x` before the first element whose key is not smaller, so an
      element inserted later that ties with `x` lands after it. */
  function Insert<T>(x: T, s: seq<T>, key: T -> real): (r: seq<T>)
    ensures |r| == |s| + 1
    ensures multiset(r) == multiset(s) + multiset{x}
    decreases |s|
  {
    if s == [] || key(x) <= key(s[0]) then [x] + s
    else
      var t := Insert(x, s[1..], key);
      assert s == [s[0]] + s[1..];
      [s[0]] + t
  }

  lemma {:induction false} InsertSorted<T>(x: T, s: seq<T>, key: T -> real)
    requires SortedBy(s, key)
    ensures SortedBy(Insert(x, s, key), key)
    ensures Insert(x, s, key)[0] == x || (s != [] && Insert(x, s, key)[0] == s[0])
    decreases |s|
  {
    if s != [] && key(x) > key(s[0]) {
      InsertSorted(x, s[1..], key);
    }
  }

  /** Array.prototype.sort with the comparator `(a, b) => key(a) - key(b)`:
      a stable insertion sort. */
  function SortBy<T>(s: seq<T>, key: T -> real): (r: seq<T>)
    ensures |r| == |s|
    ensures multiset(r) == multiset(s)
    decreases |s|
  {
    if s == [] then []
    else
      assert s == [s[0]] + s[1..];
      Insert(s[0], SortBy(s[1..], key), key)
  }

  /** The sorted sequence is ordered by key. */
  lemma {:induction false} SortBySorted<T>(s: seq<T>, key: T -> real)
    ensures SortedBy(SortBy(s, key), key)
    decreases |s|
  {
    if s != [] {
      SortBySorted(s[1..], key);
      InsertSorted(s[0], SortBy(s[1..], key), key);
    }
  }

  /** The elements whose key is `k`. */
  function KeyIs<T>(key: T -> real, k: real): T -> bool {
    y => key(y) == k
  }

  /** Inserting `x` into a sorted sequence adds it at the front of the
      elements sharing its key. */
  lemma {:induction false} InsertKeepsTies<T>(x: T, s: seq<T>, key: T -> real, k: real)
    requires SortedBy(s, key)
    ensures Filter(Insert(x, s, key), KeyIs(key, k)) ==
      (if key(x) == k then [x] else []) + Filter(s, KeyIs(key, k))
    decreases |s|
  {
    var same := KeyIs(key, k);
    if s == [] || key(x) <= key(s[0]) {
      assert Filter([x] + s, same) == (if key(x) == k then [x] else []) + Filter(s, same) by {
        assert ([x] + s)[1..] == s;
      }
    } else {
      InsertKeepsTies(x, s[1..], key, k);
      if key(x) == k {
        assert !same(s[0]);
        assert key(s[0]) < k;
      }
    }
  }

  /** Stability: among elements with equal keys, sorting keeps the input
      order. */
  lemma {:induction false} SortByStable<T>(s: seq<T>, key: T -> real, k: real)
    ensures Filter(SortBy(s, key), KeyIs(key, k)) == Filter(s, KeyIs(key, k))
    decreases |s|
  {
    if s != [] {
      SortByStable(s[1..], key, k);
      SortBySorted(s[1..], key);
      InsertKeepsTies(s[0], SortBy(s[1..], key), key, k);
    }
  }
}
