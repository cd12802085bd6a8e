/** Ordering and de-duplication of sequences, as pandas and Python do them
    with `sort_values`, `sorted`, `unique()` and `drop_duplicates(keep="first")`. */
module Sorting {
  import opened Wrappers

  ghost predicate Transitive<T(!new)>(lt: (T, T) -> bool) {
    forall a, b, c :: lt(a, b) && lt(b, c) ==> lt(a, c)
  }

  ghost predicate Irreflexive<T(!new)>(lt: (T, T) -> bool) {
    forall a :: !lt(a, a)
  }

  /** Strictly increasing under `lt` (hence free of repeats when `lt` is irreflexive). */
  predicate Sorted<T>(xs: seq<T>, lt: (T, T) -> bool) {
    forall i, j :: 0 <= i < j < |xs| ==> lt(xs[i], xs[j])
  }

  /** Every two elements at different positions are ordered one way or the other. */
  predicate Comparable<T>(xs: seq<T>, lt: (T, T) -> bool) {
    forall i, j :: 0 <= i < |xs| && 0 <= j < |xs| && i != j ==> lt(xs[i], xs[j]) || lt(xs[j], xs[i])
  }

  function Insert<T(!new)>(x: T, xs: seq<T>, lt: (T, T) -> bool): (r: seq<T>)
    requires Transitive(lt) && Sorted(xs, lt)
    requires forall i :: 0 <= i < |xs| ==> lt(x, xs[i]) || lt(xs[i], x)
    ensures Sorted(r, lt)
    ensures multiset(r) == multiset(xs) + multiset{x}
  {
    if |xs| == 0 then [x]
    else if lt(x, xs[0]) then [x] + xs
    else
      var tail := Insert(x, xs[1..], lt);
      assert xs == [xs[0]] + xs[1..];
      assert forall y :: y in multiset(tail) ==> y == x || y in xs[1..];
      assert forall j :: 0 <= j < |tail| ==> lt(xs[0], tail[j]) by {
        forall j | 0 <= j < |tail|
          ensures lt(xs[0], tail[j])
        {
          assert tail[j] in multiset(tail);
          if tail[j] != x {
            var k :| 1 <= k < |xs| && xs[k] == tail[j];
          }
        }
      }
      [xs[0]] + tail
  }

  /** Insertion sort: a permutation of `xs` that is increasing under `lt`. */
  function Sort<T(!new)>(xs: seq<T>, lt: (T, T) -> bool): (r: seq<T>)
    requires Transitive(lt) && Comparable(xs, lt)
    ensures Sorted(r, lt)
    ensures multiset(r) == multiset(xs)
  {
    if |xs| == 0 then []
    else
      var rest := Sort(xs[1..], lt);
      assert xs == [xs[0]] + xs[1..];
      assert forall i :: 0 <= i < |rest| ==> lt(xs[0], rest[i]) || lt(rest[i], xs[0]) by {
        forall i | 0 <= i < |rest|
          ensures lt(xs[0], rest[i]) || lt(rest[i], xs[0])
        {
          assert rest[i] in multiset(rest);
          var k :| 1 <= k < |xs| && xs[k] == rest[i];
        }
      }
      Insert(xs[0], rest, lt)
  }

  /** The set of elements of a sequence (Python's `set(xs)`). */
  function Elements<T(==)>(xs: seq<T>): set<T> {
    set x | x in xs
  }

  lemma ElementsCons<T>(a: T, b: seq<T>)
    ensures Elements([a] + b) == {a} + Elements(b)
  {
    assert forall x :: x in [a] + b <==> x == a || x in b;
  }

  /** A set has only one strictly increasing listing: `sorted(set(xs))` is
      determined by the set alone. */
  lemma {:induction false} SortedUnique<T(!new)>(a: seq<T>, b: seq<T>, lt: (T, T) -> bool)
    requires Transitive(lt) && Irreflexive(lt)
    requires Sorted(a, lt) && Sorted(b, lt)
    requires Elements(a) == Elements(b)
    ensures a == b
  {
    if |a| > 0 {
      assert a[0] in Elements(a);
    }
    if |b| > 0 {
      assert b[0] in Elements(b);
    }
    if |a| > 0 && |b| > 0 {
      SortedHeadIsLeast(a, b[0], lt);
      SortedHeadIsLeast(b, a[0], lt);
      assert a[0] == b[0];
      assert a == [a[0]] + a[1..] && b == [b[0]] + b[1..];
      ElementsCons(a[0], a[1..]);
      ElementsCons(b[0], b[1..]);
      forall k | 1 <= k < |a| ensures a[k] != a[0] {
        assert lt(a[0], a[k]);
      }
      forall k | 1 <= k < |b| ensures b[k] != b[0] {
        assert lt(b[0], b[k]);
      }
      assert Elements(a[1..]) == Elements(a) - {a[0]};
      assert Elements(b[1..]) == Elements(b) - {b[0]};
      SortedUnique(a[1..], b[1..], lt);
    }
  }

  lemma SortedHeadIsLeast<T>(xs: seq<T>, x: T, lt: (T, T) -> bool)
    requires Sorted(xs, lt) && x in xs
    ensures x == xs[0] || lt(xs[0], x)
  {
  }

  // ---------------------------------------------------------------------------
  // De-duplication keeping the first occurrence
  // ---------------------------------------------------------------------------

  function KeySet<T(==), K>(xs: seq<T>, key: T -> K): set<K> {
    set x | x in xs :: key(x)
  }

  lemma KeySetCons<T, K>(a: T, b: seq<T>, key: T -> K)
    ensures KeySet([a] + b, key) == {key(a)} + KeySet(b, key)
  {
    assert forall x :: x in [a] + b <==> x == a || x in b;
  }

  predicate DistinctBy<T, K(==)>(xs: seq<T>, key: T -> K) {
    forall i, j :: 0 <= i < j < |xs| ==> key(xs[i]) != key(xs[j])
  }

  /** The first element of `xs` whose key is `k`. */
  function FirstWithKey<T(==), K(==)>(xs: seq<T>, key: T -> K, k: K): (r: Option<T>)
    ensures r.Some? <==> k in KeySet(xs, key)
    ensures r.Some? ==> r.value in xs && key(r.value) == k
  {
    if |xs| == 0 then None
    else
      KeySetCons(xs[0], xs[1..], key);
      assert xs == [xs[0]] + xs[1..];
      if key(xs[0]) == k then Some(xs[0])
      else FirstWithKey(xs[1..], key, k)
  }

  /** `a` can be obtained from `b` by deleting elements. */
  predicate IsSubsequence<T(==)>(a: seq<T>, b: seq<T>) {
    if |a| == 0 then true
    else if |b| == 0 then false
    else if a[0] == b[0] then IsSubsequence(a[1..], b[1..])
    else IsSubsequence(a, b[1..])
  }

  lemma {:induction false} SubsequenceCons<T>(a: seq<T>, h: T, b: seq<T>)
    requires IsSubsequence(a, b)
    ensures IsSubsequence(a, [h] + b)
    decreases |b|, 1
  {
    if |a| > 0 {
      assert ([h] + b)[1..] == b;
      if a[0] == h {
        SubsequenceDropHead(a, b);
      }
    }
  }

  lemma {:induction false} SubsequenceDropHead<T>(a: seq<T>, b: seq<T>)
    requires |a| > 0 && IsSubsequence(a, b)
    ensures IsSubsequence(a[1..], b)
    decreases |b|, 0
  {
    assert [b[0]] + b[1..] == b;
    if a[0] != b[0] {
      SubsequenceDropHead(a, b[1..]);
    }
    SubsequenceCons(a[1..], b[0], b[1..]);
  }

  lemma SubsequenceBothCons<T>(x: T, a: seq<T>, b: seq<T>)
    requires IsSubsequence(a, b)
    ensures IsSubsequence([x] + a, [x] + b)
  {
    assert ([x] + a)[1..] == a && ([x] + b)[1..] == b;
  }

  lemma {:induction false} SubsequenceMembers<T>(a: seq<T>, b: seq<T>)
    requires IsSubsequence(a, b)
    ensures forall x :: x in a ==> x in b
    decreases |b|
  {
    if |a| > 0 {
      if a[0] == b[0] {
        SubsequenceMembers(a[1..], b[1..]);
        assert a == [a[0]] + a[1..];
      } else {
        SubsequenceMembers(a, b[1..]);
      }
    }
  }

  /** Deleting elements keeps keys unique. */
  lemma {:induction false} SubsequenceDistinctBy<T, K>(a: seq<T>, b: seq<T>, key: T -> K)
    requires IsSubsequence(a, b) && DistinctBy(b, key)
    ensures DistinctBy(a, key)
    decreases |b|
  {
    if |a| > 0 {
      assert b == [b[0]] + b[1..];
      assert DistinctBy(b[1..], key) by {
        forall i, j | 0 <= i < j < |b[1..]| ensures key(b[1..][i]) != key(b[1..][j]) {
          assert b[1..][i] == b[i + 1] && b[1..][j] == b[j + 1];
        }
      }
      if a[0] == b[0] {
        SubsequenceDistinctBy(a[1..], b[1..], key);
        SubsequenceMembers(a[1..], b[1..]);
        forall x | x in a[1..] ensures key(x) != key(a[0]) {
          var j :| 0 <= j < |b[1..]| && b[1..][j] == x;
          assert b[j + 1] == x;
        }
        DedupeCons(a[0], a[1..], key);
        assert a == [a[0]] + a[1..];
      } else {
        SubsequenceDistinctBy(a, b[1..], key);
      }
    }
  }

  /** The elements of `xs` whose key is not in `seen`, each key kept at its first
      occurrence; `drop_duplicates(keep="first")` is the case `seen == {}`. */
  function DedupeFrom<T(==), K(==)>(xs: seq<T>, key: T -> K, seen: set<K>): (r: seq<T>)
    ensures DistinctBy(r, key)
    ensures KeySet(r, key) == KeySet(xs, key) - seen
    ensures forall x :: x in r ==> FirstWithKey(xs, key, key(x)) == Some(x)
    ensures IsSubsequence(r, xs)
  {
    if |xs| == 0 then []
    else
      var k := key(xs[0]);
      KeySetCons(xs[0], xs[1..], key);
      assert xs == [xs[0]] + xs[1..];
      if k in seen then
        var rest := DedupeFrom(xs[1..], key, seen);
        assert forall x :: x in rest ==> key(x) != k by {
          forall x | x in rest ensures key(x) != k {
            assert key(x) in KeySet(rest, key);
          }
        }
        SubsequenceCons(rest, xs[0], xs[1..]);
        rest
      else
        var rest := DedupeFrom(xs[1..], key, seen + {k});
        DedupeCons(xs[0], rest, key);
        KeySetCons(xs[0], rest, key);
        assert ([xs[0]] + rest)[1..] == rest;
        [xs[0]] + rest
  }

  lemma DedupeCons<T, K>(x: T, rest: seq<T>, key: T -> K)
    requires DistinctBy(rest, key)
    requires key(x) !in KeySet(rest, key)
    ensures DistinctBy([x] + rest, key)
  {
    forall i, j | 0 <= i < j < |[x] + rest|
      ensures key(([x] + rest)[i]) != key(([x] + rest)[j])
    {
      assert ([x] + rest)[j] == rest[j - 1];
      if i == 0 {
        assert rest[j - 1] in rest;
      } else {
        assert ([x] + rest)[i] == rest[i - 1];
      }
    }
  }

  function DedupeBy<T(==), K(==)>(xs: seq<T>, key: T -> K): (r: seq<T>)
    ensures DistinctBy(r, key)
    ensures KeySet(r, key) == KeySet(xs, key)
    ensures forall x :: x in r ==> FirstWithKey(xs, key, key(x)) == Some(x)
    ensures IsSubsequence(r, xs)
  {
    DedupeFrom(xs, key, {})
  }

  /** pandas `Series.unique()`: the distinct values in order of first appearance. */
  function Distinct<T(==)>(xs: seq<T>): (r: seq<T>)
    ensures forall i, j :: 0 <= i < j < |r| ==> r[i] != r[j]
    ensures Elements(r) == Elements(xs)
    ensures |r| == |Elements(xs)|
  {
    var r := DedupeBy(xs, x => x);
    assert KeySet(r, x => x) == Elements(r);
    assert KeySet(xs, x => x) == Elements(xs);
    DistinctCardinality(r);
    r
  }

  lemma {:induction false} DistinctCardinality<T>(xs: seq<T>)
    requires forall i, j :: 0 <= i < j < |xs| ==> xs[i] != xs[j]
    ensures |Elements(xs)| == |xs|
  {
    if |xs| > 0 {
      var t := xs[1..];
      assert forall i, j :: 0 <= i < j < |t| ==> t[i] != t[j] by {
        forall i, j | 0 <= i < j < |t| ensures t[i] != t[j] {
          assert t[i] == xs[i + 1] && t[j] == xs[j + 1];
        }
      }
      DistinctCardinality(t);
      assert xs[0] !in t;
      assert xs == [xs[0]] + t;
      ElementsCons(xs[0], t);
    }
  }
}
