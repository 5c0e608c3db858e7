/** Sequence helpers shared by every model: Python slicing, filtering,
    `pandas.unique` (first-appearance order) and the subsequence relation. */
module Seqs {

  /** Python's `s[:n]` */
  function Take<T>(s: seq<T>, n: nat): (r: seq<T>)
    ensures |r| == if n <= |s| then n else |s|
    ensures r <= s
  {
    if n <= |s| then s[..n] else s
  }

  /** Python's `s[n:]` */
  function Drop<T>(s: seq<T>, n: nat): (r: seq<T>)
    ensures |r| == if n <= |s| then |s| - n else 0
    ensures forall i :: 0 <= i < |r| ==> r[i] == s[n + i]
  {
    if n <= |s| then s[n..] else []
  }

  /** Python's `s[lo:hi]` for non-negative bounds */
  function Slice<T>(s: seq<T>, lo: nat, hi: nat): seq<T>
  {
    if hi <= lo then [] else Take(Drop(s, lo), hi - lo)
  }

  /** No element occurs twice */
  predicate Distinct<T(==)>(s: seq<T>) {
    forall i, j :: 0 <= i < j < |s| ==> s[i] != s[j]
  }

  /** The elements of `s` satisfying `p`, in their original order */
  function Filter<T>(s: seq<T>, p: T -> bool): (r: seq<T>)
    ensures |r| <= |s|
    ensures forall i :: 0 <= i < |r| ==> r[i] in s && p(r[i])
    ensures forall i :: 0 <= i < |s| && p(s[i]) ==> s[i] in r
  {
    if |s| == 0 then []
    else
      var init := Filter(s[..|s| - 1], p);
      assert s == s[..|s| - 1] + [s[|s| - 1]];
      if p(s[|s| - 1]) then init + [s[|s| - 1]] else init
  }

  /** `a` can be obtained from `b` by deleting elements (order is kept) */
  ghost predicate IsSubsequence<T>(a: seq<T>, b: seq<T>)
    decreases |b|
  {
    if |a| == 0 then true
    else if |b| == 0 then false
    else if a[|a| - 1] == b[|b| - 1] then IsSubsequence(a[..|a| - 1], b[..|b| - 1])
    else IsSubsequence(a, b[..|b| - 1])
  }

  /** Filtering keeps the relative order of the kept elements */
  lemma {:induction false} FilterIsSubsequence<T>(s: seq<T>, p: T -> bool)
    ensures IsSubsequence(Filter(s, p), s)
  {
    if |s| > 0 {
      var init := s[..|s| - 1];
      FilterIsSubsequence(init, p);
      var f := Filter(s, p);
      if p(s[|s| - 1]) {
        assert f[..|f| - 1] == Filter(init, p);
      } else if |f| > 0 {
        assert p(f[|f| - 1]);
      }
    }
  }

  /** Filtering keeps any order relation that holds between earlier and later elements */
  lemma {:induction false} FilterKeepsOrder<T>(s: seq<T>, p: T -> bool, before: (T, T) -> bool)
    requires forall i, j :: 0 <= i < j < |s| ==> before(s[i], s[j])
    ensures forall i, j :: 0 <= i < j < |Filter(s, p)| ==> before(Filter(s, p)[i], Filter(s, p)[j])
  {
    if |s| > 0 {
      var init := s[..|s| - 1];
      FilterKeepsOrder(init, p, before);
      var fi := Filter(init, p);
      var r := Filter(s, p);
      if p(s[|s| - 1]) {
        assert r == fi + [s[|s| - 1]];
        forall i, j | 0 <= i < j < |r|
          ensures before(r[i], r[j])
        {
          if j == |r| - 1 {
            assert r[i] == fi[i] && fi[i] in init;
            var k :| 0 <= k < |init| && init[k] == r[i];
            assert s[k] == r[i] && s[|s| - 1] == r[j];
          } else {
            assert r[i] == fi[i] && r[j] == fi[j];
          }
        }
      } else {
        assert r == fi;
      }
    }
  }

  /** Filtering a concatenation filters each part */
  lemma {:induction false} FilterAppend<T>(a: seq<T>, b: seq<T>, p: T -> bool)
    ensures Filter(a + b, p) == Filter(a, p) + Filter(b, p)
    decreases |b|
  {
    if |b| > 0 {
      var b' := b[..|b| - 1];
      assert (a + b)[..|a + b| - 1] == a + b';
      FilterAppend(a, b', p);
    } else {
      assert a + b == a;
    }
  }

  /** Filtering by two predicates that agree everywhere keeps the same elements */
  lemma {:induction false} FilterSame<T>(s: seq<T>, p: T -> bool, q: T -> bool)
    requires forall x :: p(x) == q(x)
    ensures Filter(s, p) == Filter(s, q)
  {
    if |s| > 0 {
      FilterSame(s[..|s| - 1], p, q);
    }
  }

  /** Number of elements satisfying `p` */
  function CountWhere<T>(s: seq<T>, p: T -> bool): nat {
    |Filter(s, p)|
  }

  /** `pandas.Series.unique()`: the distinct elements in order of first appearance */
  function Unique<T(==)>(s: seq<T>): (r: seq<T>)
    ensures Distinct(r)
    ensures forall i :: 0 <= i < |r| ==> r[i] in s
    ensures forall i :: 0 <= i < |s| ==> s[i] in r
    ensures |r| <= |s|
  {
    if |s| == 0 then []
    else
      var u := Unique(s[..|s| - 1]);
      assert s == s[..|s| - 1] + [s[|s| - 1]];
      if s[|s| - 1] in u then u else u + [s[|s| - 1]]
  }

  /** Index of the first occurrence of `x` in `s` */
  ghost function FirstIndex<T>(s: seq<T>, x: T): (i: nat)
    requires x in s
    ensures i < |s| && s[i] == x && x !in s[..i]
  {
    if s[0] == x then 0
    else
      var k := FirstIndex(s[1..], x);
      assert s[..k + 1] == [s[0]] + s[1..][..k];
      k + 1
  }

  /** Two first-occurrence witnesses are the same index */
  lemma {:induction false} FirstIndexUnique<T>(s: seq<T>, x: T, i: nat, k: nat)
    requires i < |s| && s[i] == x && x !in s[..i]
    requires k < |s| && s[k] == x && x !in s[..k]
    ensures i == k
  {
  }

  /** Appending an element does not move the first occurrence of an earlier one */
  lemma {:induction false} FirstIndexAppend<T>(s: seq<T>, y: T, x: T)
    requires x in s
    ensures x in s + [y] && FirstIndex(s + [y], x) == FirstIndex(s, x)
  {
    var i := FirstIndex(s, x);
    assert (s + [y])[..i] == s[..i];
    FirstIndexUnique(s + [y], x, i, FirstIndex(s + [y], x));
  }

  /** `Unique` lists the distinct elements in order of their first appearance */
  lemma {:induction false} UniqueFirstAppearance<T>(s: seq<T>)
    ensures forall i, j :: 0 <= i < j < |Unique(s)| ==>
              FirstIndex(s, Unique(s)[i]) < FirstIndex(s, Unique(s)[j])
  {
    if |s| > 0 {
      var init := s[..|s| - 1];
      var y := s[|s| - 1];
      assert s == init + [y];
      UniqueFirstAppearance(init);
      var u := Unique(init);
      forall x | x in u
        ensures FirstIndex(s, x) == FirstIndex(init, x) < |init|
      {
        FirstIndexAppend(init, y, x);
      }
      if y !in u {
        assert y !in init;
        FirstIndexUnique(s, y, |init|, FirstIndex(s, y));
      }
    }
  }

  /** The first components of a list of pairs (`dict(items).keys()`) */
  function Keys<K, V>(items: seq<(K, V)>): (r: seq<K>)
    ensures |r| == |items|
    ensures forall i :: 0 <= i < |r| ==> r[i] == items[i].0
  {
    if |items| == 0 then [] else Keys(items[..|items| - 1]) + [items[|items| - 1].0]
  }

  /** A key occurs in `Keys(items)` exactly when some pair carries it */
  lemma {:induction false} KeysMembership<K, V>(items: seq<(K, V)>, k: K)
    ensures k in Keys(items) <==> exists p :: p in items && p.0 == k
  {
    if k in Keys(items) {
      var i :| 0 <= i < |items| && Keys(items)[i] == k;
      assert items[i] in items;
    }
    if exists p :: p in items && p.0 == k {
      var p :| p in items && p.0 == k;
      var i :| 0 <= i < |items| && items[i] == p;
      assert Keys(items)[i] == k;
    }
  }

  /** Reordering a list of pairs keeps its key set */
  lemma {:induction false} KeysOfPermutation<K, V>(a: seq<(K, V)>, b: seq<(K, V)>)
    requires multiset(a) == multiset(b)
    ensures forall k :: k in Keys(a) <==> k in Keys(b)
  {
    forall k
      ensures k in Keys(a) <==> k in Keys(b)
    {
      KeysMembership(a, k);
      KeysMembership(b, k);
      assert forall p :: p in a <==> p in multiset(a);
      assert forall p :: p in b <==> p in multiset(b);
    }
  }

  /** A key survives a filter exactly when some pair carrying it passes */
  lemma {:induction false} FilterKeys<K, V>(items: seq<(K, V)>, p: ((K, V)) -> bool, k: K)
    ensures k in Keys(Filter(items, p)) <==> exists i :: 0 <= i < |items| && items[i].0 == k && p(items[i])
  {
    var r := Filter(items, p);
    if k in Keys(r) {
      var j :| 0 <= j < |r| && Keys(r)[j] == k;
      assert r[j] in items && p(r[j]);
      var i :| 0 <= i < |items| && items[i] == r[j];
      assert items[i].0 == k;
    }
    if exists i :: 0 <= i < |items| && items[i].0 == k && p(items[i]) {
      var i :| 0 <= i < |items| && items[i].0 == k && p(items[i]);
      assert items[i] in r;
      var j :| 0 <= j < |r| && r[j] == items[i];
      assert Keys(r)[j] == k;
    }
  }
}
