/** Python's `sorted`, in the two shapes the scripts use: by a numeric key,
    largest first, and the ascending key order of `pandas.groupby`. */
module Sorting {
  import opened Text
  import opened Seqs

  /** Keys never increase along `s` */
  ghost predicate NonIncreasing<T>(s: seq<T>, key: T -> real) {
    forall i, j :: 0 <= i < j < |s| ==> key(s[i]) >= key(s[j])
  }

  /** Insert `x` after every element whose key is at least `key(x)` */
  function InsertDesc<T>(s: seq<T>, x: T, key: T -> real): (r: seq<T>)
    requires NonIncreasing(s, key)
    ensures NonIncreasing(r, key)
    ensures multiset(r) == multiset(s) + multiset{x}
  {
    if |s| == 0 then [x]
    else if key(s[0]) >= key(x) then
      var rest := InsertDesc(s[1..], x, key);
      InsertDescHead(s, x, rest, key);
      [s[0]] + rest
    else
      assert forall j :: 0 <= j < |s| ==> key(s[0]) >= key(s[j]);
      [x] + s
  }

  /** The head of a sorted list still leads once `x` is inserted behind it */
  lemma {:induction false} InsertDescHead<T>(s: seq<T>, x: T, rest: seq<T>, key: T -> real)
    requires |s| > 0 && NonIncreasing(s, key) && key(s[0]) >= key(x)
    requires NonIncreasing(rest, key)
    requires multiset(rest) == multiset(s[1..]) + multiset{x}
    ensures NonIncreasing([s[0]] + rest, key)
    ensures multiset([s[0]] + rest) == multiset(s) + multiset{x}
  {
    forall i | 0 <= i < |rest|
      ensures key(s[0]) >= key(rest[i])
    {
      assert rest[i] in multiset(rest);
      if rest[i] != x {
        assert rest[i] in s[1..];
        var j :| 0 <= j < |s[1..]| && s[1..][j] == rest[i];
        assert s[j + 1] == rest[i];
      }
    }
    assert s == [s[0]] + s[1..];
  }

  /** `sorted(s, key=lambda e: -key(e))`: largest key first, ties in input order */
  function SortDesc<T>(s: seq<T>, key: T -> real): (r: seq<T>)
    ensures NonIncreasing(r, key)
    ensures multiset(r) == multiset(s)
  {
    if |s| == 0 then []
    else
      assert s == s[..|s| - 1] + [s[|s| - 1]];
      InsertDesc(SortDesc(s[..|s| - 1], key), s[|s| - 1], key)
  }

  /** `sorted(...)[:n]` keeps the `n` largest: an element left out means
      the cut is full and every kept key is at least its key */
  lemma {:induction false} TopOfSorted<T>(s: seq<T>, key: T -> real, n: nat, x: T)
    requires NonIncreasing(s, key)
    requires x in s && x !in Take(s, n)
    ensures |Take(s, n)| == n
    ensures forall i :: 0 <= i < n ==> key(Take(s, n)[i]) >= key(x)
  {
    var k :| 0 <= k < |s| && s[k] == x;
    assert forall i :: 0 <= i < |Take(s, n)| ==> Take(s, n)[i] == s[i];
    assert k >= |Take(s, n)|;
  }

  /** Strictly ascending in Python's string order */
  predicate StrictlyAscending(s: seq<string>) {
    forall i, j :: 0 <= i < j < |s| ==> LexLess(s[i], s[j])
  }

  /** Insert `x` into a strictly ascending list unless it is already there */
  function InsertAsc(s: seq<string>, x: string): (r: seq<string>)
    requires StrictlyAscending(s)
    ensures StrictlyAscending(r)
    ensures forall y :: y in r <==> y in s || y == x
  {
    if |s| == 0 then [x]
    else if s[0] == x then s
    else if LexLess(s[0], x) then
      var rest := InsertAsc(s[1..], x);
      assert forall y :: y in s[1..] ==> LexLess(s[0], y);
      [s[0]] + rest
    else
      LexLessTotal(s[0], x);
      assert forall i :: 0 <= i < |s| ==> LexLess(x, s[i]) by {
        forall i | 0 <= i < |s| ensures LexLess(x, s[i]) {
          if i > 0 { LexLessTransitive(x, s[0], s[i]); }
        }
      }
      [x] + s
  }

  /** The distinct values of `s` in ascending order (the group order of `groupby`) */
  function SortedUnique(s: seq<string>): (r: seq<string>)
    ensures StrictlyAscending(r)
    ensures forall y :: y in r <==> y in s
  {
    if |s| == 0 then []
    else
      assert s == s[..|s| - 1] + [s[|s| - 1]];
      InsertAsc(SortedUnique(s[..|s| - 1]), s[|s| - 1])
  }

  /** A strictly ascending list has no repeats */
  lemma {:induction false} AscendingDistinct(s: seq<string>)
    requires StrictlyAscending(s)
    ensures Distinct(s)
  {
    forall i, j | 0 <= i < j < |s| ensures s[i] != s[j] {
      LexLessIrreflexive(s[i]);
    }
  }
}
