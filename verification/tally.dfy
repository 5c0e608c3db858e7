/** `pandas.Series.value_counts()`: how often each value occurs, most
    frequent first. */
module Tally {
  import opened Seqs
  import opened Sorting

  /** `(value, occurrences)` for each distinct value, in first-appearance order */
  function FirstAppearanceCounts<T(==)>(xs: seq<T>): (r: seq<(T, nat)>)
    ensures Keys(r) == Unique(xs)
    ensures forall i :: 0 <= i < |r| ==> r[i].1 == multiset(xs)[r[i].0]
  {
    var u := Unique(xs);
    var r := seq(|u|, i requires 0 <= i < |u| => (u[i], multiset(xs)[u[i]]));
    assert forall i :: 0 <= i < |u| ==> Keys(r)[i] == u[i];
    r
  }

  /** `value_counts()`: the counts ordered by decreasing count; equal counts
      keep first-appearance order */
  function ValueCounts<T(==)>(xs: seq<T>): (r: seq<(T, nat)>)
    ensures forall i, j :: 0 <= i < j < |r| ==> r[i].1 >= r[j].1
    ensures multiset(r) == multiset(FirstAppearanceCounts(xs))
  {
    SortDesc(FirstAppearanceCounts(xs), (p: (T, nat)) => p.1 as real)
  }

  /** Each value of `xs` is listed once, with its number of occurrences */
  lemma {:induction false} ValueCountsContents<T>(xs: seq<T>)
    ensures Distinct(Keys(ValueCounts(xs)))
    ensures forall x :: x in Keys(ValueCounts(xs)) <==> x in xs
    ensures forall p :: p in ValueCounts(xs) ==> p.1 == multiset(xs)[p.0] && p.1 > 0
  {
    var f := FirstAppearanceCounts(xs);
    var r := ValueCounts(xs);
    KeysOfPermutation(f, r);
    forall p | p in r
      ensures p in f
    {
      assert p in multiset(r);
    }
    ValueCountsKeysDistinct(xs);
  }

  /** The same facts by position: entry `i` is a value of `xs` with its
      count, no value is listed twice, and every value of `xs` is listed */
  lemma {:induction false} ValueCountsAt<T>(xs: seq<T>)
    ensures forall i, j :: 0 <= i < j < |ValueCounts(xs)| ==> ValueCounts(xs)[i].0 != ValueCounts(xs)[j].0
    ensures forall i :: 0 <= i < |ValueCounts(xs)| ==>
      ValueCounts(xs)[i].1 == multiset(xs)[ValueCounts(xs)[i].0] && ValueCounts(xs)[i].0 in xs
    ensures forall x :: x in xs ==> exists i :: 0 <= i < |ValueCounts(xs)| && ValueCounts(xs)[i].0 == x
  {
    var vc := ValueCounts(xs);
    ValueCountsContents(xs);
    forall i, j | 0 <= i < j < |vc|
      ensures vc[i].0 != vc[j].0
    {
      assert Keys(vc)[i] != Keys(vc)[j];
    }
    forall i | 0 <= i < |vc|
      ensures vc[i].1 == multiset(xs)[vc[i].0] && vc[i].0 in xs
    {
      assert vc[i] in vc;
      assert Keys(vc)[i] == vc[i].0;
    }
    forall x | x in xs
      ensures exists i :: 0 <= i < |vc| && vc[i].0 == x
    {
      assert x in Keys(vc);
      var i :| 0 <= i < |Keys(vc)| && Keys(vc)[i] == x;
      assert vc[i].0 == x;
    }
  }

  /** No value is listed twice */
  lemma {:induction false} ValueCountsKeysDistinct<T>(xs: seq<T>)
    ensures Distinct(Keys(ValueCounts(xs)))
  {
    var f := FirstAppearanceCounts(xs);
    var r := ValueCounts(xs);
    assert Distinct(f) by {
      forall i, j | 0 <= i < j < |f|
        ensures f[i] != f[j]
      {
        assert Keys(f)[i] != Keys(f)[j];
      }
    }
    PermutationKeepsDistinct(f, r);
    forall i, j | 0 <= i < j < |r|
      ensures Keys(r)[i] != Keys(r)[j]
    {
      assert r[i] in multiset(f) && r[j] in multiset(f);
    }
  }

  /** A permutation of a list without repeats has none either */
  lemma {:induction false} PermutationKeepsDistinct<T>(a: seq<T>, b: seq<T>)
    requires Distinct(a) && multiset(a) == multiset(b)
    ensures Distinct(b)
  {
    forall i, j | 0 <= i < j < |b|
      ensures b[i] != b[j]
    {
      if b[i] == b[j] {
        assert b == b[..j] + [b[j]] + b[j + 1..];
        assert b[i] in b[..j];
        assert multiset(b)[b[i]] >= 2;
        AtMostOnce(a, b[i]);
      }
    }
  }

  /** In a list without repeats every element occurs at most once */
  lemma {:induction false} AtMostOnce<T>(a: seq<T>, x: T)
    requires Distinct(a)
    ensures multiset(a)[x] <= 1
  {
    if |a| > 0 {
      var init := a[..|a| - 1];
      assert a == init + [a[|a| - 1]];
      AtMostOnce(init, x);
      if a[|a| - 1] == x {
        assert x !in init;
      }
    }
  }

  /** Sum of the counts of a list of `(value, count)` pairs */
  function TotalCount<T>(counts: seq<(T, nat)>): nat {
    if |counts| == 0 then 0 else TotalCount(counts[..|counts| - 1]) + counts[|counts| - 1].1
  }

  /** The counts of `value_counts()` add up to the number of values */
  lemma {:induction false} ValueCountsTotal<T>(xs: seq<T>)
    ensures TotalCount(ValueCounts(xs)) == |xs|
  {
    var u := Unique(xs);
    TotalOfCounts(u, multiset(xs));
    assert FirstAppearanceCounts(xs) == seq(|u|, i requires 0 <= i < |u| => (u[i], multiset(xs)[u[i]]));
    OccurrencesOfUnique(xs);
    TotalCountPermutation(FirstAppearanceCounts(xs), ValueCounts(xs));
  }

  /** Sum of the multiplicities in `m` of the elements of `us` */
  function Occurrences<T>(us: seq<T>, m: multiset<T>): nat {
    if |us| == 0 then 0 else Occurrences(us[..|us| - 1], m) + m[us[|us| - 1]]
  }

  /** Pairing each element with its multiplicity keeps the sum */
  lemma {:induction false} TotalOfCounts<T>(us: seq<T>, m: multiset<T>)
    ensures TotalCount(seq(|us|, i requires 0 <= i < |us| => (us[i], m[us[i]]))) == Occurrences(us, m)
  {
    if |us| > 0 {
      var s := seq(|us|, i requires 0 <= i < |us| => (us[i], m[us[i]]));
      var init := us[..|us| - 1];
      assert s[..|s| - 1] == seq(|init|, i requires 0 <= i < |init| => (init[i], m[init[i]]));
      TotalOfCounts(init, m);
    }
  }

  /** One more copy of `y` adds one to the sum exactly when `y` is listed */
  lemma {:induction false} OccurrencesAdd<T>(us: seq<T>, m: multiset<T>, y: T)
    requires Distinct(us)
    ensures Occurrences(us, m + multiset{y}) == Occurrences(us, m) + if y in us then 1 else 0
  {
    if |us| > 0 {
      var init := us[..|us| - 1];
      OccurrencesAdd(init, m, y);
      if us[|us| - 1] == y {
        assert y !in init;
      } else {
        assert y in us <==> y in init;
      }
    }
  }

  /** Every value is counted once by its first appearance */
  lemma {:induction false} OccurrencesOfUnique<T>(xs: seq<T>)
    ensures Occurrences(Unique(xs), multiset(xs)) == |xs|
  {
    if |xs| > 0 {
      var init := xs[..|xs| - 1];
      var y := xs[|xs| - 1];
      assert xs == init + [y];
      assert multiset(xs) == multiset(init) + multiset{y};
      OccurrencesOfUnique(init);
      OccurrencesAdd(Unique(init), multiset(init), y);
      if y !in Unique(init) {
        assert y !in init;
        assert Unique(xs) == Unique(init) + [y];
        assert Unique(xs)[..|Unique(xs)| - 1] == Unique(init);
      }
    }
  }

  /** Concatenation adds the sums */
  lemma {:induction false} TotalCountAppend<T>(a: seq<(T, nat)>, b: seq<(T, nat)>)
    ensures TotalCount(a + b) == TotalCount(a) + TotalCount(b)
    decreases |b|
  {
    if |b| > 0 {
      var b' := b[..|b| - 1];
      assert (a + b)[..|a + b| - 1] == a + b';
      TotalCountAppend(a, b');
    } else {
      assert a + b == a;
    }
  }

  /** Reordering the pairs keeps the sum */
  lemma {:induction false} TotalCountPermutation<T>(a: seq<(T, nat)>, b: seq<(T, nat)>)
    requires multiset(a) == multiset(b)
    ensures TotalCount(a) == TotalCount(b)
    decreases |a|
  {
    if |a| == 0 {
      assert |multiset(b)| == 0;
    } else {
      var init := a[..|a| - 1];
      var x := a[|a| - 1];
      var k := RemoveLast(a, b);
      TotalCountPermutation(init, b[..k] + b[k + 1..]);
      TotalCountAppend(b[..k], [x] + b[k + 1..]);
      TotalCountAppend([x], b[k + 1..]);
      TotalCountAppend(b[..k], b[k + 1..]);
      assert TotalCount([x]) == x.1 by {
        assert [x][..0] == [];
      }
      assert b[..k] + ([x] + b[k + 1..]) == b;
    }
  }

  /** The last element of `a` sits somewhere in its permutation `b`, and
      the rest of `a` is a permutation of `b` without it */
  lemma {:induction false} RemoveLast<T>(a: seq<T>, b: seq<T>) returns (k: nat)
    requires |a| > 0 && multiset(a) == multiset(b)
    ensures k < |b| && b[k] == a[|a| - 1]
    ensures multiset(a[..|a| - 1]) == multiset(b[..k] + b[k + 1..])
  {
    var init := a[..|a| - 1];
    var x := a[|a| - 1];
    assert a == init + [x];
    assert x in multiset(b);
    k :| 0 <= k < |b| && b[k] == x;
    var rest := b[..k] + b[k + 1..];
    assert multiset(a) == multiset(init) + multiset{x};
    assert b[..k] + [x] + b[k + 1..] == b;
    assert multiset(b) == multiset(b[..k]) + multiset([x]) + multiset(b[k + 1..]);
    assert multiset(rest) == multiset(b[..k]) + multiset(b[k + 1..]);
    forall y
      ensures multiset(init)[y] == multiset(rest)[y]
    {
      assert multiset(a)[y] == multiset(b)[y];
    }
  }
}
