/** The two dictionary loops of main.py's `parse_csv`: one that enters
    every key with a zero, then one that updates the entry of each row's
    key in turn. */
module KeyFold {
  import opened Seqs
  import opened Dicts

  /** `for k in ks: d[k] = zero`, from an empty dictionary */
  function PutAll<K(!new), V>(ks: seq<K>, zero: V): (r: ODict<K, V>)
    ensures Valid(r)
    ensures r.keys == Unique(ks)
    ensures forall k :: k in r.values ==> r.values[k] == zero
  {
    if |ks| == 0 then Empty()
    else Put(PutAll(ks[..|ks| - 1], zero), ks[|ks| - 1], zero)
  }

  /** `step` folded over `ts` from `v` */
  function Reduce<T, V>(v: V, ts: seq<T>, step: (V, T) -> V): V {
    if |ts| == 0 then v else step(Reduce(v, ts[..|ts| - 1], step), ts[|ts| - 1])
  }

  /** `for t in ts: d[key(t)] = step(d[key(t)], t)` on a dictionary that
      already holds every key */
  function Accumulate<T, K(!new), V>(d: ODict<K, V>, ts: seq<T>, key: T -> K, step: (V, T) -> V): (r: ODict<K, V>)
    requires forall i :: 0 <= i < |ts| ==> key(ts[i]) in d.values
    ensures r.keys == d.keys
    ensures forall k :: k in r.values <==> k in d.values
  {
    if |ts| == 0 then d
    else
      var acc := Accumulate(d, ts[..|ts| - 1], key, step);
      var t := ts[|ts| - 1];
      ODict(acc.keys, acc.values[key(t) := step(acc.values[key(t)], t)])
  }

  /** The entry of `k` is `step` folded over the rows whose key is `k`
      (`p` picks those rows) */
  lemma {:induction false} AccumulateAt<T, K(!new), V>(d: ODict<K, V>, ts: seq<T>, key: T -> K, step: (V, T) -> V, k: K, p: T -> bool)
    requires forall i :: 0 <= i < |ts| ==> key(ts[i]) in d.values
    requires k in d.values
    requires forall t :: p(t) == (key(t) == k)
    ensures Accumulate(d, ts, key, step).values[k] == Reduce(d.values[k], Filter(ts, p), step)
  {
    if |ts| > 0 {
      var init := ts[..|ts| - 1];
      var t := ts[|ts| - 1];
      AccumulateAt(d, init, key, step, k, p);
      if key(t) == k {
        assert Filter(ts, p) == Filter(init, p) + [t];
        assert Filter(ts, p)[..|Filter(ts, p)| - 1] == Filter(init, p);
      }
    }
  }

  /** Counting: a step that adds one per row counts the rows */
  lemma {:induction false} ReduceCount<T>(ts: seq<T>, step: (int, T) -> int)
    requires forall n, t :: step(n, t) == n + 1
    ensures Reduce(0, ts, step) == |ts|
  {
    if |ts| > 0 {
      ReduceCount(ts[..|ts| - 1], step);
    }
  }

  /** Counting under a condition counts the rows that meet it */
  lemma {:induction false} ReduceCountIf<T>(ts: seq<T>, p: T -> bool, step: (int, T) -> int)
    requires forall n, t :: step(n, t) == if p(t) then n + 1 else n
    ensures Reduce(0, ts, step) == CountWhere(ts, p)
  {
    if |ts| > 0 {
      ReduceCountIf(ts[..|ts| - 1], p, step);
    }
  }

  /** Sum of `amount` over `ts` */
  function TotalOf<T>(ts: seq<T>, amount: T -> real): real {
    if |ts| == 0 then 0.0 else TotalOf(ts[..|ts| - 1], amount) + amount(ts[|ts| - 1])
  }

  /** Summing under a condition sums over the rows that meet it */
  lemma {:induction false} ReduceSumIf<T>(ts: seq<T>, p: T -> bool, amount: T -> real, step: (real, T) -> real)
    requires forall x, t :: step(x, t) == if p(t) then x + amount(t) else x
    ensures Reduce(0.0, ts, step) == TotalOf(Filter(ts, p), amount)
  {
    if |ts| > 0 {
      var init := ts[..|ts| - 1];
      ReduceSumIf(init, p, amount, step);
      var f := Filter(ts, p);
      if p(ts[|ts| - 1]) {
        assert f[..|f| - 1] == Filter(init, p);
      }
    }
  }

  /** Rows that all fail the condition add nothing */
  lemma {:induction false} FilterNone<T>(ts: seq<T>, p: T -> bool)
    requires CountWhere(ts, p) == 0
    ensures Filter(ts, p) == []
  {
  }

  /** Counting into a dictionary raises the sum of its entries by the
      number of rows that meet the condition */
  lemma {:induction false} AccumulateCountSum<T, K(!new)>(d: ODict<K, int>, ts: seq<T>, key: T -> K, p: T -> bool, step: (int, T) -> int)
    requires Valid(d)
    requires forall i :: 0 <= i < |ts| ==> key(ts[i]) in d.values
    requires forall n, t :: step(n, t) == if p(t) then n + 1 else n
    ensures SumValues(Accumulate(d, ts, key, step)) == SumValues(d) + CountWhere(ts, p)
  {
    if |ts| > 0 {
      var init := ts[..|ts| - 1];
      var t := ts[|ts| - 1];
      AccumulateCountSum(d, init, key, p, step);
      var acc := Accumulate(d, init, key, step);
      if p(t) {
        SumOverAdd(acc.keys, acc.values, key(t), 1);
      } else {
        assert acc.values[key(t) := acc.values[key(t)]] == acc.values;
      }
    }
  }

  /** Counting every row into a dictionary of zeros makes its entries sum
      to the number of rows */
  lemma {:induction false} CountAllSum<T, K(!new)>(d: ODict<K, int>, ts: seq<T>, key: T -> K, step: (int, T) -> int)
    requires Valid(d)
    requires forall k :: k in d.values ==> d.values[k] == 0
    requires forall i :: 0 <= i < |ts| ==> key(ts[i]) in d.values
    requires forall n, t :: step(n, t) == n + 1
    ensures SumValues(Accumulate(d, ts, key, step)) == |ts|
  {
    SumOverZero(d.keys, d.values);
    var all := (t: T) => true;
    AccumulateCountSum(d, ts, key, all, step);
    FilterAll(ts, all);
  }

  /** A predicate that accepts everything keeps everything */
  lemma {:induction false} FilterAll<T>(s: seq<T>, p: T -> bool)
    requires forall x :: p(x)
    ensures Filter(s, p) == s
  {
    if |s| > 0 {
      FilterAll(s[..|s| - 1], p);
      assert s[..|s| - 1] + [s[|s| - 1]] == s;
    }
  }
}
