/** Python dictionaries, which remember the order in which keys were first
    inserted: `keys` is that order, `values` the mapping. */
module Dicts {
  import opened Seqs

  datatype ODict<K, V> = ODict(keys: seq<K>, values: map<K, V>)

  /** The key order lists every key exactly once */
  ghost predicate Valid<K(!new), V>(d: ODict<K, V>) {
    Distinct(d.keys) && forall k :: k in d.values <==> k in d.keys
  }

  function Empty<K, V>(): ODict<K, V> {
    ODict([], map[])
  }

  /** `d[k] = v`: a new key goes to the end, an existing key keeps its place */
  function Put<K(!new), V>(d: ODict<K, V>, k: K, v: V): (r: ODict<K, V>)
    ensures Valid(d) ==> Valid(r)
  {
    ODict(if k in d.values then d.keys else d.keys + [k], d.values[k := v])
  }

  /** `d[k] += n` on an existing key */
  function AddInt<K>(d: ODict<K, int>, k: K, n: int): ODict<K, int>
    requires k in d.values
  {
    ODict(d.keys, d.values[k := d.values[k] + n])
  }

  /** `d[k] += x` on an existing key */
  function AddReal<K>(d: ODict<K, real>, k: K, x: real): ODict<K, real>
    requires k in d.values
  {
    ODict(d.keys, d.values[k := d.values[k] + x])
  }

  /** Sum of `m` over the keys `ks` */
  function SumOver<K>(ks: seq<K>, m: map<K, int>): int
    requires forall i :: 0 <= i < |ks| ==> ks[i] in m
  {
    if |ks| == 0 then 0 else SumOver(ks[..|ks| - 1], m) + m[ks[|ks| - 1]]
  }

  /** `sum(d.values())` */
  function SumValues<K>(d: ODict<K, int>): int
    requires forall i :: 0 <= i < |d.keys| ==> d.keys[i] in d.values
  {
    SumOver(d.keys, d.values)
  }

  /** Adding `n` at one listed key adds `n` to the sum */
  lemma {:induction false} SumOverAdd<K>(ks: seq<K>, m: map<K, int>, k: K, n: int)
    requires Distinct(ks) && k in ks
    requires forall i :: 0 <= i < |ks| ==> ks[i] in m
    ensures SumOver(ks, m[k := m[k] + n]) == SumOver(ks, m) + n
  {
    var init := ks[..|ks| - 1];
    if ks[|ks| - 1] == k {
      assert k !in init;
      SumOverUnchanged(init, m, k, m[k] + n);
    } else {
      assert k in init;
      SumOverAdd(init, m, k, n);
    }
  }

  /** Changing the value at an unlisted key leaves the sum alone */
  lemma {:induction false} SumOverUnchanged<K>(ks: seq<K>, m: map<K, int>, k: K, v: int)
    requires k !in ks
    requires forall i :: 0 <= i < |ks| ==> ks[i] in m
    ensures SumOver(ks, m[k := v]) == SumOver(ks, m)
  {
    if |ks| > 0 {
      SumOverUnchanged(ks[..|ks| - 1], m, k, v);
    }
  }

  /** All-zero values sum to zero */
  lemma {:induction false} SumOverZero<K>(ks: seq<K>, m: map<K, int>)
    requires forall i :: 0 <= i < |ks| ==> ks[i] in m && m[ks[i]] == 0
    ensures SumOver(ks, m) == 0
  {
    if |ks| > 0 {
      SumOverZero(ks[..|ks| - 1], m);
    }
  }

  /** `list(d.items())` */
  function Items<K, V>(d: ODict<K, V>): (r: seq<(K, V)>)
    requires forall i :: 0 <= i < |d.keys| ==> d.keys[i] in d.values
    ensures Keys(r) == d.keys
    ensures forall i :: 0 <= i < |r| ==> r[i].1 == d.values[d.keys[i]]
  {
    var r := seq(|d.keys|, i requires 0 <= i < |d.keys| => (d.keys[i], d.values[d.keys[i]]));
    assert forall i :: 0 <= i < |r| ==> Keys(r)[i] == d.keys[i];
    r
  }
}
