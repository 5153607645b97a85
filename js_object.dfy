/**
 * A plain JavaScript object used as a dictionary (`{}` indexed by string
 * keys): the value stored under each own property name, and the order in
 * which `for…in` and `Object.keys` enumerate those names, which is the order
 * the names were first added.
 */
module JsObject {
  import opened Seqs

  datatype Dict<+V> = Dict(keys: seq<string>, entries: map<string, V>) {

    /** The enumeration order lists every own property exactly once. */
    ghost predicate Valid() {
      Distinct(keys) && forall k :: k in entries <==> k in keys
    }
  }

  /** `{}` */
  function Empty<V>(): (d: Dict<V>)
    ensures d.Valid() && d.keys == [] && d.entries == map[]
  {
    Dict([], map[])
  }

  /** `d[k] = v`: a new name is enumerated last, an existing one keeps its place. */
  function Put<V>(d: Dict<V>, k: string, v: V): (r: Dict<V>)
    requires d.Valid()
    ensures r.Valid()
    ensures r.entries == d.entries[k := v]
    ensures r.keys == if k in d.entries then d.keys else d.keys + [k]
  {
    if k in d.entries then Dict(d.keys, d.entries[k := v])
    else
      SnocDistinct(d.keys, k);
      Dict(d.keys + [k], d.entries[k := v])
  }

  /** `delete d[k]`: a no-op when `k` is not an own property. */
  function Delete<V>(d: Dict<V>, k: string): (r: Dict<V>)
    requires d.Valid()
    ensures r.Valid()
    ensures r.entries == d.entries - {k}
    ensures r.keys == Without(d.keys, k)
    ensures k !in d.entries ==> r == d
  {
    WithoutKeepsDistinct(d.keys, k);
    if k !in d.entries then WithoutAbsent(d.keys, k); d
    else Dict(Without(d.keys, k), d.entries - {k})
  }

  /** `Object.keys(d).length`: the number of own properties. */
  function Count<V>(d: Dict<V>): (n: nat)
    requires d.Valid()
    ensures n == |d.entries|
    ensures n == 0 <==> d.entries == map[]
  {
    KeyCount(d);
    |d.keys|
  }

  /** The enumeration order is as long as the property set is large. */
  lemma KeyCount<V>(d: Dict<V>)
    requires d.Valid()
    ensures |d.entries| == |d.keys|
  {
    assert d.entries.Keys == set k | k in d.keys;
    DistinctCard(d.keys);
  }

  /** A list of distinct names has as many elements as it has names. */
  lemma {:induction false} DistinctCard(s: seq<string>)
    requires Distinct(s)
    ensures |set k | k in s| == |s|
    decreases |s|
  {
    if s != [] {
      var n := |s| - 1;
      assert Distinct(s[..n]);
      DistinctCard(s[..n]);
      assert s[n] !in s[..n];
      assert (set k | k in s) == (set k | k in s[..n]) + {s[n]} by {
        assert s == s[..n] + [s[n]];
      }
    }
  }

  /** Storing the value a property already has changes nothing. */
  lemma PutSame<V>(d: Dict<V>, k: string)
    requires d.Valid() && k in d.entries
    ensures Put(d, k, d.entries[k]) == d
  {
    assert d.entries[k := d.entries[k]] == d.entries;
  }

  /** Deleting a property forgets what was last stored under it. */
  lemma DeleteAfterPut<V>(d: Dict<V>, k: string, v: V)
    requires d.Valid() && k in d.entries
    ensures Delete(Put(d, k, v), k) == Delete(d, k)
  {
    assert d.entries[k := v] - {k} == d.entries - {k};
  }

  /** Deleting a property that was just added gives back the object it was added to, order included. */
  lemma DeleteUndoesPut<V>(d: Dict<V>, k: string, v: V)
    requires d.Valid() && k !in d.entries
    ensures Delete(Put(d, k, v), k) == d
  {
    WithoutAppend(d.keys, [k], k);
    WithoutAbsent(d.keys, k);
    assert Without([k], k) == [];
    assert d.entries[k := v] - {k} == d.entries;
  }
}
