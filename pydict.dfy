/** A Python dict as a value: its keys in first-insertion order and its key-value mapping.
    `d[k] = v` replaces the value of a present key where it stands and appends a new key. */
module PyDict {

  datatype Dict<K, V> = Dict(keys: seq<K>, values: map<K, V>)

  /** The keys are listed once each, and exactly the keys of the mapping are listed. */
  ghost predicate Valid<K, V>(d: Dict<K, V>) {
    && (forall i, j :: 0 <= i < j < |d.keys| ==> d.keys[i] != d.keys[j])
    && (forall k :: k in d.values ==> k in d.keys)
    && (forall i :: 0 <= i < |d.keys| ==> d.keys[i] in d.values)
  }

  function Empty<K, V>(): (d: Dict<K, V>)
    ensures Valid(d) && d.keys == [] && d.values == map[]
  {
    Dict([], map[])
  }

  /** `d[k] = v`. */
  function Put<K, V>(d: Dict<K, V>, k: K, v: V): (r: Dict<K, V>)
    requires Valid(d)
    ensures Valid(r)
    ensures r.values == d.values[k := v]
    ensures r.keys == if k in d.values then d.keys else d.keys + [k]
  {
    if k in d.values then Dict(d.keys, d.values[k := v]) else Dict(d.keys + [k], d.values[k := v])
  }

  /** Position of a key in the insertion order. */
  function IndexOf<K(==)>(keys: seq<K>, k: K): (i: nat)
    requires k in keys
    ensures i < |keys| && keys[i] == k
    ensures forall j :: 0 <= j < i ==> keys[j] != k
  {
    if keys[0] == k then 0 else 1 + IndexOf(keys[1..], k)
  }

  /** In a list without repeats, the position of the element at `p` is `p`. */
  lemma IndexOfAt<K>(keys: seq<K>, p: nat)
    requires p < |keys| && forall i, j :: 0 <= i < j < |keys| ==> keys[i] != keys[j]
    ensures IndexOf(keys, keys[p]) == p
  {
  }

  /** Appending a key does not move the keys already listed. */
  lemma {:induction false} IndexOfAppend<K>(keys: seq<K>, k: K, x: K)
    requires x in keys
    ensures IndexOf(keys + [k], x) == IndexOf(keys, x)
  {
    if keys[0] != x {
      assert (keys + [k])[1..] == keys[1..] + [k];
      IndexOfAppend(keys[1..], k, x);
    }
  }

  /** `d[k] = v` keeps insertion order: of two keys of the result, `x` comes before `y` exactly
      when `x` was already present and `y` was either absent or after `x`. */
  lemma PutOrder<K, V>(d: Dict<K, V>, k: K, v: V, x: K, y: K)
    requires Valid(d) && x in Put(d, k, v).values && y in Put(d, k, v).values
    ensures IndexOf(Put(d, k, v).keys, x) < IndexOf(Put(d, k, v).keys, y) <==>
      x in d.values && (y !in d.values || IndexOf(d.keys, x) < IndexOf(d.keys, y))
  {
    if k !in d.values {
      var keys := d.keys + [k];
      assert Put(d, k, v).keys == keys;
      IndexOfNew(d.keys, k);
      if x in d.values { IndexOfAppend(d.keys, k, x); } else { assert x == k; }
      if y in d.values { IndexOfAppend(d.keys, k, y); } else { assert y == k; }
    }
  }

  /** A key appended to keys that did not hold it sits last. */
  lemma IndexOfNew<K>(keys: seq<K>, k: K)
    requires k !in keys
    ensures IndexOf(keys + [k], k) == |keys|
  {
  }

  /** The keys of `ks` that `d` does not hold, in order: the keys that setting each of `ks`
      appends to the order. */
  function NewKeys<K, V>(d: Dict<K, V>, ks: seq<K>): seq<K> {
    if ks == [] then []
    else
      var last := ks[|ks| - 1];
      NewKeys(d, ks[..|ks| - 1]) + (if last in d.values then [] else [last])
  }
}
