/**
 * Python's insertion-ordered `dict`, as a sequence of (key, value) pairs.
 * A Python dict never holds a key twice; lookups here take the first pair with the key.
 */
module OrderedMaps {
  import opened Wrappers
  import opened Seqs

  type OrderedMap<K, V> = seq<(K, V)>

  /** `list(m.keys())`, in insertion order. */
  function Keys<K, V>(m: OrderedMap<K, V>): (r: seq<K>)
    ensures |r| == |m|
    ensures forall i :: 0 <= i < |m| ==> r[i] == m[i].0
  {
    seq(|m|, i requires 0 <= i < |m| => m[i].0)
  }

  /** `m.get(k)`. */
  function Get<K(==), V>(m: OrderedMap<K, V>, k: K): (r: Option<V>)
    ensures r.None? <==> k !in Keys(m)
    ensures r.Some? ==> (k, r.value) in m
    decreases |m|
  {
    if |m| == 0 then None
    else if m[0].0 == k then Some(m[0].1)
    else
      var r := Get(m[1..], k);
      assert Keys(m) == [m[0].0] + Keys(m[1..]);
      r
  }

  /** `sum(m.values())` for an integer-valued map. */
  function SumValues<K>(m: OrderedMap<K, int>): int
    decreases |m|
  {
    if m == [] then 0 else SumValues(DropLast(m)) + Last(m).1
  }
}
