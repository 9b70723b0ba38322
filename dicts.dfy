/**
 * Plain JavaScript objects used as dictionaries: a value per key, and the keys in
 * insertion order, which `Object.keys` and `for ... in` follow.
 */
module Dicts {
  import opened Wrappers
  import opened Seqs

  datatype RawDict<V> = RawDict(keys: seq<string>, vals: map<string, V>)

  /** Every key listed once, and the listed keys are exactly the keys with a value. */
  ghost predicate WellFormed<V>(d: RawDict<V>) {
    Distinct(d.keys) && forall k :: k in d.vals <==> k in d.keys
  }

  type Dict<V> = d: RawDict<V> | WellFormed(d) witness RawDict([], map[])

  /** `{}`. */
  function Empty<V>(): (r: Dict<V>)
    ensures r.keys == [] && r.vals == map[]
  {
    RawDict([], map[])
  }

  /** `d[k]`, `undefined` being None. */
  function Get<V>(d: Dict<V>, k: string): Option<V> {
    if k in d.vals then Some(d.vals[k]) else None
  }

  /** `d[k] = v`: an existing key keeps its place, a new key goes last. */
  function Put<V>(d: Dict<V>, k: string, v: V): (r: Dict<V>)
    ensures r.vals == d.vals[k := v]
    ensures r.keys == if k in d.vals then d.keys else d.keys + [k]
  {
    var keys := if k in d.vals then d.keys else d.keys + [k];
    assert Distinct(keys) by {
      if k !in d.vals {
        assert k !in d.keys;
      }
    }
    RawDict(keys, d.vals[k := v])
  }

  /** Writing a key twice is writing the second value. */
  lemma PutTwice<V>(d: Dict<V>, k: string, a: V, b: V)
    ensures Put(Put(d, k, a), k, b) == Put(d, k, b)
  {
    assert Put(Put(d, k, a), k, b).vals == Put(d, k, b).vals;
  }

  /** A copy with every value passed through `f`, in the same key order. */
  function MapValues<V, W>(d: Dict<V>, f: V -> W): (r: Dict<W>)
    ensures r.keys == d.keys
    ensures forall k :: k in r.vals <==> k in d.vals
    ensures forall k :: k in d.vals ==> r.vals[k] == f(d.vals[k])
  {
    RawDict(d.keys, map k | k in d.vals :: f(d.vals[k]))
  }
}
