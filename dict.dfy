/**
 * An insertion-ordered dictionary keyed by strings.  It stands for both
 * dictionaries of the pipeline: the plain object `components` (whose keys
 * are file names ending in an extension, never array indices, so
 * `Object.entries` lists them in first-insertion order) and the `Map`
 * `componentMap`.  Assigning to a key that is already present replaces
 * its value and keeps its position.
 */
module Dict {

  datatype Dict<V> = Dict(order: seq<string>, values: map<string, V>) {

    /** The keys listed by `order` are pairwise distinct and are exactly the keys holding a value. */
    ghost predicate Valid() {
      && (forall i, j :: 0 <= i < j < |order| ==> order[i] != order[j])
      && (forall k :: k in values <==> k in order)
    }
  }

  function Empty<V>(): (d: Dict<V>)
    ensures d.Valid() && d.order == [] && d.values == map[]
  {
    Dict([], map[])
  }

  /** `d[k] = v`: a new key goes to the end of the enumeration order, an existing key keeps its place. */
  function Put<V>(d: Dict<V>, k: string, v: V): (r: Dict<V>)
    requires d.Valid()
    ensures r.Valid()
    ensures k in r.values && r.values[k] == v
    ensures forall k' :: k' != k ==> (k' in r.values <==> k' in d.values)
    ensures forall k' :: k' != k && k' in d.values ==> r.values[k'] == d.values[k']
    ensures k in d.values ==> r.order == d.order
    ensures k !in d.values ==> r.order == d.order + [k]
  {
    if k in d.values then Dict(d.order, d.values[k := v])
    else Dict(d.order + [k], d.values[k := v])
  }
}
