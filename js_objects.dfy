/**
 * A plain JavaScript object used as a dictionary (`Record<string, V>`): its own
 * keys in enumeration order, and the value stored under each key.
 * Assigning to a key that is not yet present appends it to the enumeration
 * order; assigning to a present key keeps its position.
 */
module JsObjects {

  /** No key occurs twice. */
  ghost predicate Distinct(keys: seq<string>)
  {
    forall i, j :: 0 <= i < j < |keys| ==> keys[i] != keys[j]
  }

  datatype Obj<V> = Obj(keys: seq<string>, vals: map<string, V>)
  {
    /** Every object the runtime can hand out has these: distinct keys, and exactly the keys it holds values for. */
    ghost predicate Valid()
    {
      && Distinct(keys)
      && (forall k :: k in keys ==> k in vals)
      && (forall k :: k in vals ==> k in keys)
    }

    /** `o[k] = v` */
    function Put(k: string, v: V): Obj<V>
    {
      Obj(if k in vals then keys else keys + [k], vals[k := v])
    }
  }

  /**
   * Assigning to a key keeps the object well formed, stores the value under
   * that key only, and keeps the enumeration order of the keys already there.
   */
  lemma PutAt<V>(o: Obj<V>, k: string, v: V)
    ensures o.Valid() ==> o.Put(k, v).Valid()
    ensures o.Put(k, v).vals == o.vals[k := v]
    ensures |o.keys| <= |o.Put(k, v).keys| && o.Put(k, v).keys[..|o.keys|] == o.keys
    ensures k in o.vals ==> o.Put(k, v).keys == o.keys
    ensures k !in o.vals ==> o.Put(k, v).keys == o.keys + [k]
  {
  }

  /** `{}` */
  function Empty<V>(): (r: Obj<V>)
    ensures r.Valid() && |r.vals| == 0
  {
    Obj([], map[])
  }
}
