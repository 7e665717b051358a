/** PHP's ordered associative array: keys keep their insertion order, and
    assigning to an existing key keeps its place. */
module PhpArray {

  datatype Assoc<K(==,!new), V> = Assoc(keys: seq<K>, vals: map<K, V>) {

    /** Every key listed once, and the listed keys are exactly the mapped ones. */
    ghost predicate Valid() {
      && (forall i, j :: 0 <= i < j < |keys| ==> keys[i] != keys[j])
      && (forall k :: k in vals <==> k in keys)
    }

    /** `$a[$k] = $v`: an existing key keeps its position, a new one is appended. */
    function Put(k: K, v: V): (a: Assoc<K, V>)
      requires Valid()
      ensures a.Valid() && a.vals == vals[k := v]
      ensures k in vals ==> a.keys == keys
      ensures k !in vals ==> a.keys == keys + [k]
    {
      if k in vals then Assoc(keys, vals[k := v]) else Assoc(keys + [k], vals[k := v])
    }
  }

  /** No element occurs twice. */
  predicate Distinct<T(==)>(s: seq<T>)
  {
    forall i, j :: 0 <= i < j < |s| ==> s[i] != s[j]
  }

  function Empty<K(==,!new), V>(): (a: Assoc<K, V>)
    ensures a.Valid() && a.keys == [] && a.vals == map[]
  {
    Assoc([], map[])
  }
}
