/** Python's `dict`: a finite map that remembers the order in which its keys
    were first inserted; assigning to an existing key replaces its value but
    keeps its position. */
module Dicts {

  datatype Dict<K(==), V> = Dict(keys: seq<K>, entries: map<K, V>)
  {
    /** Keys are listed once each, and exactly the mapped keys are listed. */
    ghost predicate Valid() {
      && (forall i, j :: 0 <= i < j < |keys| ==> keys[i] != keys[j])
      && (forall k :: k in entries ==> k in keys)
      && (forall i :: 0 <= i < |keys| ==> keys[i] in entries)
    }

    /** `d[k] = v` */
    function Put(k: K, v: V): (d: Dict<K, V>)
      requires Valid()
      ensures d.Valid()
      ensures d.entries == entries[k := v]
      ensures k in entries ==> d.keys == keys
      ensures k !in entries ==> d.keys == keys + [k]
    {
      if k in entries then Dict(keys, entries[k := v]) else Dict(keys + [k], entries[k := v])
    }
  }

  function Empty<K(==), V>(): (d: Dict<K, V>)
    ensures d.Valid() && d.keys == [] && d.entries == map[]
  {
    Dict([], map[])
  }

  /** Among the first `n` keys, position `i` is the last to hold `k`. */
  predicate LastKeyAt<K(==)>(ks: seq<K>, n: nat, i: nat, k: K)
    requires i < n <= |ks|
  {
    ks[i] == k && forall j :: i < j < n ==> ks[j] != k
  }

  /** `entries` is what the assignments `d[ks[i]] = vs[i]`, for `i` below
      `n`, leave behind: every key seen, mapped to the value of its last
      assignment. */
  ghost predicate AssignedFrom<K(!new), V>(ks: seq<K>, vs: seq<V>, n: nat, entries: map<K, V>)
    requires n <= |ks| == |vs|
  {
    && (forall k :: k in entries <==> k in ks[..n])
    && (forall k :: k in entries ==> exists i :: 0 <= i < n && LastKeyAt(ks, n, i, k) && entries[k] == vs[i])
  }

  lemma AssignedStep<K(!new), V>(ks: seq<K>, vs: seq<V>, n: nat, entries: map<K, V>)
    requires n < |ks| == |vs| && AssignedFrom(ks, vs, n, entries)
    ensures AssignedFrom(ks, vs, n + 1, entries[ks[n] := vs[n]])
  {
    var e := entries[ks[n] := vs[n]];
    assert ks[..n + 1] == ks[..n] + [ks[n]];
    forall k | k in e
      ensures exists i :: 0 <= i < n + 1 && LastKeyAt(ks, n + 1, i, k) && e[k] == vs[i]
    {
      if k == ks[n] {
        assert LastKeyAt(ks, n + 1, n, k);
      } else {
        var i :| 0 <= i < n && LastKeyAt(ks, n, i, k) && entries[k] == vs[i];
        assert LastKeyAt(ks, n + 1, i, k);
      }
    }
  }
}
