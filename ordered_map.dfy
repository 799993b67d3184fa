/**
 * An insertion-ordered map, as a JavaScript `Map` (and a plain object with
 * string keys) behaves: entries are kept in the order their keys were first
 * set, and setting an existing key replaces its value without moving it.
 */
module OrderedMap {

  datatype OMap<K(==, !new), V> = OMap(keys: seq<K>, vals: map<K, V>)
  {
    /** Keys are listed once each, and exactly the keys of `vals` are listed. */
    ghost predicate Valid()
    {
      && (forall i, j :: 0 <= i < j < |keys| ==> keys[i] != keys[j])
      && (forall k :: k in vals <==> k in keys)
    }

    /** `Map.prototype.set`. */
    function Set(k: K, v: V): (r: OMap<K, V>)
      ensures Valid() ==> r.Valid()
    {
      if k in vals then OMap(keys, vals[k := v]) else OMap(keys + [k], vals[k := v])
    }

    /** `Array.from(m.values())`: the values in key order. */
    function Values(): (vs: seq<V>)
      requires Valid()
      ensures |vs| == |keys|
      ensures forall p :: 0 <= p < |keys| ==> vs[p] == vals[keys[p]]
    {
      seq(|keys|, i requires 0 <= i < |keys| => vals[keys[i]])
    }
  }

  /** The map obtained by setting the first `n` pairs in turn, starting from
      an empty map. */
  function SetAll<K(==, !new), V>(ps: seq<(K, V)>, n: nat): OMap<K, V>
    requires n <= |ps|
  {
    if n == 0 then OMap([], map[]) else SetAll(ps, n - 1).Set(ps[n - 1].0, ps[n - 1].1)
  }

  /** The map obtained by setting every pair in turn. */
  function FromPairs<K(==, !new), V>(ps: seq<(K, V)>): OMap<K, V>
  {
    SetAll(ps, |ps|)
  }

  /** The position of the first of the first `n` pairs with key `k`, or `n`. */
  function FirstIndex<K(==), V>(ps: seq<(K, V)>, n: nat, k: K): (i: nat)
    requires n <= |ps|
    ensures i <= n
    ensures i < n ==> ps[i].0 == k
    ensures forall j :: 0 <= j < i ==> ps[j].0 != k
  {
    if n == 0 then 0
    else
      var i := FirstIndex(ps, n - 1, k);
      if i < n - 1 then i else if ps[n - 1].0 == k then n - 1 else n
  }

  /** The position of the last of the first `n` pairs with key `k`, or `n`. */
  function LastIndex<K(==), V>(ps: seq<(K, V)>, n: nat, k: K): (i: nat)
    requires n <= |ps|
    ensures i <= n
    ensures i < n ==> ps[i].0 == k && forall j :: i < j < n ==> ps[j].0 != k
    ensures i == n ==> forall j :: 0 <= j < n ==> ps[j].0 != k
  {
    if n == 0 then 0
    else if ps[n - 1].0 == k then n - 1
    else
      var i := LastIndex(ps, n - 1, k);
      if i < n - 1 then i else n
  }

  /** The position of the first pair with key `k`, or `|ps|`. */
  function IndexOfKey<K(==), V>(ps: seq<(K, V)>, k: K): nat
  {
    FirstIndex(ps, |ps|, k)
  }

  /** Setting pairs in turn keeps the map well formed. */
  lemma {:induction false} SetAllValid<K(!new), V>(ps: seq<(K, V)>, n: nat)
    requires n <= |ps|
    ensures SetAll(ps, n).Valid()
  {
    if n > 0 {
      SetAllValid(ps, n - 1);
    }
  }

  /** A key is in the map exactly when some pair carries it, and last write
      wins: it holds the value of the last pair carrying it. */
  lemma {:induction false} SetAllLookup<K(!new), V>(ps: seq<(K, V)>, n: nat, k: K)
    requires n <= |ps|
    ensures k in SetAll(ps, n).vals <==> LastIndex(ps, n, k) < n
    ensures k in SetAll(ps, n).vals ==> SetAll(ps, n).vals[k] == ps[LastIndex(ps, n, k)].1
  {
    if n > 0 && ps[n - 1].0 != k {
      SetAllLookup(ps, n - 1, k);
    }
  }

  /** Keys stay in the order of their first occurrence among the pairs. */
  lemma {:induction false} SetAllFirstOccurrenceOrder<K(!new), V>(ps: seq<(K, V)>, n: nat)
    requires n <= |ps|
    ensures forall a :: 0 <= a < |SetAll(ps, n).keys| ==> FirstIndex(ps, n, SetAll(ps, n).keys[a]) < n
    ensures forall a, b :: 0 <= a < b < |SetAll(ps, n).keys| ==>
      FirstIndex(ps, n, SetAll(ps, n).keys[a]) < FirstIndex(ps, n, SetAll(ps, n).keys[b])
  {
    if n > 0 {
      SetAllFirstOccurrenceOrder(ps, n - 1);
      var m0 := SetAll(ps, n - 1);
      var m := SetAll(ps, n);
      var k := ps[n - 1].0;
      forall a | 0 <= a < |m0.keys| ensures m.keys[a] == m0.keys[a] && FirstIndex(ps, n, m0.keys[a]) == FirstIndex(ps, n - 1, m0.keys[a]) {
        assert FirstIndex(ps, n - 1, m0.keys[a]) < n - 1;
      }
      if k !in m0.vals {
        SetAllLookup(ps, n - 1, k);
        assert FirstIndex(ps, n - 1, k) == n - 1;
        assert m.keys == m0.keys + [k];
      } else {
        assert m.keys == m0.keys;
      }
    }
  }

  /** When no key repeats, the keys are those of the pairs, in order, and each
      key holds its own pair's value. */
  lemma {:induction false} SetAllDistinct<K(!new), V>(ps: seq<(K, V)>, n: nat)
    requires n <= |ps|
    requires forall i, j :: 0 <= i < j < |ps| ==> ps[i].0 != ps[j].0
    ensures |SetAll(ps, n).keys| == n
    ensures forall i :: 0 <= i < n ==>
      SetAll(ps, n).keys[i] == ps[i].0 && ps[i].0 in SetAll(ps, n).vals && SetAll(ps, n).vals[ps[i].0] == ps[i].1
  {
    if n > 0 {
      SetAllDistinct(ps, n - 1);
      SetAllLookup(ps, n - 1, ps[n - 1].0);
    }
  }
}
