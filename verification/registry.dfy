/** The `MapWrapper<K, V>` template shared by the presets dock and the
    preview: a thin layer over an ordered `std::map` whose lookups fall back
    to a default-constructed value, plus a reverse lookup by linear scan in
    key order. The two instances the plugin keeps are the endpoint registry
    (display name to NDI receiver) and the source registry (source handle to
    display name). */
module Registry {
  import opened Common

  /** `MapWrapper::get`: the stored value, or the default value of `V`
      (`nullptr`, or the empty string) when the key is absent. Absent keys
      are not inserted. */
  function Get<K, V>(m: map<K, V>, key: K, default: V): (v: V)
    ensures key in m ==> v == m[key]
    ensures key !in m ==> v == default
  {
    if key in m then m[key] else default
  }

  /** `MapWrapper::set`: `map_[key] = value`, inserting or overwriting. */
  function Set<K, V>(m: map<K, V>, key: K, value: V): (r: map<K, V>)
    ensures r.Keys == m.Keys + {key}
    ensures r[key] == value
    ensures forall k :: k in m && k != key ==> r[k] == m[k]
  {
    m[key := value]
  }

  /** `MapWrapper::remove`: `map_.erase(key)`; erasing an absent key is a
      no-op. */
  function Remove<K, V>(m: map<K, V>, key: K): (r: map<K, V>)
    ensures r.Keys == m.Keys - {key}
    ensures forall k :: k in r ==> r[k] == m[k]
  {
    m - {key}
  }

  /** Every set of naturals holding some `x` has a least element: descend
      from `x` while a smaller member exists. */
  lemma {:induction false} LeastExists(s: set<nat>, x: nat)
    requires x in s
    ensures exists k :: k in s && forall j :: j in s ==> k <= j
    decreases x
  {
    if !forall j :: j in s ==> x <= j {
      var y :| y in s && y < x;
      LeastExists(s, y);
    }
  }

  /** `MapWrapper::reverseLookup` on a map keyed by handles: the scan walks
      the `std::map` in ascending key order and returns the first key whose
      value is `value`, so the result is the least such key; when no entry
      holds `value` it returns the default key `nullptr`. */
  function ReverseLookup<V(==)>(m: map<Ptr, V>, value: V): (k: Ptr)
    ensures value in m.Values ==>
              k in m && m[k] == value && forall j :: j in m && m[j] == value ==> k <= j
    ensures value !in m.Values ==> k == Null
  {
    if value in m.Values then
      var holders := set j | j in m && m[j] == value;
      var w :| w in m && m[w] == value;
      assert w in holders;
      LeastExists(holders, w);
      var k :| k in holders && forall j :: j in holders ==> k <= j;
      assert forall j :: j in m && m[j] == value ==> j in holders;
      k
    else
      Null
  }

  /** Last write wins, and a write touches only its own key. */
  lemma GetAfterSet<K, V>(m: map<K, V>, key: K, value: V, other: K, default: V)
    ensures Get(Set(m, key, value), key, default) == value
    ensures other != key ==> Get(Set(m, key, value), other, default) == Get(m, other, default)
  {
  }

  /** Two writes to the same key leave the map as the second write alone. */
  lemma SetTwice<K, V>(m: map<K, V>, key: K, first: V, second: V)
    ensures Set(Set(m, key, first), key, second) == Set(m, key, second)
  {
  }

  /** After an erase the key reads back as the default and every other key
      reads back as before. */
  lemma GetAfterRemove<K, V>(m: map<K, V>, key: K, other: K, default: V)
    ensures Get(Remove(m, key), key, default) == default
    ensures other != key ==> Get(Remove(m, key), other, default) == Get(m, other, default)
  {
  }

  /** Looking a value up in reverse and then forward gives the value back,
      whenever some key holds it. */
  lemma ReverseThenGet<V>(m: map<Ptr, V>, value: V, default: V)
    requires value in m.Values
    ensures Get(m, ReverseLookup(m, value), default) == value
  {
  }

  /** A removed key is never the answer of a reverse lookup, unless the
      lookup falls back to the null key. */
  lemma ReverseLookupAfterRemove<V>(m: map<Ptr, V>, key: Ptr, value: V)
    requires key != Null
    ensures ReverseLookup(Remove(m, key), value) != key
  {
  }

  /** Registering a key for a value makes the reverse lookup of that value
      answer that key or a smaller one. */
  lemma ReverseLookupAfterSet<V>(m: map<Ptr, V>, key: Ptr, value: V)
    ensures ReverseLookup(Set(m, key, value), value) <= key
    ensures Get(Set(m, key, value), ReverseLookup(Set(m, key, value), value), value) == value
  {
    var r := Set(m, key, value);
    assert r[key] == value;
    assert value in r.Values;
  }
}
