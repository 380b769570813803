/**
 * `window.LuminaCache`, the in-memory cache with per-entry expiry
 * (js/main-backup.js:3858-3884). The clock `Date.now()` is a parameter
 * `now` in milliseconds; keys and values are of any type.
 */
module MemoryCache {
  import opened Wrappers

  /** Five minutes, the default time to live. */
  const DefaultTtl: int := 300000

  /** `{ value, expiry }` */
  datatype Entry<V> = Entry(value: V, expiry: int)

  /** Whether an entry stored with `expiry` is still served at `now`. */
  predicate Live(expiry: int, now: int) {
    now <= expiry
  }

  /** What `get(key)` returns at `now` for the map `data`, and the map it leaves. */
  function Lookup<K, V>(data: map<K, Entry<V>>, key: K, now: int): (r: (Option<V>, map<K, Entry<V>>))
    ensures r.0.Some? <==> key in data && Live(data[key].expiry, now)
    ensures r.0.Some? ==> r.0.value == data[key].value
    ensures r.1.Keys == if key in data && !Live(data[key].expiry, now) then data.Keys - {key} else data.Keys
    ensures forall k :: k in r.1 ==> r.1[k] == data[k]
  {
    if key !in data then (None, data)
    else if now > data[key].expiry then (None, data - {key})
    else (Some(data[key].value), data)
  }

  /** A value read back within its time to live is the value stored. */
  lemma StoredThenRead<K, V>(data: map<K, Entry<V>>, key: K, value: V, ttl: int, storedAt: int, now: int)
    requires now <= storedAt + ttl
    ensures Lookup(data[key := Entry(value, storedAt + ttl)], key, now).0 == Some(value)
  {
  }

  /** Storing one key never changes what another key reads. */
  lemma StoreIsolated<K, V>(data: map<K, Entry<V>>, key: K, other: K, value: V, expiry: int, now: int)
    requires other != key
    ensures Lookup(data[key := Entry(value, expiry)], other, now).0 == Lookup(data, other, now).0
  {
  }

  /** Once expired, an entry stays expired: a later read never revives it. */
  lemma ExpiryIsFinal<K, V>(data: map<K, Entry<V>>, key: K, now: int, later: int)
    requires now <= later
    requires Lookup(data, key, now).0.None?
    ensures Lookup(Lookup(data, key, now).1, key, later).0.None?
  {
  }

  class Cache<K(==), V> {
    /** `this.data`, the Map of entries. */
    var data: map<K, Entry<V>>

    constructor ()
      ensures data == map[]
    {
      data := map[];
    }

    /** `set(key, value, ttl)` at `now`: the entry expires at `now + ttl`. */
    method Set(key: K, value: V, now: int, ttl: int := DefaultTtl)
      modifies this
      ensures data == old(data)[key := Entry(value, now + ttl)]
    {
      data := data[key := Entry(value, now + ttl)];
    }

    /**
     * `get(key)` at `now`: a missing key gives None; an expired entry is
     * deleted and gives None; otherwise its value. No other key changes.
     */
    method Get(key: K, now: int) returns (r: Option<V>)
      modifies this
      ensures (r, data) == Lookup(old(data), key, now)
      ensures key !in old(data) ==> r.None? && data == old(data)
      ensures key in old(data) && now > old(data)[key].expiry ==> r.None? && data == old(data) - {key}
      ensures key in old(data) && now <= old(data)[key].expiry ==> r == Some(old(data)[key].value) && data == old(data)
    {
      if key !in data {
        return None;
      }
      var item := data[key];
      if now > item.expiry {
        data := data - {key};
        return None;
      }
      r := Some(item.value);
    }

    /** `clear()` */
    method Clear()
      modifies this
      ensures data == map[]
    {
      data := map[];
    }
  }

  /** A value stored with the default time to live is read back up to five minutes later. */
  method DefaultTtlServes<V>(value: V, now: int, delay: int) returns (r: Option<V>)
    requires 0 <= delay <= DefaultTtl
    ensures r == Some(value)
  {
    var cache := new Cache<string, V>();
    cache.Set("artwork", value, now);
    r := cache.Get("artwork", now + delay);
  }
}
