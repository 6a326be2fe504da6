/**
  A bounded in-memory key/value cache with least-recently-used eviction
  and a fixed expiry deadline per entry. The cache keeps three parallel
  structures: the values, the per-key timestamps, and the recency list
  (least recently used first). The clock is the parameter `now`.
 */
module Cache {
  import opened Recency

  datatype Option<T> = None | Some(value: T)

  /** The bookkeeping kept per key. */
  datatype Timestamps = Timestamps(created: int, expires: int, lastAccessed: int)

  /** Expiry is strict: an entry whose deadline equals `now` is still live. */
  predicate IsExpired(t: Timestamps, now: int): (expired: bool)
    ensures now <= t.expires ==> !expired
    ensures now > t.expires ==> expired
  {
    now > t.expires
  }

  /** The keys whose deadline has passed at time `now`. */
  function ExpiredKeys<K>(ts: map<K, Timestamps>, now: int): (expired: set<K>)
    ensures expired <= ts.Keys
    ensures forall k :: k in ts ==> (k in expired <==> IsExpired(ts[k], now))
  {
    set k | k in ts && IsExpired(ts[k], now)
  }

  /** The keys among `ks` whose deadline has passed. */
  ghost function ExpiredAmong<K>(ts: map<K, Timestamps>, ks: set<K>, now: int): set<K>
  {
    set k | k in ks && k in ts && IsExpired(ts[k], now)
  }

  /** Looking at one more key adds it to the expired ones exactly when it has expired. */
  lemma ExpiredAmongStep<K>(ts: map<K, Timestamps>, ks: set<K>, k: K, now: int)
    requires k !in ks && k in ts
    ensures ExpiredAmong(ts, ks + {k}, now) ==
              if IsExpired(ts[k], now) then ExpiredAmong(ts, ks, now) + {k} else ExpiredAmong(ts, ks, now)
    ensures |ExpiredAmong(ts, ks + {k}, now)| ==
              |ExpiredAmong(ts, ks, now)| + if IsExpired(ts[k], now) then 1 else 0
  {
    if IsExpired(ts[k], now) {
      assert ExpiredAmong(ts, ks + {k}, now) == ExpiredAmong(ts, ks, now) + {k};
    } else {
      assert ExpiredAmong(ts, ks + {k}, now) == ExpiredAmong(ts, ks, now);
    }
  }

  /** Removing no keys leaves a map as it is. */
  lemma MapMinusNothing<K, V>(m: map<K, V>)
    ensures m - {} == m
  {
  }

  /** Two rounds of key removal are one round with the union of the keys. */
  lemma MapMinusMinus<K, V>(m: map<K, V>, a: set<K>, b: set<K>)
    ensures m - a - b == m - (a + b)
  {
  }

  /** Storing under a key adds one entry exactly when the key is new. */
  lemma MapUpdateCardinality<K, V>(m: map<K, V>, k: K, v: V)
    ensures |m[k := v]| == if k in m then |m| else |m| + 1
  {
  }

  /** A subset has no more elements than its superset. */
  lemma SubsetCardinality<K>(a: set<K>, b: set<K>)
    requires a <= b
    ensures |a| <= |b|
  {
    if a != {} {
      var x :| x in a;
      SubsetCardinality(a - {x}, b - {x});
    }
  }

  /**
    The keys `put` evicts before storing a key: the least recently used one,
    when the cache already holds `size >= maxSize` entries and the key is new.
   */
  function LruVictims<K(==)>(size: int, maxSize: int, isNew: bool, order: seq<K>): (victims: set<K>)
    ensures |victims| <= 1 && victims <= Elements(order)
    ensures victims != {} <==> size >= maxSize && isNew && order != []
    ensures victims != {} ==> order[0] in victims
  {
    if size >= maxSize && isNew && order != [] then {order[0]} else {}
  }

  /** What `stats` reports; the utilization percentage is the pair (totalItems, maxSize). */
  datatype CacheStats = CacheStats(totalItems: nat, maxSize: int, expiredItems: nat)

  class SimpleCache<K(==), V> {
    const maxSize: int
    const defaultTtl: int
    var data: map<K, V>
    var timestamps: map<K, Timestamps>
    var accessOrder: seq<K>

    /**
      The number of entries the cache can hold: `maxSize`, except that a
      cache built with `maxSize <= 0` still stores the one entry it was
      last given.
     */
    function Capacity(): int
    {
      if maxSize >= 1 then maxSize else 1
    }

    /** The three structures hold the same keys, the recency list once each. */
    ghost predicate Valid()
      reads this
    {
      && timestamps.Keys == data.Keys
      && Elements(accessOrder) == data.Keys
      && NoDuplicates(accessOrder)
      && |data| <= Capacity()
    }

    constructor (maxSize: int := 100, defaultTtl: int := 300)
      ensures Valid()
      ensures this.maxSize == maxSize && this.defaultTtl == defaultTtl
      ensures data == map[] && timestamps == map[] && accessOrder == []
    {
      this.maxSize := maxSize;
      this.defaultTtl := defaultTtl;
      data := map[];
      timestamps := map[];
      accessOrder := [];
    }

    /** Under `Valid`, the recency list is as long as the cache is full. */
    lemma SizeIsListLength()
      requires Valid()
      ensures |data| == |accessOrder|
    {
      NoDuplicatesCardinality(accessOrder);
      assert data.Keys == Elements(accessOrder);
    }

    /** Store `value` under `key`, sweeping expired entries and evicting the LRU key first if full. */
    method Put(key: K, value: V, ttl: Option<int>, now: int)
      requires Valid()
      modifies this
      ensures Valid()
      ensures var expired := ExpiredKeys(old(timestamps), now);
              var swept := old(data) - expired;
              var order := Without(old(accessOrder), expired);
              var victims := LruVictims(|swept|, maxSize, key !in swept, order);
              && data == (swept - victims)[key := value]
              && accessOrder == Without(old(accessOrder), expired + (victims + {key})) + [key]
      ensures key in data && data[key] == value
      ensures timestamps.Keys == data.Keys
      ensures timestamps[key].created == now && timestamps[key].lastAccessed == now
      ensures timestamps[key].expires == now + (if ttl.Some? then ttl.value else defaultTtl)
      ensures forall k :: k in timestamps && k != key ==> k in old(timestamps) && timestamps[k] == old(timestamps)[k]
      ensures accessOrder[|accessOrder| - 1] == key && key !in accessOrder[..|accessOrder| - 1]
      ensures maxSize >= 1 ==> |data| <= maxSize
      ensures forall a, b :: a in data && b in data && a != key && b != key ==>
                (Precedes(accessOrder, a, b) <==> Precedes(old(accessOrder), a, b))
    {
      var life := if ttl.Some? then ttl.value else defaultTtl;
      ghost var expired := ExpiredKeys(timestamps, now);
      CleanupExpired(now);
      ghost var swept, order := data, accessOrder;
      ghost var victims := LruVictims(|swept|, maxSize, key !in swept, order);
      MakeRoom(key);
      Store(key, value, Timestamps(now, now + life, now));
      WithoutWithout(order, victims, {key});
      WithoutWithout(old(accessOrder), expired, victims + {key});
      TouchKeepsAllPrecedes(old(accessOrder), expired + (victims + {key}), key, data.Keys);
    }

    /**
      When the cache is full and `key` is new, evict the least recently used
      key, so that `key` can be stored without exceeding the capacity.
     */
    method MakeRoom(key: K)
      requires Valid()
      modifies this
      ensures Valid()
      ensures var victims := LruVictims(|old(data)|, maxSize, key !in old(data), old(accessOrder));
              && data == old(data) - victims
              && timestamps == old(timestamps) - victims
              && accessOrder == Without(old(accessOrder), victims)
      ensures |data| < Capacity() || key in data
    {
      SizeIsListLength();
      WithoutDisjoint(accessOrder, {});
      MapMinusNothing(data);
      MapMinusNothing(timestamps);
      if |data| >= maxSize && key !in data {
        if accessOrder != [] {
          WithoutHead(accessOrder);
        }
        EvictLru();
      }
      SizeIsListLength();
    }

    /**
      Write `value` and its timestamps under `key` and make `key` the most
      recently used entry; there must be room for it unless it is already stored.
     */
    method Store(key: K, value: V, stamps: Timestamps)
      requires Valid()
      requires |data| < Capacity() || key in data
      modifies this
      ensures Valid()
      ensures data == old(data)[key := value]
      ensures timestamps == old(timestamps)[key := stamps]
      ensures accessOrder == Without(old(accessOrder), {key}) + [key]
    {
      ghost var kept, mid := data, accessOrder;
      data := data[key := value];
      timestamps := timestamps[key := stamps];
      if key in accessOrder {
        RemoveFirstIsWithout(mid, key);
        accessOrder := RemoveFirst(accessOrder, key);
      } else {
        WithoutDisjoint(mid, {key});
      }
      AppendNoDuplicates(accessOrder, key);
      accessOrder := accessOrder + [key];
      MapUpdateCardinality(kept, key, value);
    }

    /** Look `key` up: a miss if absent, a miss that drops it if expired, otherwise a hit that touches it. */
    method Get(key: K, now: int) returns (r: Option<V>)
      requires Valid()
      modifies this
      ensures Valid()
      ensures key !in old(data) ==> r == None && unchanged(this)
      ensures key in old(data) && IsExpired(old(timestamps)[key], now) ==>
                && r == None
                && data == old(data) - {key}
                && timestamps == old(timestamps) - {key}
                && accessOrder == Without(old(accessOrder), {key})
      ensures key in old(data) && !IsExpired(old(timestamps)[key], now) ==>
                && r == Some(old(data)[key])
                && data == old(data)
                && timestamps == old(timestamps)[key := old(timestamps)[key].(lastAccessed := now)]
                && accessOrder == Without(old(accessOrder), {key}) + [key]
      ensures key in data ==>
                timestamps[key].expires == old(timestamps)[key].expires &&
                timestamps[key].created == old(timestamps)[key].created
    {
      if key !in data {
        return None;
      }
      if now > timestamps[key].expires {
        RemoveKey(key);
        return None;
      }
      timestamps := timestamps[key := timestamps[key].(lastAccessed := now)];
      RemoveFirstIsWithout(accessOrder, key);
      accessOrder := RemoveFirst(accessOrder, key);
      AppendNoDuplicates(accessOrder, key);
      accessOrder := accessOrder + [key];
      r := Some(data[key]);
    }

    /** Remove `key`; the result says whether it was there. */
    method Delete(key: K) returns (removed: bool)
      requires Valid()
      modifies this
      ensures Valid()
      ensures removed <==> key in old(data)
      ensures removed ==>
                && data == old(data) - {key}
                && timestamps == old(timestamps) - {key}
                && accessOrder == Without(old(accessOrder), {key})
      ensures !removed ==> unchanged(this)
    {
      if key in data {
        RemoveKey(key);
        removed := true;
      } else {
        removed := false;
      }
    }

    /** Empty all three structures. */
    method Clear()
      requires Valid()
      modifies this
      ensures Valid()
      ensures data == map[] && timestamps == map[] && accessOrder == []
    {
      data := map[];
      timestamps := map[];
      accessOrder := [];
    }

    /** Count the entries and, without removing them, the expired ones. */
    method Stats(now: int) returns (s: CacheStats)
      requires Valid()
      ensures s.totalItems == |data| && s.maxSize == maxSize
      ensures s.expiredItems == |ExpiredKeys(timestamps, now)|
      ensures s.expiredItems <= s.totalItems <= Capacity()
    {
      var expiredCount := 0;
      var pending := timestamps.Keys;
      ghost var seen: set<K> := {};
      while pending != {}
        invariant pending !! seen && pending + seen == timestamps.Keys
        invariant expiredCount == |ExpiredAmong(timestamps, seen, now)|
        decreases pending
      {
        var key :| key in pending;
        ExpiredAmongStep(timestamps, seen, key, now);
        if now > timestamps[key].expires {
          expiredCount := expiredCount + 1;
        }
        pending := pending - {key};
        seen := seen + {key};
      }
      assert ExpiredAmong(timestamps, seen, now) == ExpiredKeys(timestamps, now);
      SubsetCardinality(ExpiredKeys(timestamps, now), data.Keys);
      s := CacheStats(|data|, maxSize, expiredCount);
    }

    /** The keys whose deadline has passed, as the list the sweep collects. */
    method ExpiredKeyList(now: int) returns (expiredKeys: seq<K>)
      ensures Elements(expiredKeys) == ExpiredKeys(timestamps, now)
      ensures NoDuplicates(expiredKeys)
    {
      expiredKeys := [];
      var pending := timestamps.Keys;
      while pending != {}
        invariant pending <= timestamps.Keys
        invariant NoDuplicates(expiredKeys)
        invariant Elements(expiredKeys) == ExpiredAmong(timestamps, timestamps.Keys - pending, now)
        decreases pending
      {
        var key :| key in pending;
        ExpiredAmongStep(timestamps, timestamps.Keys - pending, key, now);
        assert timestamps.Keys - (pending - {key}) == (timestamps.Keys - pending) + {key};
        if now > timestamps[key].expires {
          AppendNoDuplicates(expiredKeys, key);
          expiredKeys := expiredKeys + [key];
        }
        pending := pending - {key};
      }
      assert ExpiredAmong(timestamps, timestamps.Keys, now) == ExpiredKeys(timestamps, now);
    }

    /** Remove every entry whose deadline has passed; the rest keep their values, timestamps and order. */
    method CleanupExpired(now: int)
      requires Valid()
      modifies this
      ensures Valid()
      ensures data == old(data) - ExpiredKeys(old(timestamps), now)
      ensures timestamps == old(timestamps) - ExpiredKeys(old(timestamps), now)
      ensures accessOrder == Without(old(accessOrder), ExpiredKeys(old(timestamps), now))
    {
      ghost var expired := ExpiredKeys(timestamps, now);
      var expiredKeys := ExpiredKeyList(now);
      WithoutDisjoint(accessOrder, {});
      ghost var removed: set<K> := {};
      for i := 0 to |expiredKeys|
        invariant removed == Elements(expiredKeys[..i])
        invariant Valid()
        invariant data == old(data) - removed
        invariant timestamps == old(timestamps) - removed
        invariant accessOrder == Without(old(accessOrder), removed)
      {
        var key := expiredKeys[i];
        PrefixElements(expiredKeys, i);
        WithoutWithout(old(accessOrder), removed, {key});
        MapMinusMinus(old(data), removed, {key});
        MapMinusMinus(old(timestamps), removed, {key});
        RemoveKey(key);
        removed := removed + {key};
      }
      assert expiredKeys[..|expiredKeys|] == expiredKeys;
      assert removed == expired;
    }

    /** Remove the head of the recency list, if there is one. */
    method EvictLru()
      requires Valid()
      modifies this
      ensures Valid()
      ensures old(accessOrder) == [] ==> unchanged(this)
      ensures old(accessOrder) != [] ==>
                && data == old(data) - {old(accessOrder)[0]}
                && timestamps == old(timestamps) - {old(accessOrder)[0]}
                && accessOrder == old(accessOrder)[1..]
    {
      if accessOrder != [] {
        var lruKey := accessOrder[0];
        WithoutHead(accessOrder);
        RemoveKey(lruKey);
      }
    }

    /** Remove `key` from all three structures; an absent key is no error. */
    method RemoveKey(key: K)
      requires Valid()
      modifies this
      ensures Valid()
      ensures data == old(data) - {key}
      ensures timestamps == old(timestamps) - {key}
      ensures accessOrder == Without(old(accessOrder), {key})
    {
      data := data - {key};
      timestamps := timestamps - {key};
      if key in accessOrder {
        RemoveFirstIsWithout(accessOrder, key);
        accessOrder := RemoveFirst(accessOrder, key);
      } else {
        WithoutDisjoint(accessOrder, {key});
      }
    }
  }
}
