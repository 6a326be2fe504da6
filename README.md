# SimpleCache: a verified model

This project models `SimpleCache`, a bounded in-memory key/value cache. The cache combines
least-recently-used (LRU) eviction with a fixed expiry deadline per entry. It keeps three
parallel structures that must stay in step:

- `data`: the values, a map from key to value;
- `timestamps`: per key, the record `(created, expires, lastAccessed)`;
- `accessOrder`: the recency list of keys, least recently used first.

The model has two modules.

- `Recency` (`recency.dfy`) covers the list operations the cache uses on its recency list:
  - Python's `list.remove` (`RemoveFirst`);
  - removing a set of keys while keeping the others in order (`Without`);
  - the relative order of two keys (`Precedes`).

  Its lemmas relate these to each other. One lemma shows that removals keep the relative
  order of the keys that stay, and that appending a key keeps it as well.
- `Cache` (`cache.dfy`) holds the class `SimpleCache`. The class keeps the three structures
  as fields, with `maxSize` and `defaultTtl` as constants. Each operation is a method that
  updates the fields in place.

The invariant `Valid()` states four things:

- the three structures hold the same keys;
- the recency list holds each key once;
- the cache holds at most `Capacity()` entries;
- `Capacity()` is `maxSize`, or 1 when `maxSize <= 0`.

Every operation preserves `Valid()`. Each method states its whole new state in terms of the
old state.

The clock is an explicit parameter `now: int`. An entry is expired only when
`now > expires`, strictly, as in the code's three comparisons. An entry whose deadline equals
`now` is still live. Keys are a generic type with equality; values are a generic type.

Two properties of the code shape the model.

- **Expiry is strict.** The comparisons at `cache_system.py` lines 86, 130 and 146 are
  `now > expires`. At `now == expires` an entry is still served, and it is neither counted
  nor swept as expired.
- **The constructor accepts `max_size <= 0`.** With such a capacity,
  `len(_data) >= max_size` always holds. So `put` on a new key evicts the entry the cache
  holds, if any, and then stores the key. The cache holds at most one entry: the last new
  key stored. `Capacity()` is 1 in this case, and `Put` states its size bound `maxSize` only
  for `maxSize >= 1`.

## Model

| member | source | states |
|---|---|---|
| Cache.SimpleCache.constructor | prompting-patterns-tasks/scenario_e_learning/cache_system.py:18-30 | A new cache records `max_size` and `default_ttl`, which default to 100 and 300 when omitted. It has all three structures empty, and satisfies the invariant. |
| Cache.SimpleCache.Put | prompting-patterns-tasks/scenario_e_learning/cache_system.py:32-65 | Sweeps expired keys, evicts the LRU key only when the swept cache is full and the key is new, then stores the value. `created = lastAccessed = now`; `expires = now + ttl`, with `default_ttl` when ttl is omitted. Other entries keep their timestamps. The key is last in the recency list and occurs there once. Other keys keep their relative order. With `max_size >= 1` the size stays within `max_size`. |
| Cache.SimpleCache.MakeRoom | prompting-patterns-tasks/scenario_e_learning/cache_system.py:51-52 | Evicts exactly the head of the recency list when the cache is full and the key is new, and nothing otherwise. Afterwards the key fits within the capacity. |
| Cache.SimpleCache.Store | prompting-patterns-tasks/scenario_e_learning/cache_system.py:54-65 | Writes the value and timestamps under the key. Removes the key from the recency list if it was there, then appends it. The invariant is kept whenever there was room or the key was already stored. |
| Cache.SimpleCache.Get | prompting-patterns-tasks/scenario_e_learning/cache_system.py:69-97 | Absent key: `None`, nothing changes. Expired key: `None`, and the key is gone from all three structures. Live key: the stored value, `lastAccessed = now`, and the key moved to the end of the list. `created` and `expires` never change, so there is no sliding expiry. |
| Cache.SimpleCache.Delete | prompting-patterns-tasks/scenario_e_learning/cache_system.py:99-115 | Returns true iff the key was present. On true the key is gone from all three structures. On false nothing changes. |
| Cache.SimpleCache.Clear | prompting-patterns-tasks/scenario_e_learning/cache_system.py:117-121 | All three structures are empty. |
| Cache.SimpleCache.Stats | prompting-patterns-tasks/scenario_e_learning/cache_system.py:124-138 | Changes nothing. Reports the number of entries, expired ones included, and `max_size`. Reports the number of entries with `now > expires`, which is at most the total. |
| Cache.IsExpired | prompting-patterns-tasks/scenario_e_learning/cache_system.py:86 | Expiry is strict: an entry is live up to and including its deadline and expired at any later time. The same test is used at lines 130 and 146. |
| Cache.ExpiredKeys | prompting-patterns-tasks/scenario_e_learning/cache_system.py:145-147 | The keys collected by the sweep are exactly the stored keys whose entry has expired at `now`. |
| Cache.LruVictims | prompting-patterns-tasks/scenario_e_learning/cache_system.py:51-52 | The eviction decision. At most one key is evicted, and only a key from the recency list. A key is evicted exactly when the cache is full, the key is new and the list is not empty. The evicted key is then `_access_order[0]`, the choice at line 156. |
| Cache.ExpiredAmongStep | prompting-patterns-tasks/scenario_e_learning/cache_system.py:129-131 | Visiting one more key raises the expired count by one exactly when that key has expired. |
| Cache.SimpleCache.ExpiredKeyList | prompting-patterns-tasks/scenario_e_learning/cache_system.py:143-147 | The collected list holds exactly the expired keys, each once, and changes nothing. |
| Cache.SimpleCache.CleanupExpired | prompting-patterns-tasks/scenario_e_learning/cache_system.py:140-151 | Removes exactly the expired keys from all three structures. Every other entry keeps its value and timestamps, and the recency list is the old list with the expired keys filtered out. |
| Cache.SimpleCache.EvictLru | prompting-patterns-tasks/scenario_e_learning/cache_system.py:153-158 | An empty list: nothing changes. Otherwise the head of the list is removed from all three structures, and the list becomes its tail. |
| Cache.SimpleCache.RemoveKey | prompting-patterns-tasks/scenario_e_learning/cache_system.py:160-165 | Removes the key from all three structures and keeps the invariant. An absent key is no error and changes nothing. |
| Cache.SimpleCache.SizeIsListLength | prompting-patterns-tasks/scenario_e_learning/cache_system.py:28-30 | Under the invariant, the number of entries equals the length of the recency list. |
| Recency.RemoveFirst | prompting-patterns-tasks/scenario_e_learning/cache_system.py:93 | Python's `list.remove` on a present key shortens the list by exactly one entry. The same call appears at lines 64 and 165. |
| Recency.RemoveFirstSplit | prompting-patterns-tasks/scenario_e_learning/cache_system.py:93 | `list.remove(k)` splices out exactly the first occurrence of `k` and keeps everything before and after it. |
| Recency.RemoveFirstIsWithout | prompting-patterns-tasks/scenario_e_learning/cache_system.py:164-165 | On a list without duplicates, `remove(k)` equals filtering `k` out. |
| Recency.Without | prompting-patterns-tasks/scenario_e_learning/cache_system.py:149-150 | Filtering keys out of the list keeps exactly the other keys, never lengthens it, and keeps it free of duplicates. |
| Recency.WithoutWithout | prompting-patterns-tasks/scenario_e_learning/cache_system.py:149-150 | Removing keys one round after another equals one removal of their union. |
| Recency.WithoutDisjoint | prompting-patterns-tasks/scenario_e_learning/cache_system.py:164 | Removing keys the list does not hold leaves the list unchanged. |
| Recency.WithoutHead | prompting-patterns-tasks/scenario_e_learning/cache_system.py:155-157 | On a list without duplicates, removing the head key leaves the tail. |
| Recency.NoDuplicatesCardinality | prompting-patterns-tasks/scenario_e_learning/cache_system.py:51 | A list without duplicates has as many distinct keys as entries. |
| Recency.AppendNoDuplicates | prompting-patterns-tasks/scenario_e_learning/cache_system.py:64-65 | Appending a key the list does not hold keeps it free of duplicates and adds exactly that key. |
| Recency.WithoutKeepsPrecedes | prompting-patterns-tasks/scenario_e_learning/cache_system.py:149-150 | Filtering keys out does not change the relative order of two keys that stay. |
| Recency.AppendKeepsPrecedes | prompting-patterns-tasks/scenario_e_learning/cache_system.py:65 | Appending a third key does not change the relative order of two others. |
| Recency.TouchKeepsPrecedes | prompting-patterns-tasks/scenario_e_learning/cache_system.py:63-65 | Removing keys and then appending a key keeps the relative order of any two other keys that stay. |
| Recency.TouchKeepsAllPrecedes | prompting-patterns-tasks/scenario_e_learning/cache_system.py:63-65 | The same for every pair of keys of the touched list other than the appended key. |

## Left out

- The `print` calls report to the console only and are not modelled.
- `time.time()` becomes the parameter `now`. `time.time()` returns fractional seconds; `now` and every timestamp are whole numbers (`int`).
- Put: the source reads the clock twice. Line 45 gives the stored timestamps, and line 142 inside `_cleanup_expired` gives the sweep time. The model uses one `now` for both, so an entry whose deadline falls between the two readings is swept by the source but kept by the model.
- The `demo_cache_usage` harness, with its `time.sleep`, is not part of this model.
- The `utilization` field of `stats` is float division, and it divides by zero when `max_size` is 0. It is left out. The pair `(totalItems, maxSize)` it is computed from is reported.
- Get: Python returns `None` both for a miss and for a stored value that is itself `None`. The model returns `Option<V>`, so a hit on such a value is `Some(...)`.
- `_cleanup_expired` and `stats` iterate over a dict in insertion order. Both loops pick keys in an unspecified order instead. Neither result depends on the order; for the sweep the recency list is the same either way.
- Line 92 mutates the timestamp record in place. This is modelled as replacing the record with a copy whose `lastAccessed` is updated. No other reference to that record exists in the class.
- Keys are Python strings, modelled as any type with equality. Values are modelled as any type.
- Put: the relative-order clause covers keys still in the cache after the call. Evicted and expired keys are gone, so their order is not stated.
