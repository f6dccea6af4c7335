# Gee cache core in Dafny

This project models the two bottom layers of the Gee distributed cache.

- `lru.Cache` (module `Lru`, file `lru.dfy`) is a byte-bounded LRU store. It keeps a recency list `ll`, with the most recently used entry at the front, and a map `cache` from each key to its list element. A running byte count `nbytes` charges every entry `len(key) + value.Len()`, and the store evicts from the back while `maxBytes != 0 && maxBytes < nbytes`. A zero bound means unbounded. An optional `OnEvicted` callback is told about every eviction.
- `cache` (module `GeeCache`, file `geecache.dfy`) is the group-level wrapper. It holds a byte bound `cacheBytes` and a store that is created lazily on the first `add`, with that bound and no callback. A `get` made before the first `add` is a clean miss.

Both layers are imperative, and the model keeps that form.

- `Lru.Cache` is a class whose fields are updated in place:
  - `order` is the list, front first;
  - `index` is the key map;
  - `nbytes` and `maxBytes` are the byte count and the bound;
  - `hasOnEvicted` says whether a callback is installed;
  - `evicted` is a ghost log of the callback's calls.
  
  Its methods are proved against functions on `seq<Entry>`:
  - `Touch` is Get's promotion;
  - `Insert` is Add before eviction;
  - `Trim` is the eviction loop;
  - `Put = Trim ∘ Insert`.
  
  The laws of those functions are proved as lemmas. The class invariant `Valid()` has four parts:
  - the keys in the list are distinct;
  - `index` is the map the list determines (`IndexOf`);
  - `nbytes` is the list's total size;
  - `maxBytes >= 0`.
- `GeeCache.Cache` is a class with a nullable `lru: Lru.Cache?` field and `cacheBytes`. Its `Contents()` is the empty list while there is no store yet.

## Model

| member | source | states |
|---|---|---|
| Lru.Value.Len | lru/lru.go:19-22 | definition, no contract of its own: a value's `Len` is its number of bytes, never negative; `Size` charges it |
| Lru.Size | lru/lru.go:52 | definition, no contract of its own: an entry is charged `len(key) + value.Len()`, the amount lines 52, 63 and 68 add and subtract; its laws are in DropLastBytes, OthersBytes and InsertLaws |
| Lru.TotalBytes | lru/lru.go:8 | definition, no contract of its own: `nbytes` as the sum of `Size` over the list; its laws are in TotalBytesAppend, TotalBytesFront and TotalBytesPrefix, and `Cache.Valid` ties `nbytes` to it |
| Lru.Find | lru/lru.go:38 | the map lookup `c.cache[key]`: finds an element exactly when the key is resident, and the element holds that key |
| Lru.Lookup | lru/lru.go:38-41 | the resident value for a key: none exactly when the key is absent, otherwise an entry of the list with that key and value |
| Lru.Remove | lru/lru.go:39 | definition, no contract of its own: the list with the key's element unlinked, the unlink half of `MoveToFront` (lines 39, 61), which takes it out of its place before putting it at the front; RemoveIsOthers proves it equal to the reference filter `Others` |
| Lru.Touch | lru/lru.go:39 | definition, no contract of its own: Get's promotion of a hit to the front; its laws are in TouchLaws, TouchIdempotent and TouchKeepsIndex |
| Lru.Insert | lru/lru.go:60-68 | definition, no contract of its own: Add before eviction, the key at the front with the new value; its laws are in InsertLaws, InsertReplaces and InsertKeepsIndex |
| Lru.Trim | lru/lru.go:70-72 | the eviction loop keeps a prefix of the list (it drops elements only from the back), evicts nothing when the bound is 0, and otherwise ends within the bound |
| Lru.Put | lru/lru.go:59-72 | definition, no contract of its own: the whole of Add, `Insert` then `Trim`; TrimKeepsFront and EvictsLeastRecentlyUsed state what it keeps and evicts, and `Cache.Add` is proved to produce it |
| Lru.Reversed | lru/lru.go:53-55 | definition, no contract of its own: a list back to front, the order of the `OnEvicted` calls one Add makes; ReversedAt gives it element by element, and `Cache.Evict` and `Cache.Add` state their logs with it |
| Lru.ReversedAt | lru/lru.go:53-72 | the callback log of one Add is the evicted suffix back to front: its i-th call sees the i-th element from the back |
| Lru.ReversedSuffix | lru/lru.go:53-72 | proof helper (one unfolding of `Reversed`) for `Cache.Evict`: evicting one more element from the back appends exactly that element to the callback log |
| Lru.TotalBytesAppend | lru/lru.go:63-68 | the byte count of a concatenation is the sum of the byte counts |
| Lru.DropLastBytes | lru/lru.go:47-52 | removing the back element lowers the byte count by exactly `len(key) + value.Len()` of that element |
| Lru.DropLastKeys | lru/lru.go:49-51 | removing the back element from list and map removes exactly its key, and the remaining keys stay distinct |
| Lru.DistinctCons | lru/lru.go:66-67 | pushing an entry to the front keeps the keys distinct if and only if its key is new and the rest is distinct |
| Lru.DistinctKeysCount | lru/lru.go:24-26 | with distinct keys the list's key set has exactly as many keys as the list has elements; IndexOfIndexes ties that set to the map, and `Cache.Len` uses both |
| Lru.OthersAbsent | lru/lru.go:65-66 | for an absent key, filtering it out leaves the list unchanged |
| Lru.RemoveIsOthers | lru/lru.go:39 | unlinking the key's element (`MoveToFront` takes it out of its place) equals the reference filter: the other entries keep their relative order |
| Lru.OthersMembers | lru/lru.go:61 | the filtered list holds exactly the entries with another key |
| Lru.OthersDistinct | lru/lru.go:61 | filtering a key out keeps the keys distinct |
| Lru.OthersBytes | lru/lru.go:61-63 | filtering out a present key costs its entry's bytes and one element; filtering out an absent key costs nothing |
| Lru.OthersLaws | lru/lru.go:61 | the combined filter laws, including that the key set loses exactly the key |
| Lru.TouchLaws | lru/lru.go:37-43 | Get on a miss leaves the list unchanged; on a hit it puts the key's entry in front of the other entries in their old order, and keeps the entries, the keys, the byte count and the length |
| Lru.InsertLaws | lru/lru.go:59-69 | before eviction, Add puts the key with its new value in front of the other entries in their old order. A new key adds one element and `len(key) + value.Len()` bytes. An existing key keeps the count and changes the bytes by the new length minus the old |
| Lru.TouchIdempotent | lru/lru.go:37-43 | a second Get of the same key returns the same result and does not reorder again |
| Lru.InsertReplaces | lru/lru.go:60-64 | before eviction, adding a key twice leaves one entry for it, holding the second value (eviction may then remove it) |
| Lru.TotalBytesFront | lru/lru.go:70 | proof helper (one unfolding of `TotalBytes`) for TrimKeepsFront: the front entry's bytes never exceed the list's byte count |
| Lru.TrimEvictsOnlyWhatIsNeeded | lru/lru.go:70 | the loop evicts an element only while the bound is non-zero and exceeded by what would remain |
| Lru.TotalBytesPrefix | lru/lru.go:70-72 | the byte count grows with the prefix kept: no entry is charged a negative size |
| Lru.TrimStopsAtFirstFit | lru/lru.go:70-72 | the loop stops at the longest prefix that fits: a prefix that fits, and that would not fit with one more element, is what the loop leaves |
| Lru.EvictionStep | lru/lru.go:70-72 | one turn of the loop (one RemoveOldest while the bound is exceeded) keeps the loop's invariants: the list stays a prefix, the stop condition holds, and the log is the reversed evicted suffix |
| Lru.EvictionLog | lru/lru.go:53-55 | proof helper for `Cache.Evict`: logging the newly evicted element extends the reversed evicted suffix by one |
| Lru.TrimKeepsFront | lru/lru.go:59-72 | the added key is evicted only if it alone exceeds a non-zero bound, and then the cache ends empty; otherwise it stays at the front |
| Lru.EvictsLeastRecentlyUsed | lru/lru.go:59-72 | for three distinct keys, a non-empty `c` no larger than `a`, and a bound of exactly `a` plus `b`: adding a, b and then c evicts a, the least recently used, and leaves c then b. A larger `c` would also evict `b` |
| Lru.IndexOf | lru/lru.go:10 | definition, no contract of its own: the `cache` map the list determines, each key to the element holding it; IndexOfIndexes and IndexesUnique characterise it |
| Lru.IndexOfIndexes | lru/lru.go:10 | for distinct keys, the map the list determines has exactly the list's keys, each mapped to the element holding it |
| Lru.IndexesUnique | lru/lru.go:67 | that map is the only one with that property |
| Lru.IndexedLookup | lru/lru.go:38 | a key is in the map exactly when it is in the list, and its element holds the value Lookup finds |
| Lru.TouchKeepsIndex | lru/lru.go:39 | Get's promotion keeps the map, the distinct keys and the byte count |
| Lru.InsertKeepsIndex | lru/lru.go:60-68 | Add before eviction keeps the keys distinct. The map gains exactly the key's new entry. The byte count changes by the new minus the old length for a present key, and by `len(key) + value.Len()` for a new one |
| Lru.DropLastKeepsIndex | lru/lru.go:47-52 | evicting the back element keeps the map in step, with its key deleted, and lowers the byte count by its size |
| Lru.Cache.Valid | lru/lru.go:6-12 | the store invariant, with no contract of its own: distinct keys in the list, the map equal to `IndexOf` of the list, `nbytes` equal to `TotalBytes` of the list, and a bound of at least 0; every method of the store requires and ensures it |
| Lru.Cache.New | lru/lru.go:28-35 | a new store is empty (no entries, an empty map, zero bytes, an empty log) and has the given bound and callback |
| Lru.Cache.Len | lru/lru.go:24-26 | the list length equals the number of keys in the map |
| Lru.Cache.Get | lru/lru.go:37-44 | hit if and only if the key is in the map. A hit returns the resident value and promotes the entry (`Touch`). A miss returns the zero value and leaves the list unchanged. Bytes, map and bound are untouched, and the invariant is kept |
| Lru.Cache.RemoveOldest | lru/lru.go:46-57 | an empty store is left unchanged. Otherwise exactly the back element leaves list and map, the byte count drops by its size, and the callback is called once with it if one is installed. The invariant is kept |
| Lru.Cache.Store | lru/lru.go:60-69 | the replace-or-push part of Add: the list becomes `Insert` of the old list, and the invariant is kept |
| Lru.Cache.Evict | lru/lru.go:70-72 | the eviction loop: the list becomes `Trim` of the old list; with a non-zero bound it ends within that bound; the callback sees the evicted suffix back to front |
| Lru.Cache.Add | lru/lru.go:59-73 | the list becomes `Put` of the old list, the byte count ends within a non-zero bound, and the callback log grows by the evicted suffix of `Insert`, back to front (only when a callback is installed) |
| Lru.EvictionScenario | lru/lru.go:28-73 | with a 10-byte bound and a callback, adding "ab" (4 bytes) and then "cd" (10 bytes) leaves only "cd", 10 bytes and one entry, and the callback was called exactly once, with "ab" and its value |
| GeeCache.Cache.Valid | geecache/cache.go:23-25 | the wrapper invariant, no contract of its own: a non-negative bound, and a store, once there, that is valid, has bound `cacheBytes` and no callback (`lru.New(c.cacheBytes, nil)`); GeeCache.Cache.Add and GeeCache.Cache.Get require and ensure it |
| GeeCache.Cache.Contents | geecache/cache.go:32-33 | definition, no contract of its own: the resident entries, none while there is no store; the GeeCache.Cache.Add and GeeCache.Cache.Get contracts are stated with it |
| GeeCache.Cache.constructor | geecache/cache.go:8-12 | the wrapper starts with no store and the given bound |
| GeeCache.Cache.Add | geecache/cache.go:15-27 | creates the store on first use, with bound `cacheBytes` and no callback, and never replaces an existing one. The contents become `Put` of the old contents. `cacheBytes` is unchanged |
| GeeCache.Cache.Get | geecache/cache.go:29-41 | with no store, a miss with the zero value that creates nothing. Otherwise exactly the store's result, including its promotion. `cacheBytes` and the store reference are unchanged |
| GeeCache.FirstWriteScenario | geecache/cache.go:15-41 | two reads before the first write both miss; after writing an entry, reading it back hits with the written value exactly when the entry fits the bound (or the bound is 0) |

## Left out

- The mutex in `cache` (geecache/cache.go:9, 16-17, 30-31) is left out. Operations are modelled as atomic sequential methods.
- `container/list` elements and their pointer identity are modelled as a sequence of entries. The map stores the entry its element holds, not a pointer to the element, so aliasing between map and list is not modelled.
- The Go type assertions `ele.Value.(*entry)` and `v.(ByteView)` are left out. There is one concrete value type.
- `ByteView` is not part of this model. Values are byte sequences whose `Len` is their length, so `Len` is never negative.
- Keys are the bytes of the Go string (`Lru.Key`), so `len(key)` is their length. String literals and character decoding are not modelled.
- `Lru.Zero`, the empty value, stands for both Go's nil `Value` that `lru.Get` returns on a miss and the zero `ByteView` that `get` returns.
- The body of the `OnEvicted` callback is left out. Only its calls are recorded, with key and value, in a ghost log.
- `int64` overflow of `nbytes` is not modelled: byte counts are mathematical integers.
- Lru.Cache.New: requires `maxBytes >= 0` (and so does `GeeCache.Cache.constructor` for `cacheBytes`). With a negative bound the eviction loop of lru/lru.go:70 never ends, even on an empty store.
- GeeCache.Cache.constructor stands in for the struct literal of `cache` that the caller writes. The caller is not part of this model.
- Lru.Cache.Add: the Go loop sits inline in `Add`. The model splits it into `Store` (lines 60-69) and `Evict` (lines 70-72), and `Add` calls both in sequence.
