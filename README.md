# Last-writer-wins in-memory store of the discovery server

This project models `InMemoryStore`, the local store behind the discovery
server's replicated registry. The store holds one entry per key. An entry is a
key, a value, a write timestamp and an optional max-age, and keys are compared by
their bytes. Writes from local clients and from peer replicas go through the same
`put`, which resolves conflicts by timestamp alone. The strictly newer entry wins,
and on a tie the stored entry stays. Replacing an entry calls the single
registered update listener with (old, new), and the replication layer uses that
call to forward the change. `delete(key, timestamp)` removes the stored entry
unless that entry is strictly newer than the delete. An entry without a max-age
is given the store's configured default before it is stored. The sentinel
`Long.MAX_VALUE` means "no default".

Layout:

- `wrappers.dfy`: module `Wrappers`, the `Option` type. `None` stands for Java's `null`.
- `lww.dfy`: module `Lww`. It holds the `Entry` datatype, Java's `long` as the
  subset type `Long`, the helpers `IsNewer` and `Resolve`, and max-age defaulting
  (`WithDefaultMaxAge`). It also holds the effect of a put and of a delete on the
  key-to-entry map (`Merge`, `Remove`), a fold of many puts (`PutAll`) and the
  listener calls that fold makes (`PutAllLog`). The last-writer-wins lemmas are
  here: commutation, idempotence, convergence whatever the delivery order, and
  the missing tombstone.
- `store.dfy`: module `Store`, the class `InMemoryStore`. Its fields are the map
  (`entries`), the default max-age (`maxAgeInMs`), whether a listener is
  registered (`listenerSet`), and a ghost log of the listener's calls
  (`notifications`). Each method is proved to change the map exactly as `Merge`
  or `Remove` says and to log exactly the calls the source makes. Three client
  methods show what callers can conclude.

The source's compare-and-swap retry loops (`while (true)` in `put`,
`while (!done)` in `delete`) only recover from races with other writers. In this
sequential model, `putIfAbsent`, `replace(key, old, new)` and `remove(key, old)`
always find the entry that was just read. So every loop body runs once, and it is
written as straight-line code. The source tests `entry == old` by reference.
The model compares values instead, which gives the same answer: `resolve` returns
the incoming entry only when that entry's timestamp is strictly larger, so it
cannot equal the stored one.

## Model

| member | source | states |
|---|---|---|
| `Lww.IsNewer` | server/src/main/java/com/proofpoint/discovery/store/InMemoryStore.java:128-130 | An entry is newer than a timestamp exactly when its own timestamp is strictly larger. The body goes through `Lww.LongsCompare`, Guava's `Longs.compare`, whose sign is stated for all three cases. |
| `Lww.Resolve` | server/src/main/java/com/proofpoint/discovery/store/InMemoryStore.java:118-130 | The winner is one of the two entries. Its timestamp is at least both timestamps. On a tie or an older incoming entry, the stored entry is kept. |
| `Lww.WithDefaultMaxAge` | server/src/main/java/com/proofpoint/discovery/store/InMemoryStore.java:54-59 | Key, value and timestamp are never changed. An entry that has a max-age, or a store whose default is the `Long.MAX_VALUE` sentinel, keeps the entry as given. Otherwise the max-age becomes the store default. |
| `Lww.Merge` | server/src/main/java/com/proofpoint/discovery/store/InMemoryStore.java:63-80 | After a put, the key is present and no other key is touched. A winning entry is stored. A losing one leaves the map unchanged. The stored timestamp is the max of the old and incoming timestamps. Entries stay filed under their own key. |
| `Lww.Remove` | server/src/main/java/com/proofpoint/discovery/store/InMemoryStore.java:99-108 | After a delete, the key survives only if its entry is strictly newer than the delete. No other key is touched. |
| `Lww.MergeCommutes` | server/src/main/java/com/proofpoint/discovery/store/InMemoryStore.java:63-80 | Two puts to different keys, or at different timestamps, give the same map in either order. |
| `Lww.MergeIdempotent` | server/src/main/java/com/proofpoint/discovery/store/InMemoryStore.java:69-72 | Re-delivering the same put changes nothing. |
| `Lww.TwoWritersConverge` | server/src/main/java/com/proofpoint/discovery/store/InMemoryStore.java:118-126 | Take two writes to one key with distinct timestamps, where the stored entry, if any, is strictly older than the newer write. Either order leaves the newer write. |
| `Lww.StaleWriteAfterDeleteResurrects` | server/src/main/java/com/proofpoint/discovery/store/InMemoryStore.java:92-110 | No tombstone is kept. Take a write not newer than a delete, on a key whose stored entry, if any, is not newer than the delete. The write leaves the key absent if it comes first, and brings the key back if it comes after. So puts and deletes do not commute. |
| `Lww.PutAll` | server/src/main/java/com/proofpoint/discovery/store/InMemoryStore.java:52-81 | A sequence of puts leaves exactly the keys stored before plus the keys written, each filed under its own key. |
| `Lww.PutAllLog` | server/src/main/java/com/proofpoint/discovery/store/InMemoryStore.java:73-77 | The listener calls a sequence of puts makes, in order. Without a listener there are none. In a map whose entries are filed under their own keys, each call pairs an entry with a strictly newer one for the same key. |
| `Lww.PutAllLogLength` | server/src/main/java/com/proofpoint/discovery/store/InMemoryStore.java:73-77 | A sequence of puts calls the listener at most once per write. |
| `Lww.PutAllWinner` | server/src/main/java/com/proofpoint/discovery/store/InMemoryStore.java:63-80 | After a sequence of puts, each key holds the entry stored before or one of the writes to it (with max-age defaulted). Its timestamp is the largest among all of them. |
| `Lww.PutAllOrderIrrelevant` | server/src/main/java/com/proofpoint/discovery/store/InMemoryStore.java:63-80 | Last-writer-wins convergence: if equal key and timestamp imply an equal stored entry, any permutation of the same writes yields the same map. |
| `Lww.ValuesCount` | server/src/main/java/com/proofpoint/discovery/store/InMemoryStore.java:113-116 | In a map whose entries are filed under their own keys, there are as many distinct values as keys. |
| `Store.InMemoryStore.constructor` | server/src/main/java/com/proofpoint/discovery/store/InMemoryStore.java:35-39 | A configured store starts empty, with the given default max-age and no listener. |
| `Store.InMemoryStore.WithoutDefault` | server/src/main/java/com/proofpoint/discovery/store/InMemoryStore.java:41-44 | A store with no default starts empty, with the `Long.MAX_VALUE` sentinel and no listener. |
| `Store.InMemoryStore.SetUpdateListener` | server/src/main/java/com/proofpoint/discovery/store/InMemoryStore.java:46-49 | Registers or clears the single listener. The last call wins, and entries and log stay the same. |
| `Store.InMemoryStore.Put` | server/src/main/java/com/proofpoint/discovery/store/InMemoryStore.java:51-81 | Returns true exactly when the defaulted entry wins: the key was absent or the entry is strictly newer. The map becomes `Merge` of the old map. One (old, new) notification is logged only when an existing entry is replaced and a listener is registered. |
| `Store.InMemoryStore.Get` | server/src/main/java/com/proofpoint/discovery/store/InMemoryStore.java:83-89 | Returns None exactly when the key is absent. Otherwise it returns the stored entry, whose key is the requested key. |
| `Store.InMemoryStore.Delete` | server/src/main/java/com/proofpoint/discovery/store/InMemoryStore.java:91-110 | Returns true exactly when the key was present and its entry is not newer than the delete, and exactly when the key was removed. The map becomes `Remove` of the old map. The listener is never called. |
| `Store.InMemoryStore.GetAll` | server/src/main/java/com/proofpoint/discovery/store/InMemoryStore.java:112-116 | Returns exactly the stored entries, one per stored key. |
| `Store.ListenerSeesReplacementOnly` | server/src/main/java/com/proofpoint/discovery/store/InMemoryStore.java:63-78 | With a listener registered on a fresh store without a default, putting `a` and then a newer `b` for the same key logs exactly one notification, (a, b), and leaves `b` stored. The store stays valid with the listener still registered. |
| `Store.ReadAfterWrite` | server/src/main/java/com/proofpoint/discovery/store/InMemoryStore.java:84-89 | The store stays valid and its map becomes `Merge` of the old map. After a put that reports a change, a get of the key returns the entry with its max-age defaulted. After a put that reports no change, the get returns the entry stored before, which is at least as new. The listener log grows exactly as `Put` says. |
| `Store.PutEach` | server/src/main/java/com/proofpoint/discovery/store/InMemoryStore.java:52-81 | A sequence of `Put` calls leaves the store valid, with the map `PutAll` of the old map. The listener log grows by exactly `PutAllLog` of the old map. This ties the convergence lemma `PutAllOrderIrrelevant` and the listener fold to the class. |

## Left out

- Concurrency. The model does not capture the linearizability of the `ConcurrentHashMap` compare-and-swap loops, races between writers, or the memory visibility of the non-volatile `updateListener` field. The model is sequential.
- The listener's own behaviour (forwarding to peers, possible blocking). The model records only that the listener was called and with which (old, new) pair.
- `updateListener` is modelled as a flag: a registered listener or `null`. The identity of the listener object is not kept.
- A listener that throws or calls back into the store. In the source, `notifyUpdate` runs after `map.replace` has succeeded, so an exception from it escapes `put` with the map already changed. The model's `Put` always returns true with one log entry in that case.
- TTL expiry. The store never purges expired entries, so the max-age is only stored metadata.
- `DiscoveryConfig.getMaxAge().toMillis()`. The configured constructor takes the millisecond value as a parameter. Dependency injection is not modelled.
- `ByteBuffer` internals. Keys and values are byte sequences, compared by content. The `checkNotNull(key)` failures in `get` and `delete` cannot arise, because a Dafny sequence is never null. A null entry passed to `put` cannot arise for the same reason.
- `getAll` returns a live view of the map's values in Java. The model returns the set of values at the time of the call.
- `ReplicatedDynamicStore` is not part of this model. It wraps a JSON codec, a distributed-store facade and service filters whose code is not available. Its own `put` and `delete` always return `true`.
