/**
 * The in-memory store: one map from key bytes to entries, a default max-age fixed
 * at construction, and at most one update listener.
 *
 * The model is sequential. The source's compare-and-swap retry loops exist only to
 * recover from concurrent writers; here the value read from the map is still
 * there when `putIfAbsent`, `replace` or `remove(key, old)` runs, so each loop
 * body runs once and is written as straight-line code. The listener's effect is
 * recorded in the ghost log `notifications`, one (old, new) pair per call.
 */
module Store {
  import opened Wrappers
  import opened Lww

  class InMemoryStore {
    var entries: Table
    const maxAgeInMs: Long
    var listenerSet: bool
    ghost var notifications: seq<(Entry, Entry)>

    ghost predicate Valid()
      reads this
    {
      KeysMatch(entries)
    }

    /** A store whose default max-age comes from configuration, already in milliseconds. */
    constructor (maxAgeInMs: Long)
      ensures Valid()
      ensures entries == map[] && this.maxAgeInMs == maxAgeInMs
      ensures !listenerSet && notifications == []
    {
      entries := map[];
      this.maxAgeInMs := maxAgeInMs;
      listenerSet := false;
      notifications := [];
    }

    /** A store with no default max-age: entries keep whatever max-age they carry. */
    constructor WithoutDefault()
      ensures Valid()
      ensures entries == map[] && maxAgeInMs == LongMax
      ensures !listenerSet && notifications == []
    {
      entries := map[];
      maxAgeInMs := LongMax;
      listenerSet := false;
      notifications := [];
    }

    /** Registers a listener (`registered`) or clears it; the last call wins. */
    method SetUpdateListener(registered: bool)
      modifies this`listenerSet
      ensures listenerSet == registered
    {
      listenerSet := registered;
    }

    /**
     * Stores `entry` unless the entry already stored under its key is at least as
     * new; reports whether the stored entry changed. Replacing an existing entry
     * notifies the listener, if one is registered; a fresh insert does not.
     */
    method Put(entry: Entry) returns (changed: bool)
      requires Valid()
      modifies this`entries, this`notifications
      ensures Valid()
      ensures changed == Wins(old(entries), WithDefaultMaxAge(maxAgeInMs, entry))
      ensures entries == Merge(old(entries), WithDefaultMaxAge(maxAgeInMs, entry))
      ensures notifications == old(notifications) +
        if changed && entry.key in old(entries) && listenerSet
        then [(old(entries)[entry.key], WithDefaultMaxAge(maxAgeInMs, entry))]
        else []
    {
      var e := entry;
      if maxAgeInMs != LongMax && e.maxAgeInMs.None? {
        e := Entry(e.key, e.value, e.timestamp, Some(maxAgeInMs));
      }
      var key := e.key;

      // putIfAbsent
      if key !in entries {
        entries := entries[key := e];
        return true;
      }
      var stored := entries[key];

      e := Resolve(stored, e);
      if e == stored {
        return false;
      }

      // replace(key, stored, e)
      entries := entries[key := e];
      if listenerSet {
        notifications := notifications + [(stored, e)];
      }
      return true;
    }

    /** The entry stored under `key`, or None (Java's null) when there is none. */
    method Get(key: Bytes) returns (r: Option<Entry>)
      requires Valid()
      ensures r.None? <==> key !in entries
      ensures r.Some? ==> r.value == entries[key] && r.value.key == key
    {
      r := if key in entries then Some(entries[key]) else None;
    }

    /**
     * Removes the entry stored under `key` unless it is strictly newer than
     * `timestamp`; reports whether an entry was removed. Never notifies.
     */
    method Delete(key: Bytes, timestamp: Long) returns (removed: bool)
      requires Valid()
      modifies this`entries
      ensures Valid()
      ensures removed <==> key in old(entries) && !IsNewer(old(entries)[key], timestamp)
      ensures removed <==> key in old(entries) && key !in entries
      ensures entries == Remove(old(entries), key, timestamp)
    {
      var stored := if key in entries then Some(entries[key]) else None;
      if stored.None? || IsNewer(stored.value, timestamp) {
        return false;
      }
      // remove(key, stored)
      entries := entries - {key};
      return true;
    }

    /** Every stored entry, each once. */
    method GetAll() returns (all: set<Entry>)
      requires Valid()
      ensures forall e :: e in all <==> e.key in entries && entries[e.key] == e
      ensures |all| == |entries|
    {
      all := entries.Values;
      ValuesCount(entries);
    }
  }

  /**
   * A listener registered before any write sees the replacement of `a` by the
   * newer `b`, once, and nothing for the first insert.
   */
  method ListenerSeesReplacementOnly(a: Entry, b: Entry) returns (s: InMemoryStore)
    requires a.key == b.key && a.timestamp < b.timestamp
    ensures fresh(s) && s.Valid()
    ensures s.listenerSet && s.maxAgeInMs == LongMax
    ensures s.notifications == [(a, b)]
    ensures s.entries == map[a.key := b]
  {
    s := new InMemoryStore.WithoutDefault();
    s.SetUpdateListener(true);
    var first := s.Put(a);
    assert first && s.notifications == [];
    var second := s.Put(b);
    assert second;
  }

  /**
   * Read after write: when a put reports a change, a get of the same key returns
   * the entry as stored, that is with the default max-age filled in; when it
   * reports no change, the get returns the entry that was stored before.
   */
  method ReadAfterWrite(s: InMemoryStore, e: Entry) returns (changed: bool, r: Option<Entry>)
    requires s.Valid()
    modifies s`entries, s`notifications
    ensures s.Valid()
    ensures s.entries == Merge(old(s.entries), WithDefaultMaxAge(s.maxAgeInMs, e))
    ensures changed ==> r == Some(WithDefaultMaxAge(s.maxAgeInMs, e))
    ensures !changed ==> e.key in old(s.entries) && r == Some(old(s.entries)[e.key])
    ensures !changed ==> r.value.timestamp >= e.timestamp
    ensures s.notifications == old(s.notifications) +
      if changed && e.key in old(s.entries) && s.listenerSet
      then [(old(s.entries)[e.key], WithDefaultMaxAge(s.maxAgeInMs, e))]
      else []
  {
    changed := s.Put(e);
    r := s.Get(e.key);
  }

  /**
   * A replica receiving the writes `es` one after the other: the map it ends
   * with is the fold `PutAll`, so `PutAllOrderIrrelevant` applies to the store,
   * and the listener calls it makes are `PutAllLog`.
   */
  method PutEach(s: InMemoryStore, es: seq<Entry>)
    requires s.Valid()
    modifies s`entries, s`notifications
    ensures s.Valid()
    ensures s.entries == PutAll(s.maxAgeInMs, old(s.entries), es)
    ensures s.notifications == old(s.notifications) + PutAllLog(s.maxAgeInMs, old(s.entries), es, s.listenerSet)
  {
    ghost var d, m0, log0, listening := s.maxAgeInMs, s.entries, s.notifications, s.listenerSet;
    ghost var final, total := PutAll(d, m0, es), log0 + PutAllLog(d, m0, es, listening);
    var i := 0;
    assert es[i..] == es;
    while i < |es|
      invariant 0 <= i <= |es|
      invariant s.Valid() && s.listenerSet == listening
      invariant final == PutAll(d, s.entries, es[i..])
      invariant total == s.notifications + PutAllLog(d, s.entries, es[i..], listening)
    {
      ghost var m, log := s.entries, s.notifications;
      var changed := s.Put(es[i]);
      PutEachStep(d, es, i, listening, m, log, s.notifications);
      i := i + 1;
    }
    assert es[i..] == [];
    AppendAssociative(s.notifications, [], []);
  }

  /**
   * One more `Put` in `PutEach`: merging `es[i]` into `m` and appending its
   * listener call to `log` (giving `log'`) moves both folds one write along.
   */
  lemma PutEachStep(d: Long, es: seq<Entry>, i: nat, listening: bool,
                    m: Table, log: seq<(Entry, Entry)>, log': seq<(Entry, Entry)>)
    requires i < |es|
    requires var n := WithDefaultMaxAge(d, es[i]);
      log' == log + if Wins(m, n) && es[i].key in m && listening then [(m[es[i].key], n)] else []
    ensures PutAll(d, m, es[i..]) == PutAll(d, Merge(m, WithDefaultMaxAge(d, es[i])), es[i + 1..])
    ensures log + PutAllLog(d, m, es[i..], listening)
      == log' + PutAllLog(d, Merge(m, WithDefaultMaxAge(d, es[i])), es[i + 1..], listening)
  {
    var n := WithDefaultMaxAge(d, es[i]);
    var step := if listening && n.key in m && IsNewer(n, m[n.key].timestamp) then [(m[n.key], n)] else [];
    var rest := PutAllLog(d, Merge(m, n), es[i + 1..], listening);
    assert es[i..][0] == es[i] && es[i..][1..] == es[i + 1..];
    assert PutAllLog(d, m, es[i..], listening) == step + rest;
    assert log' == log + step;
    AppendAssociative(log, step, rest);
  }

  lemma AppendAssociative<T>(a: seq<T>, b: seq<T>, c: seq<T>)
    ensures a + (b + c) == (a + b) + c
  {
  }
}
