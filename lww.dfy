/**
 * Entries of the in-memory store and its last-writer-wins rules, stated on values.
 *
 * The store keeps at most one entry per key. A write is resolved against the
 * stored entry by timestamp alone: the strictly newer entry wins, and on a tie the
 * stored entry stays. A delete carries a timestamp and removes the stored entry
 * unless that entry is strictly newer. The class in module Store is proved to
 * change its map exactly as `Merge` and `Remove` below say.
 */
module Lww {
  import opened Wrappers

  const LongMin: int := -0x8000_0000_0000_0000
  const LongMax: int := 0x7fff_ffff_ffff_ffff

  /** Java's `long`. Timestamps and max-ages are only compared, never added. */
  type Long = x: int | LongMin <= x <= LongMax

  /** Raw key and value bytes; keys are compared by content. */
  type Bytes = seq<bv8>

  /** One stored record; `maxAgeInMs == None` means "use the store's default". */
  datatype Entry = Entry(key: Bytes, value: Bytes, timestamp: Long, maxAgeInMs: Option<Long>)

  /** The store's map from key bytes to the entry filed under them. */
  type Table = map<Bytes, Entry>

  function Max(x: int, y: int): (r: int) { if x < y then y else x }

  /** Every entry is filed under its own key. */
  ghost predicate KeysMatch(m: Table)
  {
    forall k :: k in m ==> m[k].key == k
  }

  /** Guava's `Longs.compare`: negative, zero or positive as `x` is below, equal to or above `y`. */
  function LongsCompare(x: Long, y: Long): (c: int)
    ensures c < 0 <==> x < y
    ensures c == 0 <==> x == y
    ensures c > 0 <==> x > y
  {
    if x < y then -1 else if x > y then 1 else 0
  }

  /** `e` is strictly newer than `timestamp`. */
  function IsNewer(e: Entry, timestamp: Long): (newer: bool)
    ensures newer <==> e.timestamp > timestamp
  {
    LongsCompare(e.timestamp, timestamp) > 0
  }

  /** Conflict resolution between the stored entry `a` and the incoming entry `b`. */
  function Resolve(a: Entry, b: Entry): (w: Entry)
    ensures w == a || w == b
    ensures w.timestamp >= a.timestamp && w.timestamp >= b.timestamp
    ensures b.timestamp <= a.timestamp ==> w == a
  {
    if IsNewer(b, a.timestamp) then b else a
  }

  /**
   * The entry a put actually stores: an entry without a max-age gets the store's
   * default, unless the default is the sentinel `LongMax` ("no default").
   */
  function WithDefaultMaxAge(defaultMaxAge: Long, e: Entry): (n: Entry)
    ensures n.key == e.key && n.value == e.value && n.timestamp == e.timestamp
    ensures e.maxAgeInMs.Some? ==> n == e
    ensures defaultMaxAge == LongMax ==> n == e
    ensures defaultMaxAge != LongMax && e.maxAgeInMs.None? ==> n.maxAgeInMs == Some(defaultMaxAge)
  {
    if defaultMaxAge != LongMax && e.maxAgeInMs.None? then
      Entry(e.key, e.value, e.timestamp, Some(defaultMaxAge))
    else
      e
  }

  /** A put of `e` (already given its max-age) changes what is stored under its key. */
  predicate Wins(m: Table, e: Entry)
  {
    e.key !in m || IsNewer(e, m[e.key].timestamp)
  }

  /** The table after a put of `e` (already given its max-age). */
  function Merge(m: Table, e: Entry): (r: Table)
    ensures r.Keys == m.Keys + {e.key}
    ensures forall k :: k in m && k != e.key ==> r[k] == m[k]
    ensures Wins(m, e) ==> r[e.key] == e
    ensures !Wins(m, e) ==> r == m
    ensures r[e.key].timestamp == if e.key in m then Max(m[e.key].timestamp, e.timestamp) else e.timestamp
    ensures KeysMatch(m) ==> KeysMatch(r)
  {
    if e.key !in m then m[e.key := e]
    else
      var w := Resolve(m[e.key], e);
      if w == m[e.key] then m else m[e.key := w]
  }

  /** The table after a delete of `key` at `timestamp`. */
  function Remove(m: Table, key: Bytes, timestamp: Long): (r: Table)
    ensures key in r <==> key in m && IsNewer(m[key], timestamp)
    ensures m.Keys - {key} <= r.Keys <= m.Keys
    ensures forall k :: k in r ==> r[k] == m[k]
    ensures KeysMatch(m) ==> KeysMatch(r)
  {
    if key in m && !IsNewer(m[key], timestamp) then m - {key} else m
  }

  /** Two puts commute unless they write the same key at the same timestamp. */
  lemma MergeCommutes(m: Table, a: Entry, b: Entry)
    requires a.key != b.key || a.timestamp != b.timestamp
    ensures Merge(Merge(m, a), b) == Merge(Merge(m, b), a)
  {
  }

  /** Repeating a put changes nothing. */
  lemma MergeIdempotent(m: Table, e: Entry)
    ensures Merge(Merge(m, e), e) == Merge(m, e)
  {
  }

  /**
   * Two writers on one key with distinct timestamps: either order leaves the
   * entry with the larger timestamp, provided the stored entry, if any, is
   * strictly older than the newer write.
   */
  lemma TwoWritersConverge(m: Table, a: Entry, b: Entry)
    requires a.key == b.key && a.timestamp < b.timestamp
    requires a.key !in m || m[a.key].timestamp < b.timestamp
    ensures Merge(Merge(m, a), b)[a.key] == b
    ensures Merge(Merge(m, b), a)[a.key] == b
  {
  }

  /**
   * No tombstone is kept. Take a write not newer than a delete, on a key whose
   * stored entry, if any, is not newer than the delete either. The delete
   * followed by the write brings the key back, while the write followed by the
   * delete leaves the key absent.
   */
  lemma StaleWriteAfterDeleteResurrects(m: Table, e: Entry, timestamp: Long)
    requires e.timestamp <= timestamp
    requires e.key !in m || m[e.key].timestamp <= timestamp
    ensures e.key !in Remove(Merge(m, e), e.key, timestamp)
    ensures Merge(Remove(m, e.key, timestamp), e)[e.key] == e
  {
  }

  /** The table after puts of every entry of `es` in order, as a store with the given default max-age performs them. */
  function PutAll(defaultMaxAge: Long, m: Table, es: seq<Entry>): (r: Table)
    ensures r.Keys == m.Keys + (set e | e in es :: e.key)
    ensures KeysMatch(m) ==> KeysMatch(r)
    decreases |es|
  {
    if es == [] then m
    else PutAll(defaultMaxAge, Merge(m, WithDefaultMaxAge(defaultMaxAge, es[0])), es[1..])
  }

  /**
   * The listener calls a sequence of puts makes: one (old, new) pair for each
   * put that replaces an existing entry, and none at all without a listener.
   */
  function PutAllLog(defaultMaxAge: Long, m: Table, es: seq<Entry>, listening: bool): (r: seq<(Entry, Entry)>)
    ensures !listening ==> r == []
    ensures KeysMatch(m) ==> forall i :: 0 <= i < |r| ==> r[i].0.key == r[i].1.key && r[i].0.timestamp < r[i].1.timestamp
    decreases |es|
  {
    if es == [] then []
    else
      var n := WithDefaultMaxAge(defaultMaxAge, es[0]);
      (if listening && n.key in m && IsNewer(n, m[n.key].timestamp) then [(m[n.key], n)] else [])
      + PutAllLog(defaultMaxAge, Merge(m, n), es[1..], listening)
  }

  /** A sequence of puts calls the listener at most once per write. */
  lemma {:induction false} PutAllLogLength(defaultMaxAge: Long, m: Table, es: seq<Entry>, listening: bool)
    ensures |PutAllLog(defaultMaxAge, m, es, listening)| <= |es|
    decreases |es|
  {
    if es != [] {
      var n := WithDefaultMaxAge(defaultMaxAge, es[0]);
      PutAllLogLength(defaultMaxAge, Merge(m, n), es[1..], listening);
    }
  }

  /** `c` is an entry that may end up stored under `k`: the one stored before, or one of the writes. */
  ghost predicate IsCandidate(defaultMaxAge: Long, m: Table, es: seq<Entry>, k: Bytes, c: Entry)
  {
    (k in m && c == m[k]) || exists e :: e in es && e.key == k && c == WithDefaultMaxAge(defaultMaxAge, e)
  }

  /** After a sequence of puts, each key holds a candidate whose timestamp is the largest among all candidates. */
  lemma {:induction false} PutAllWinner(defaultMaxAge: Long, m: Table, es: seq<Entry>, k: Bytes)
    requires k in PutAll(defaultMaxAge, m, es)
    ensures IsCandidate(defaultMaxAge, m, es, k, PutAll(defaultMaxAge, m, es)[k])
    ensures k in m ==> m[k].timestamp <= PutAll(defaultMaxAge, m, es)[k].timestamp
    ensures forall e :: e in es && e.key == k ==> e.timestamp <= PutAll(defaultMaxAge, m, es)[k].timestamp
    decreases |es|
  {
    if es != [] {
      var n := WithDefaultMaxAge(defaultMaxAge, es[0]);
      var m' := Merge(m, n);
      var r := PutAll(defaultMaxAge, m', es[1..]);
      assert r == PutAll(defaultMaxAge, m, es);
      PutAllWinner(defaultMaxAge, m', es[1..], k);
      // What m' holds under k came from m or from the first write.
      if k in m' {
        assert m'[k] == n || (k in m && m'[k] == m[k]);
        assert k in m ==> m[k].timestamp <= m'[k].timestamp;
        assert es[0].key == k ==> es[0].timestamp <= m'[k].timestamp;
      }
      if IsCandidate(defaultMaxAge, m', es[1..], k, r[k]) {
        if k in m' && r[k] == m'[k] {
          if m'[k] == n {
            assert es[0] in es;
          }
        } else {
          var e :| e in es[1..] && e.key == k && r[k] == WithDefaultMaxAge(defaultMaxAge, e);
          assert e in es;
        }
      }
      forall e | e in es && e.key == k
        ensures e.timestamp <= r[k].timestamp
      {
        if e != es[0] {
          assert e in es[1..];
        }
      }
    }
  }

  /**
   * Same key and same timestamp means same stored entry, among the entry stored
   * before and the writes (after each write is given its max-age).
   */
  ghost predicate TimestampsDistinguish(defaultMaxAge: Long, m: Table, es: seq<Entry>)
  {
    && (forall e1, e2 :: e1 in es && e2 in es && e1.key == e2.key && e1.timestamp == e2.timestamp ==>
          WithDefaultMaxAge(defaultMaxAge, e1) == WithDefaultMaxAge(defaultMaxAge, e2))
    && (forall e :: e in es && e.key in m && e.timestamp == m[e.key].timestamp ==>
          WithDefaultMaxAge(defaultMaxAge, e) == m[e.key])
  }

  /**
   * Last-writer-wins convergence: when timestamps tell the writes to one key
   * apart, the order in which a replica receives them does not matter.
   */
  lemma {:induction false} PutAllOrderIrrelevant(defaultMaxAge: Long, m: Table, es1: seq<Entry>, es2: seq<Entry>)
    requires KeysMatch(m)
    requires multiset(es1) == multiset(es2)
    requires TimestampsDistinguish(defaultMaxAge, m, es1)
    ensures PutAll(defaultMaxAge, m, es1) == PutAll(defaultMaxAge, m, es2)
  {
    var r1, r2 := PutAll(defaultMaxAge, m, es1), PutAll(defaultMaxAge, m, es2);
    WrittenKeysAgree(es1, es2);
    assert r1.Keys == r2.Keys;
    forall k | k in r1
      ensures r1[k] == r2[k]
    {
      SameWinner(defaultMaxAge, m, es1, es2, k);
    }
  }

  /** Helper: writes that are a permutation of each other touch the same keys. */
  lemma WrittenKeysAgree(es1: seq<Entry>, es2: seq<Entry>)
    requires multiset(es1) == multiset(es2)
    ensures (set e | e in es1 :: e.key) == (set e | e in es2 :: e.key)
  {
    forall e | e in es1 ensures e in es2 {
      assert e in multiset(es1);
    }
    forall e | e in es2 ensures e in es1 {
      assert e in multiset(es2);
    }
  }

  /** Helper: one key of the convergence proof. */
  lemma SameWinner(defaultMaxAge: Long, m: Table, es1: seq<Entry>, es2: seq<Entry>, k: Bytes)
    requires KeysMatch(m)
    requires multiset(es1) == multiset(es2)
    requires TimestampsDistinguish(defaultMaxAge, m, es1)
    requires k in PutAll(defaultMaxAge, m, es1) && k in PutAll(defaultMaxAge, m, es2)
    ensures PutAll(defaultMaxAge, m, es1)[k] == PutAll(defaultMaxAge, m, es2)[k]
  {
    var c1, c2 := PutAll(defaultMaxAge, m, es1)[k], PutAll(defaultMaxAge, m, es2)[k];
    PutAllWinner(defaultMaxAge, m, es1, k);
    PutAllWinner(defaultMaxAge, m, es2, k);
    SameCandidates(defaultMaxAge, m, es1, es2, k, c2);
    SameCandidates(defaultMaxAge, m, es2, es1, k, c1);
    CandidateBelowWinner(defaultMaxAge, m, es1, k, c2);
    CandidateBelowWinner(defaultMaxAge, m, es2, k, c1);
    CandidatesWithEqualTimestamps(defaultMaxAge, m, es1, k, c1, c2);
  }

  /** Helper: writes that are a permutation of each other offer the same candidates. */
  lemma SameCandidates(defaultMaxAge: Long, m: Table, es1: seq<Entry>, es2: seq<Entry>, k: Bytes, c: Entry)
    requires multiset(es1) == multiset(es2)
    requires IsCandidate(defaultMaxAge, m, es2, k, c)
    ensures IsCandidate(defaultMaxAge, m, es1, k, c)
  {
    if !(k in m && c == m[k]) {
      var e :| e in es2 && e.key == k && c == WithDefaultMaxAge(defaultMaxAge, e);
      assert e in multiset(es2);
      assert e in es1;
    }
  }

  /** Helper: a candidate's timestamp is at most the winner's. */
  lemma CandidateBelowWinner(defaultMaxAge: Long, m: Table, es: seq<Entry>, k: Bytes, c: Entry)
    requires k in PutAll(defaultMaxAge, m, es)
    requires IsCandidate(defaultMaxAge, m, es, k, c)
    ensures c.timestamp <= PutAll(defaultMaxAge, m, es)[k].timestamp
  {
    PutAllWinner(defaultMaxAge, m, es, k);
  }

  /** Helper: two candidates for one key with the same timestamp are the same entry. */
  lemma CandidatesWithEqualTimestamps(defaultMaxAge: Long, m: Table, es: seq<Entry>, k: Bytes, c1: Entry, c2: Entry)
    requires KeysMatch(m)
    requires TimestampsDistinguish(defaultMaxAge, m, es)
    requires IsCandidate(defaultMaxAge, m, es, k, c1) && IsCandidate(defaultMaxAge, m, es, k, c2)
    requires c1.timestamp == c2.timestamp
    ensures c1 == c2
  {
  }

  /** Each entry of a well-filed table is a distinct value, so it has as many values as keys. */
  lemma {:induction false} ValuesCount(m: Table)
    requires KeysMatch(m)
    ensures |m.Values| == |m|
    decreases |m|
  {
    if m != map[] {
      var k :| k in m;
      var m' := m - {k};
      ValuesCount(m');
      forall v | v in m.Values ensures v in m'.Values + {m[k]} {
        var k2 :| k2 in m && m[k2] == v;
        if k2 != k { assert k2 in m'; }
      }
      assert m.Values == m'.Values + {m[k]};
      assert m[k] !in m'.Values;
    }
  }
}
