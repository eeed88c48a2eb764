/** The timestamped store that joins read and write (state/rocksdb/timestamped.py, transaction.py). */
module TimestampedStore {
  import opened Wrappers
  import opened KeyEncoding
  import opened WindowStore
  import opened CountCollection

  type Key = seq<Byte>

  /**
   * A store partition with its open transaction: records by message key, then by timestamp and
   * counter. The first timestamp still eligible is remembered only within a transaction: it is
   * written to one column family and looked up in another.
   */
  datatype Side<V> = Side(db: map<Key, map<Span, V>>, cache: map<Key, map<Span, V>>, eligible: map<Key, int>,
                          counter: int)

  function EmptySide<V>(): Side<V> { Side(map[], map[], map[], -1) }

  function At<V>(m: map<Key, map<Span, V>>, key: Key): map<Span, V> {
    if key in m then m[key] else map[]
  }

  /** What the transaction sees under a key: stored records, and its own on top. */
  function Seen<V>(s: Side<V>, key: Key): map<Span, V> { At(s.db, key) + At(s.cache, key) }

  function EligibleAt<V>(s: Side<V>, key: Key): int { if key in s.eligible then s.eligible[key] else 0 }

  /** set_for_timestamp, keeping duplicates. */
  function Put<V>(s: Side<V>, grace: nat, key: Key, ts: int, v: V): Side<V> {
    var counter := s.counter + 1;
    s.(cache := s.cache[key := At(s.cache, key)[Span(ts, counter) := v]],
       eligible := s.eligible[key := Max(EligibleAt(s, key), Max(ts - grace, 0))],
       counter := counter)
  }

  /** get_interval: the values with start <= timestamp < end, by timestamp and then by counter. */
  function GetInterval<V>(s: Side<V>, key: Key, start: int, end: int): seq<V> {
    if Max(start, 0) > end then [] else Collected(Seen(s, key), Max(start, 0), end)
  }

  /** The sweep of another key written in this transaction reaches the stored records of this one. */
  predicate Swept<V>(s: Side<V>, key: Key) {
    exists p :: p in s.cache && Overlaps(p, key)
  }

  predicate Expired<V>(s: Side<V>, key: Key, span: Span) {
    key in s.cache && span.start < EligibleAt(s, key)
  }

  /** What is left of a key when the transaction has been prepared and flushed. */
  function Flushed<V>(s: Side<V>, key: Key): map<Span, V> {
    var kept := if Swept(s, key) then At(s.cache, key) else Seen(s, key);
    map span | span in kept && !Expired(s, key, span) :: kept[span]
  }

  /** prepare and flush, and the next transaction begun. */
  function Commit<V>(s: Side<V>): Side<V> {
    Side(map key | key in s.db.Keys + s.cache.Keys :: Flushed(s, key), map[], map[], s.counter)
  }

  class Store<!V> {
    const grace: nat
    var db: map<Key, map<Span, V>>
    var cache: map<Key, map<Span, V>>
    var eligible: map<Key, int>
    var counter: int

    ghost function Value(): Side<V>
      reads this
    {
      Side(db, cache, eligible, counter)
    }

    constructor (grace: nat)
      ensures Value() == EmptySide() && this.grace == grace
    {
      this.grace := grace;
      db, cache, eligible, counter := map[], map[], map[], -1;
    }

    method SetForTimestamp(key: Key, ts: int, v: V)
      modifies this
      ensures Value() == Put(old(Value()), grace, key, ts, v)
    {
      counter := counter + 1;
      cache := cache[key := At(cache, key)[Span(ts, counter) := v]];
      var before := if key in eligible then eligible[key] else 0;
      eligible := eligible[key := Max(before, Max(ts - grace, 0))];
    }

    method ReadInterval(key: Key, start: int, end: int) returns (r: seq<V>)
      ensures r == GetInterval(Value(), key, start, end)
    {
      var low := Max(start, 0);
      if low > end {
        return [];
      }
      return Collected(At(db, key) + At(cache, key), low, end);
    }

    /** _expire: the keys to delete are gathered first, one written key at a time. */
    method GatherDoomed() returns (cached: set<(Key, Span)>, stored: set<(Key, Span)>)
      ensures forall k, s :: (k, s) in cached <==> k in cache && s in cache[k] && s.start < EligibleAt(Value(), k)
      ensures forall k, s ::
                (k, s) in stored <==> k in db && s in db[k] && exists p :: p in cache && Reaches(Value(), p, k, s)
    {
      cached, stored := {}, {};
      var todo := cache.Keys;
      while todo != {}
        invariant todo <= cache.Keys
        invariant forall k, s ::
                    (k, s) in cached <==> k in cache && k !in todo && s in cache[k] && s.start < EligibleAt(Value(), k)
        invariant forall k, s :: (k, s) in stored <==>
                                   k in db && s in db[k]
                                   && exists p :: p in cache && p !in todo && Reaches(Value(), p, k, s)
        decreases |todo|
      {
        var p :| p in todo;
        var first := if p in eligible then eligible[p] else 0;
        cached := cached + (set s | s in cache[p] && s.start < first :: (p, s));
        stored := stored
                  + (set k, s | k in db && s in db[k] && ((p == k && s.start < first) || Overlaps(p, k)) :: (k, s));
        todo := todo - {p};
      }
    }

    /** prepare and flush: what is not doomed stays, the transaction's own records on top. */
    method Flush()
      modifies this
      ensures Value() == Commit(old(Value()))
    {
      hide Remaining, Commit, EligibleAt, Reaches;
      ghost var was := Value();
      var cached, stored := GatherDoomed();
      CommitIs(was, cached, stored);
      db := AllRemaining(db, cache, cached, stored);
      cache, eligible := map[], map[];
    }
  }

  function Remaining<V>(db: map<Key, map<Span, V>>, cache: map<Key, map<Span, V>>, cached: set<(Key, Span)>,
                        stored: set<(Key, Span)>, key: Key): map<Span, V> {
    (map s | s in At(db, key) && (key, s) !in stored && (key, s) !in cached :: At(db, key)[s]) +
    (map s | s in At(cache, key) && (key, s) !in cached :: At(cache, key)[s])
  }

  function AllRemaining<V>(db: map<Key, map<Span, V>>, cache: map<Key, map<Span, V>>, cached: set<(Key, Span)>,
                           stored: set<(Key, Span)>): map<Key, map<Span, V>> {
    map k | k in db.Keys + cache.Keys :: Remaining(db, cache, cached, stored, k)
  }

  lemma CommitIs<V>(side: Side<V>, cached: set<(Key, Span)>, stored: set<(Key, Span)>)
    requires forall k, s :: (k, s) in cached <==> k in side.cache && s in side.cache[k] && s.start < EligibleAt(side, k)
    requires forall k, s ::
               (k, s) in stored <==>
                  k in side.db && s in side.db[k] && exists p :: p in side.cache && Reaches(side, p, k, s)
    ensures Commit(side) == Side(AllRemaining(side.db, side.cache, cached, stored), map[], map[], side.counter)
  {
    hide Remaining, Flushed, Reaches;
    forall k ensures Remaining(side.db, side.cache, cached, stored, k) == Flushed(side, k) {
      RemainingIs(side, cached, stored, k);
    }
  }

  lemma RemainingIs<V>(side: Side<V>, cached: set<(Key, Span)>, stored: set<(Key, Span)>, key: Key)
    requires forall k, s :: (k, s) in cached <==> k in side.cache && s in side.cache[k] && s.start < EligibleAt(side, k)
    requires forall k, s ::
               (k, s) in stored <==>
                  k in side.db && s in side.db[k] && exists p :: p in side.cache && Reaches(side, p, k, s)
    ensures Remaining(side.db, side.cache, cached, stored, key) == Flushed(side, key)
  {
    hide Overlaps;
    forall s ensures s in Remaining(side.db, side.cache, cached, stored, key) <==> s in Flushed(side, key) {
      assert (key, s) in stored
             <==> key in side.db && s in side.db[key] && exists p :: p in side.cache && Reaches(side, p, key, s);
      assert (key, s) in cached <==> key in side.cache && s in side.cache[key] && s.start < EligibleAt(side, key);
      ReachesIff(side, key, s);
    }
  }

  lemma ReachesIff<V>(side: Side<V>, key: Key, s: Span)
    ensures (exists p :: p in side.cache && Reaches(side, p, key, s)) <==> Swept(side, key) || Expired(side, key, s)
  {
    hide Overlaps;
    if Expired(side, key, s) {
      assert Reaches(side, key, key, s);
    }
    if Swept(side, key) {
      var p :| p in side.cache && Overlaps(p, key);
      assert Reaches(side, p, key, s);
    }
  }

  /** A transaction's writes, one after the other. */
  function PutAll<V>(s: Side<V>, grace: nat, puts: seq<(Key, int, V)>): Side<V> {
    if puts == [] then s else
      var last := puts[|puts| - 1];
      Put(PutAll(s, grace, puts[..|puts| - 1]), grace, last.0, last.1, last.2)
  }

  /** t lies within grace of every write under the key, in whatever order they came. */
  ghost predicate WithinAll<V>(grace: nat, puts: seq<(Key, int, V)>, key: Key, t: int) {
    forall i :: 0 <= i < |puts| && puts[i].0 == key ==> puts[i].1 - grace <= t
  }

  lemma WithinSnoc<V>(grace: nat, puts: seq<(Key, int, V)>, key: Key, t: int)
    requires puts != []
    ensures var last := puts[|puts| - 1];
            WithinAll(grace, puts, key, t)
            <==> WithinAll(grace, puts[..|puts| - 1], key, t) && (last.0 == key ==> last.1 - grace <= t)
  {
  }

  /** The first eligible timestamp is the largest over the writes, and at least 0. */
  lemma {:induction false} EligibleIs<V>(s: Side<V>, grace: nat, puts: seq<(Key, int, V)>, key: Key, t: int)
    requires s.eligible == map[] && s.cache == map[]
    ensures EligibleAt(PutAll(s, grace, puts), key) >= 0
    ensures (t >= EligibleAt(PutAll(s, grace, puts), key)) <==> t >= 0 && WithinAll(grace, puts, key, t)
    ensures key in PutAll(s, grace, puts).cache <==> exists i :: 0 <= i < |puts| && puts[i].0 == key
  {
    if puts != [] {
      hide WithinAll;
      EligibleIs(s, grace, puts[..|puts| - 1], key, t);
      WithinSnoc(grace, puts, key, t);
    } else {
      assert WithinAll(grace, puts, key, t);
    }
  }

  /**
   * A whole transaction: under a written key that no other written key's sweep reaches, exactly the
   * records within grace of all its writes outlive the commit, whether stored before or by it; under
   * a key not written, all do.
   */
  lemma KeptIff<V>(s: Side<V>, grace: nat, puts: seq<(Key, int, V)>, key: Key, span: Span)
    requires s.eligible == map[] && s.cache == map[] && !Swept(PutAll(s, grace, puts), key)
    requires span in Seen(PutAll(s, grace, puts), key)
    ensures
      span in Seen(Commit(PutAll(s, grace, puts)), key)
      <==> (forall i :: 0 <= i < |puts| ==> puts[i].0 != key)
           || (span.start >= 0 && WithinAll(grace, puts, key, span.start))
  {
    EligibleIs(s, grace, puts, key, span.start);
    hide PutAll, WithinAll, EligibleAt, Swept;
    var all := PutAll(s, grace, puts);
    assert span in Seen(Commit(all), key) <==> !Expired(all, key, span);
  }

  /** Keys and times as the byte encoding takes them. */
  ghost predicate Encodable<V>(s: Side<V>, key: Key, span: Span) {
    && Plain(key) && 0 <= span.start < UINT64 && 0 <= span.end < UINT64
    && forall p :: p in s.cache ==> Plain(p) && 0 <= EligibleAt(s, p) < UINT64
  }

  /**
   * The commit against the bytes: a stored record goes exactly when its key lies in the range swept
   * for some written key, from that key's bare bytes up to its first eligible timestamp.
   */
  lemma CommitSweeps<V>(s: Side<V>, key: Key, span: Span)
    requires Encodable(s, key, span) && span in At(s.db, key) && span !in At(s.cache, key)
    ensures span in Seen(Commit(s), key) <==>
            forall p :: p in s.cache ==>
                          !(AtMost(p, RecordKey(key, span.start, span.end))
                            && Less(RecordKey(key, span.start, span.end), Bound(p, EligibleAt(s, p))))
  {
    hide Less, AtMost, RecordKey, Bound, Overlaps;
    assert span in Seen(Commit(s), key) <==> !Swept(s, key) && !Expired(s, key, span);
    forall p | p in s.cache
      ensures AtMost(p, RecordKey(key, span.start, span.end))
              && Less(RecordKey(key, span.start, span.end), Bound(p, EligibleAt(s, p)))
              <==> Reaches(s, p, key, span)
    {
      SweepExact(p, key, EligibleAt(s, p), span.start, span.end);
    }
    ReachesIff(s, key, span);
  }

  /** A record of the transaction itself goes exactly when its key lies below its own first eligible timestamp. */
  lemma CommitDropsOwn<V>(s: Side<V>, key: Key, span: Span)
    requires Encodable(s, key, span) && span in At(s.cache, key)
    ensures span in Seen(Commit(s), key)
            <==> !Less(RecordKey(key, span.start, span.end), Bound(key, EligibleAt(s, key)))
  {
    hide Less, RecordKey, Bound, Overlaps;
    OwnBound(key, EligibleAt(s, key), span.start, span.end);
  }

  /** A stored record the sweep of key p takes: p's own once expired, or any record of a key it overlaps. */
  predicate Reaches<V>(s: Side<V>, p: Key, key: Key, span: Span) {
    (p == key && span.start < EligibleAt(s, p)) || Overlaps(p, key)
  }
}
