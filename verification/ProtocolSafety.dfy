/** In every run, with crashes at any point, the application works on the fold of the committed input. */
module ProtocolSafety {
  import opened Wrappers
  import opened Protocol
  import opened ProtocolFold

  /** A changelog record says what its batch of records did to its key. */
  ghost predicate RecordOk<X, V>(p: Program<X, V>, r: LogRecord<V>) {
    && r.batchStart < r.batchEnd <= |p.input|
    && r.processed == Processed(p.input, r.batchStart, r.batchEnd)
    && r.key in WritesOf(p, r.batchStart, r.batchEnd)
    && r.value == Get(Fold(p, r.batchEnd), r.key)
  }

  /** Record j carries the write of input record q, and every later record of its key comes from a later batch. */
  ghost predicate Carries<V>(log: seq<LogRecord<V>>, j: int, k: Key, q: nat, done: nat) {
    && 0 <= j < |log| && log[j].key == k && log[j].batchStart <= q < log[j].batchEnd <= done
    && forall i :: j < i < |log| && log[i].key == k ==> log[i].batchStart >= log[j].batchEnd
  }

  /** One changelog: records are truthful, start from committed positions, and cover every committed write. */
  ghost predicate LogOk<X, V>(p: Program<X, V>, t: string, log: seq<LogRecord<V>>, done: nat)
    requires done <= |p.input|
  {
    && (forall i :: 0 <= i < |log| ==> RecordOk(p, log[i]) && log[i].key.store == t && log[i].batchStart <= done)
    && (forall q: nat, k: Key :: q < done && k.store == t && Touches(p, q, k) ==>
            exists j :: Carries(log, j, k, q, done))
  }

  /** The key's committed value is still ahead in the changelog. */
  ghost predicate Ahead<V>(log: seq<LogRecord<V>>, offset: int, done: nat, k: Key) {
    exists i :: offset < i < |log| && 0 <= i && log[i].key == k && log[i].batchEnd <= done
  }

  /** The store on disk: each key is up to date, or will be once the rest of the changelog is replayed. */
  ghost predicate DiskOk<X, V>(p: Program<X, V>, s: System<V>)
    requires Wired(s, p.stores) && s.done <= |p.input|
  {
    forall k: Key :: k.store in p.stores ==>
                       Get(s.data, k) == Get(Fold(p, s.done), k)
                       || Ahead(s.logs[k.store], s.offsets[k.store], s.done, k)
  }

  /** Every stored key belongs to a registered store. */
  ghost predicate Registered<V>(data: map<Key, V>, stores: set<string>) {
    forall k :: k in data ==> k.store in stores
  }

  /** The record of k produced by the current batch, with no later record of k. */
  ghost predicate Produced<V>(log: seq<LogRecord<V>>, offset: int, k: Key, from: nat, upTo: nat) {
    exists j :: && offset < j < |log| && 0 <= j && log[j].key == k && log[j].batchStart == from
        && log[j].batchEnd == upTo
                && forall i :: j < i < |log| ==> log[i].key != k
  }

  ghost predicate AppOk<X, V>(p: Program<X, V>, s: System<V>)
    requires Wired(s, p.stores) && s.done <= |p.input|
  {
    match s.app
    case Down => true
    case Recovering(positions, highwaters) =>
      && positions.Keys <= highwaters.Keys <= p.stores
      && (forall t :: t in positions ==>
                        0 <= positions[t] <= highwaters[t] == |s.logs[t]|
                        && (positions[t] <= s.offsets[t] + 1 || positions[t] == 0)
                        && (positions[t] == highwaters[t] ==> s.offsets[t] == highwaters[t] - 1))
      && (forall t :: t in p.stores && t !in positions ==> s.logs[t] == [] || s.offsets[t] >= |s.logs[t]| - 1)
    case Processing(cache, tpOffsets, next) =>
      && s.done <= next <= |p.input| && s.data == Fold(p, s.done)
      && cache == WritesOf(p, s.done, next) && tpOffsets == Processed(p.input, s.done, next)
    case Producing(cache, tpOffsets, next, remaining) =>
      && s.done < next <= |p.input| && s.data == Fold(p, s.done)
      && cache == WritesOf(p, s.done, next) && tpOffsets == Processed(p.input, s.done, next)
      && remaining <= cache.Keys
      && (forall k :: k in cache && k !in remaining ==>
              k.store in p.stores && Produced(s.logs[k.store], s.offsets[k.store], k, s.done, next))
    case Flushing(cache, next, pending) =>
      && next == s.done && pending <= p.stores
      && (forall k :: k in cache ==> k.store in p.stores && cache[k] == Get(Fold(p, s.done), k))
      && (forall k :: k in cache ==> s.logs[k.store] != [])
      && (forall k: Key :: k !in cache || k.store !in pending ==> Get(s.data, k) == Get(Fold(p, s.done), k))
  }

  ghost predicate Inv<X(!new), V(!new)>(p: Program<X, V>, s: System<V>) {
    && WellFormed(p) && Wired(s, p.stores) && s.done <= |p.input|
    && s.committed == Committed(p.input, s.done)
    && (forall t :: t in p.stores ==>
            LogOk(p, t, s.logs[t], s.done) && -2 <= s.offsets[t] && (s.offsets[t] < |s.logs[t]| || s.offsets[t] < 0))
    && Registered(s.data, p.stores)
    && DiskOk(p, s) && AppOk(p, s)
  }

  /** Replay: the last record of a key that the filter lets through carries the key's committed value. */
  lemma LastWins<X, V>(p: Program<X, V>, t: string, log: seq<LogRecord<V>>, done: nat, i: int)
    requires done <= |p.input| && LogOk(p, t, log, done)
    requires 0 <= i < |log| && log[i].batchEnd <= done
    requires forall j :: i < j < |log| && log[j].key == log[i].key ==> log[j].batchEnd > done
    ensures log[i].value == Get(Fold(p, done), log[i].key)
  {
    hide Fold, Processed;
    var k := log[i].key;
    assert RecordOk(p, log[i]);
    forall q: nat | q < done && Touches(p, q, k) ensures q < log[i].batchEnd {
      var j :| Carries(log, j, k, q, done);
    }
    Untouched(p, log[i].batchEnd, done, k);
  }

  /** Replaying record n of a store settles its key or leaves its value ahead. */
  lemma ReplayKey<X, V>(p: Program<X, V>, t: string, log: seq<LogRecord<V>>, done: nat, n: nat, offset: int,
                        data: map<Key, V>, data1: map<Key, V>, k: Key)
    requires done <= |p.input| && LogOk(p, t, log, done) && n < |log| && (n <= offset + 1 || n == 0) && k.store == t
    requires Get(data, k) == Get(Fold(p, done), k) || Ahead(log, offset, done, k)
    requires data1 == if log[n].batchEnd <= done then Put(data, log[n].key, log[n].value) else data
    ensures Get(data1, k) == Get(Fold(p, done), k) || Ahead(log, n, done, k)
  {
    hide Fold, Processed, WritesOf, RecordOk;
    if !Ahead(log, n, done, k) {
      if k == log[n].key && log[n].batchEnd <= done {
        LastWins(p, t, log, done, n);
      } else if Ahead(log, offset, done, k) {
        var i :| offset < i < |log| && 0 <= i && log[i].key == k && log[i].batchEnd <= done;
        assert false;
      }
    }
  }

  /** Replaying one record under the filter keeps the store recoverable. */
  lemma ReplayDisk<X(!new), V(!new)>(p: Program<X, V>, s: System<V>, t: string, n: nat)
    requires Inv(p, s) && t in p.stores && n < |s.logs[t]| && (n <= s.offsets[t] + 1 || n == 0)
    ensures DiskOk(p, RecoverRecord(s, t, n)) && Registered(RecoverRecord(s, t, n).data, p.stores)
  {
    hide Fold, Processed, WritesOf, Ahead, WellFormed, AppOk, ShouldApply, Put, Get;
    var r, log := s.logs[t][n], s.logs[t];
    var s1 := RecoverRecord(s, t, n);
    RecordFacts(p, s, t, n);
    forall k: Key | k.store in p.stores
      ensures Get(s1.data, k) == Get(Fold(p, s.done), k) || Ahead(s1.logs[k.store], s1.offsets[k.store], s1.done, k)
    {
      if k.store == t {
        ReplayKey(p, t, log, s.done, n, s.offsets[t], s.data, s1.data, k);
      } else {
        PutOther(s.data, r.key, r.value, k);
      }
    }
    PutRegistered(s.data, r.key, r.value, p.stores);
  }

  lemma PutOther<V>(data: map<Key, V>, k: Key, v: Option<V>, other: Key)
    requires other != k
    ensures Get(Put(data, k, v), other) == Get(data, other)
  {
  }

  lemma PutRegistered<V>(data: map<Key, V>, k: Key, v: Option<V>, stores: set<string>)
    requires Registered(data, stores) && k.store in stores
    ensures Registered(Put(data, k, v), stores)
  {
  }

  /** The filter lets a changelog record through exactly when its whole batch is committed. */
  lemma RecordFacts<X(!new), V(!new)>(p: Program<X, V>, s: System<V>, t: string, n: nat)
    requires Inv(p, s) && t in p.stores && n < |s.logs[t]|
    ensures ShouldApply(s.committed, s.logs[t][n].processed) <==> s.logs[t][n].batchEnd <= s.done
    ensures s.logs[t][n].key.store == t
  {
    hide Fold, Processed, WritesOf, DiskOk, AppOk, Committed, ShouldApply, Carries;
    var r := s.logs[t][n];
    assert RecordOk(p, r);
    FilterIff(p.input, s.done, r.batchStart, r.batchEnd);
  }

  lemma AssignOk<X(!new), V(!new)>(p: Program<X, V>, s: System<V>)
    requires Inv(p, s) && s.app.Down?
    ensures Inv(p, AssignStep(s)) && AssignStep(s).app.Recovering?
  {
    hide Fold, Processed, WritesOf, DiskOk, LogOk, WellFormed;
    DiskSame(p, s, AssignStep(s));
  }

  /** The disk condition does not depend on the running application. */
  lemma DiskSame<X, V>(p: Program<X, V>, s: System<V>, s1: System<V>)
    requires Wired(s, p.stores) && s.done <= |p.input| && s1 == s.(app := s1.app)
    ensures DiskOk(p, s) <==> DiskOk(p, s1)
  {
  }

  lemma RecoverOk<X(!new), V(!new)>(p: Program<X, V>, s: System<V>, t: string)
    requires Inv(p, s)
    ensures Inv(p, Step(p, s, RecoverNext(t)))
  {
    hide Fold, Processed, WritesOf, DiskOk, LogOk, WellFormed, Registered, ShouldApply, Put;
    var s1 := Step(p, s, RecoverNext(t));
    if s1 != s {
      var n := s.app.positions[t];
      ReplayDisk(p, s, t, n);
      DiskSame(p, RecoverRecord(s, t, n), s1);
    }
  }

  /** With the whole changelog replayed, nothing is ahead and the store is the fold of the committed input. */
  lemma Recovered<X(!new), V(!new)>(p: Program<X, V>, s: System<V>)
    requires Inv(p, s) && s.app.Recovering? && s.app.positions == map[]
    ensures s.data == Fold(p, s.done)
    ensures Position(p.input, s.committed, 0) == s.done
  {
    hide Processed, WritesOf, LogOk;
    PositionIs(p.input, s.done, 0);
    FoldRegistered(p, s.done);
    forall k: Key ensures Get(s.data, k) == Get(Fold(p, s.done), k) {
    }
    SameGets(s.data, Fold(p, s.done));
  }

  lemma SameGets<V(!new)>(x: map<Key, V>, y: map<Key, V>)
    requires forall k :: Get(x, k) == Get(y, k)
    ensures x == y
  {
    forall k ensures k in x <==> k in y {
      assert Get(x, k) == Get(y, k);
    }
    forall k | k in x ensures x[k] == y[k] {
      assert Get(x, k) == Get(y, k);
    }
  }

  lemma {:induction false} FoldRegistered<X(!new), V(!new)>(p: Program<X, V>, n: nat)
    requires WellFormed(p) && n <= |p.input|
    ensures Registered(Fold(p, n), p.stores)
  {
    if n > 0 {
      FoldRegistered(p, n - 1);
    }
  }

  lemma StartOk<X(!new), V(!new)>(p: Program<X, V>, s: System<V>)
    requires Inv(p, s)
    ensures Inv(p, Step(p, s, Start))
  {
    hide Fold, Position, DiskOk, LogOk, WellFormed, Registered, Committed;
    var s1 := Step(p, s, Start);
    if s1 != s {
      Recovered(p, s);
      DiskSame(p, s, s1);
    }
  }

  lemma ProcessOk<X(!new), V(!new)>(p: Program<X, V>, s: System<V>)
    requires Inv(p, s)
    ensures Inv(p, Step(p, s, Process))
    ensures s.app.Processing? && s.app.next < |p.input| ==> Step(p, s, Process).app.Processing?
  {
    hide Fold, Position, DiskOk, LogOk, Registered, Committed;
    var s1 := Step(p, s, Process);
    if s.app.Processing? && s.app.next < |p.input| {
      var next, r := s.app.next, p.input[s.app.next];
      FoldRange(p, s.done, next);
      ProcessedLast(p.input, s.done, next, r.topic);
      assert r.offset > OffsetOf(s.app.tpOffsets, r.topic, -1);
      DiskSame(p, s, s1);
    }
  }

  lemma BeginOk<X(!new), V(!new)>(p: Program<X, V>, s: System<V>)
    requires Inv(p, s)
    ensures Inv(p, Step(p, s, BeginCommit))
  {
    hide Fold, Position, DiskOk, LogOk, Registered, Committed, WritesOf;
    DiskSame(p, s, Step(p, s, BeginCommit));
  }

  /** Appending a record of the current batch to a changelog. */
  lemma AppendLog<X, V>(p: Program<X, V>, t: string, log: seq<LogRecord<V>>, done: nat, r: LogRecord<V>)
    requires done <= |p.input| && LogOk(p, t, log, done)
    requires RecordOk(p, r) && r.key.store == t && r.batchStart == done
    ensures LogOk(p, t, log + [r], done)
  {
    hide Fold, Processed, WritesOf, RecordOk;
    forall q: nat, k: Key | q < done && k.store == t && Touches(p, q, k)
      ensures exists j :: Carries(log + [r], j, k, q, done) {
      var j :| Carries(log, j, k, q, done);
      assert Carries(log + [r], j, k, q, done);
    }
  }

  lemma AheadAppend<V>(log: seq<LogRecord<V>>, r: LogRecord<V>, offset: int, done: nat, k: Key)
    requires Ahead(log, offset, done, k)
    ensures Ahead(log + [r], offset, done, k)
  {
    var i :| offset < i < |log| && 0 <= i && log[i].key == k && log[i].batchEnd <= done;
    assert (log + [r])[i] == log[i];
  }

  lemma ProducedAppend<V>(log: seq<LogRecord<V>>, r: LogRecord<V>, offset: int, k: Key, from: nat, upTo: nat)
    requires Produced(log, offset, k, from, upTo) && r.key != k
    ensures Produced(log + [r], offset, k, from, upTo)
  {
    var j :| offset < j < |log| && 0 <= j && log[j].key == k && log[j].batchStart == from && log[j].batchEnd == upTo
             && forall i :: j < i < |log| ==> log[i].key != k;
    assert (log + [r])[j] == log[j];
  }

  lemma ProduceKey<X, V>(p: Program<X, V>, s: System<V>, s1: System<V>, r: LogRecord<V>, k: Key)
    requires Wired(s, p.stores) && s.done <= |p.input| && DiskOk(p, s) && k.store in p.stores && r.key.store in p.stores
    requires s1 == s.(logs := s.logs[r.key.store := s.logs[r.key.store] + [r]], app := s1.app)
    ensures Get(s1.data, k) == Get(Fold(p, s.done), k) || Ahead(s1.logs[k.store], s1.offsets[k.store], s1.done, k)
  {
    hide Fold, Ahead, Get;
    if k.store == r.key.store && Ahead(s.logs[k.store], s.offsets[k.store], s.done, k) {
      AheadAppend(s.logs[k.store], r, s.offsets[k.store], s.done, k);
    }
  }

  lemma ProduceOk<X(!new), V(!new)>(p: Program<X, V>, s: System<V>, k: Key)
    requires Inv(p, s)
    ensures Inv(p, Step(p, s, Produce(k)))
  {
    hide Fold, Processed, WritesOf, Position, LogOk, Registered, Committed, Ahead, Produced;
    var s1 := Step(p, s, Produce(k));
    if s1 != s {
      var t, cache, next := k.store, s.app.cache, s.app.next;
      var r := LogRecord(k, cache[k], s.app.tpOffsets, s.done, next);
      FoldGet(p, s.done, next, k);
      assert RecordOk(p, r);
      AppendLog(p, t, s.logs[t], s.done, r);
      forall k1: Key | k1.store in p.stores {
        ProduceKey(p, s, s1, r, k1);
      }
      forall k1 | k1 in cache && k1 !in s1.app.remaining
        ensures k1.store in p.stores && Produced(s1.logs[k1.store], s1.offsets[k1.store], k1, s.done, next)
      {
        if k1 == k {
          ProducedLast(s.logs[t], r, s.offsets[t]);
        } else if k1.store == t {
          ProducedAppend(s.logs[t], r, s.offsets[t], k1, s.done, next);
        }
      }
    }
  }

  lemma ProducedLast<V>(log: seq<LogRecord<V>>, r: LogRecord<V>, offset: int)
    requires offset < |log| || offset < 0
    ensures Produced(log + [r], offset, r.key, r.batchStart, r.batchEnd)
  {
    assert (log + [r])[|log|] == r;
  }

  /** Committing the offsets makes the batch's records part of the committed changelog. */
  lemma CommitLog<X, V>(p: Program<X, V>, t: string, log: seq<LogRecord<V>>, done: nat, next: nat, offset: int)
    requires done <= next <= |p.input| && LogOk(p, t, log, done)
    requires forall k :: k in WritesOf(p, done, next) && k.store == t ==> Produced(log, offset, k, done, next)
    ensures LogOk(p, t, log, next)
  {
    hide Fold, Processed, RecordOk;
    forall q: nat, k: Key | q < next && k.store == t && Touches(p, q, k)
      ensures exists j :: Carries(log, j, k, q, next) {
      if q < done {
        var j :| Carries(log, j, k, q, done);
        assert Carries(log, j, k, q, next);
      } else {
        WritesTouched(p, done, next, k);
        var j :| offset < j < |log| && 0 <= j && log[j].key == k && log[j].batchStart == done && log[j].batchEnd == next
                 && forall i :: j < i < |log| ==> log[i].key != k;
        assert Carries(log, j, k, q, next);
      }
    }
  }

  lemma CommitOk<X(!new), V(!new)>(p: Program<X, V>, s: System<V>)
    requires Inv(p, s)
    ensures Inv(p, Step(p, s, CommitOffsets))
  {
    hide Fold, Processed, WritesOf, Position, LogOk, Registered, WellFormed;
    var s1 := Step(p, s, CommitOffsets);
    if s1 != s {
      var cache, next := s.app.cache, s.app.next;
      CommittedJoin(p.input, s.done, next);
      forall t | t in p.stores ensures LogOk(p, t, s.logs[t], next) {
        CommitLog(p, t, s.logs[t], s.done, next, s.offsets[t]);
      }
      forall k: Key
        ensures k in cache ==>
                  k.store in p.stores && cache[k] == Get(Fold(p, next), k)
                  && Ahead(s.logs[k.store], s.offsets[k.store], next, k)
        ensures k !in cache ==> Get(s.data, k) == Get(Fold(p, next), k)
      {
        FoldGet(p, s.done, next, k);
        if k in cache {
          ProducedAhead(s.logs[k.store], s.offsets[k.store], k, s.done, next);
        }
      }
    }
  }

  lemma ProducedAhead<V>(log: seq<LogRecord<V>>, offset: int, k: Key, from: nat, upTo: nat)
    requires Produced(log, offset, k, from, upTo)
    ensures Ahead(log, offset, upTo, k) && log != []
  {
  }

  /** Flushing one store writes its part of the cache and nothing else. */
  lemma FlushEffect<V>(s: System<V>, cache: Writes<V>, t: string, k: Key)
    requires t in s.logs
    ensures Get(FlushOne(s, cache, t).data, k) == if k in cache && k.store == t then cache[k] else Get(s.data, k)
  {
    var own := map k | k in cache && k.store == t :: cache[k];
    OverlayGet(s.data, own, k);
  }

  lemma FlushFrame<X(!new), V(!new)>(p: Program<X, V>, s: System<V>, t: string)
    requires Inv(p, s) && s.app.Flushing? && t in p.stores
    ensures
      var s1 := FlushOne(s, s.app.cache, t);
      && s1 == s.(data := s1.data, offsets := s1.offsets)
      && (s1.offsets == s.offsets || (s1.offsets == s.offsets[t := |s.logs[t]| - 1] && s.logs[t] != []))
      && Registered(s1.data, p.stores)
  {
    hide Fold, LogOk, WellFormed, Committed, DiskOk, Overlay, Get;
    var own := map k | k in s.app.cache && k.store == t :: s.app.cache[k];
    OverlayRegistered(s.data, own, p.stores);
    if own != map[] {
      var k :| k in own;
      assert s.logs[t] != [];
    }
  }

  lemma FlushOk<X(!new), V(!new)>(p: Program<X, V>, s: System<V>, t: string)
    requires Inv(p, s)
    ensures Inv(p, Step(p, s, FlushStore(t)))
  {
    hide Fold, Processed, WritesOf, Position, LogOk, WellFormed, Committed, Ahead, FlushOne, Get, Registered;
    var s1 := Step(p, s, FlushStore(t));
    if s1 != s {
      FlushFrame(p, s, t);
      forall k: Key ensures Get(s1.data, k) == if k in s.app.cache && k.store == t then s.app.cache[k]
          else Get(s.data, k) {
        FlushEffect(s, s.app.cache, t, k);
      }
      FlushDisk(p, s, s1, t);
    }
  }

  /** After the flush of a store, all its keys are up to date. */
  lemma FlushDisk<X(!new), V(!new)>(p: Program<X, V>, s: System<V>, s1: System<V>, t: string)
    requires Inv(p, s) && s.app.Flushing? && t in p.stores
    requires s1 == s.(data := s1.data, offsets := s1.offsets, app := s1.app) && s1.offsets.Keys == p.stores
    requires forall u :: u in p.stores && u != t ==> s1.offsets[u] == s.offsets[u]
    requires forall k: Key :: Get(s1.data, k) == if k in s.app.cache && k.store == t then s.app.cache[k]
             else Get(s.data, k)
    ensures DiskOk(p, s1)
    ensures forall k: Key :: k !in s.app.cache || k.store !in s.app.pending - {t} ==>
              Get(s1.data, k) == Get(Fold(p, s.done), k)
  {
    hide Fold, LogOk, WellFormed, Committed, Ahead, Get, Registered;
  }

  lemma OverlayRegistered<V>(data: map<Key, V>, w: Writes<V>, stores: set<string>)
    requires Registered(data, stores) && forall k :: k in w ==> k.store in stores
    ensures Registered(Overlay(data, w), stores)
  {
  }

  lemma EndOk<X(!new), V(!new)>(p: Program<X, V>, s: System<V>)
    requires Inv(p, s)
    ensures Inv(p, Step(p, s, EndCommit))
  {
    hide Fold, Position, LogOk, Registered, Committed, Ahead;
    var s1 := Step(p, s, EndCommit);
    if s1 != s {
      SameGets(s.data, Fold(p, s.done));
      DiskSame(p, s, s1);
    }
  }

  lemma StepOk<X(!new), V(!new)>(p: Program<X, V>, s: System<V>, e: Event)
    requires Inv(p, s)
    ensures Inv(p, Step(p, s, e))
  {
    hide Inv;
    match e
    case Crash => CrashOk(p, s);
    case LoseStore(t) => LoseOk(p, s, t);
    case Assign => AssignEvent(p, s);
    case RecoverNext(t) => RecoverOk(p, s, t);
    case RecoverEnd(t) => RecoverEndOk(p, s, t);
    case Start => StartOk(p, s);
    case Process => ProcessOk(p, s);
    case BeginCommit => BeginOk(p, s);
    case Produce(k) => ProduceOk(p, s, k);
    case CommitOffsets => CommitOk(p, s);
    case FlushStore(t) => FlushOk(p, s, t);
    case EndCommit => EndOk(p, s);
  }

  lemma AssignEvent<X(!new), V(!new)>(p: Program<X, V>, s: System<V>)
    requires Inv(p, s)
    ensures Inv(p, Step(p, s, Assign))
  {
    hide DiskOk, LogOk, AssignStep;
    if s.app.Down? {
      AssignOk(p, s);
    }
  }

  lemma CrashOk<X(!new), V(!new)>(p: Program<X, V>, s: System<V>)
    requires Inv(p, s)
    ensures Inv(p, s.(app := Down))
  {
    hide Fold, DiskOk, LogOk, WellFormed;
    DiskSame(p, s, s.(app := Down));
  }

  /** A key that was ever written has its committed value in the changelog, and any other has none. */
  lemma FromTheStart<X(!new), V(!new)>(p: Program<X, V>, log: seq<LogRecord<V>>, done: nat, k: Key)
    requires done <= |p.input| && LogOk(p, k.store, log, done)
    ensures Get(Fold(p, done), k) == None || Ahead(log, OFFSET_BEGINNING, done, k)
  {
    hide RecordOk;
    if exists q: nat :: q < done && Touches(p, q, k) {
      var q: nat :| q < done && Touches(p, q, k);
      var j :| Carries(log, j, k, q, done);
    } else {
      Untouched(p, 0, done, k);
    }
  }

  /** Losing a store between two runs, as on a new host: the changelog holds all that is needed. */
  lemma LoseOk<X(!new), V(!new)>(p: Program<X, V>, s: System<V>, t: string)
    requires Inv(p, s)
    ensures Inv(p, Step(p, s, LoseStore(t)))
  {
    hide Fold, LogOk, WellFormed, Ahead, Committed;
    var s1 := Step(p, s, LoseStore(t));
    if s1 != s {
      forall k: Key | k.store in p.stores
        ensures Get(s1.data, k) == Get(Fold(p, s.done), k) || Ahead(s1.logs[k.store], s1.offsets[k.store], s.done, k)
      {
        if k.store == t {
          FromTheStart(p, s.logs[t], s.done, k);
        } else {
          assert Get(s1.data, k) == Get(s.data, k);
        }
      }
    }
  }

  lemma RecoverEndOk<X(!new), V(!new)>(p: Program<X, V>, s: System<V>, t: string)
    requires Inv(p, s)
    ensures Inv(p, Step(p, s, RecoverEnd(t)))
  {
    hide Fold, DiskOk, LogOk, WellFormed;
    DiskSame(p, s, Step(p, s, RecoverEnd(t)));
  }

  lemma {:induction false} RunOk<X(!new), V(!new)>(p: Program<X, V>, events: seq<Event>)
    requires WellFormed(p)
    ensures Inv(p, Run(p, events))
  {
    if events == [] {
      InitOk(p);
    } else {
      RunOk(p, events[..|events| - 1]);
      StepOk(p, Run(p, events[..|events| - 1]), events[|events| - 1]);
    }
  }

  lemma InitOk<X(!new), V(!new)>(p: Program<X, V>)
    requires WellFormed(p)
    ensures Inv(p, Initial(p))
  {
    hide Committed, Fold, Processed;
    NoneCommitted(p.input);
    FoldNone(p);
  }

  lemma FoldNone<X, V>(p: Program<X, V>)
    ensures Fold(p, 0) == map[]
  {
  }

  lemma NoneCommitted<X>(input: seq<Record<X>>)
    ensures Committed(input, 0) == map[]
  {
  }

  /**
   * Crash safety: in every run of processing, producing, committing, flushing, crashing at any point
   * and recovering, whenever the application processes, its state through the update cache is the
   * fold of exactly the records processed so far; when it has just started or committed, that is the
   * fold of the committed records, and the broker's offsets cover exactly those.
   */
  lemma CrashSafe<X(!new), V(!new)>(p: Program<X, V>, events: seq<Event>)
    requires WellFormed(p)
    ensures
      var s := Run(p, events);
      && s.done <= |p.input| && s.committed == Committed(p.input, s.done)
      && (s.app.Processing? ==>
            && s.done <= s.app.next <= |p.input| && s.data == Fold(p, s.done)
            && Overlay(s.data, s.app.cache) == Fold(p, s.app.next))
      && (s.app.Recovering? && s.app.positions == map[] ==>
            s.data == Fold(p, s.done) && Step(p, s, Start).app == Processing(map[], map[], s.done))
  {
    hide Fold, WritesOf, DiskOk, LogOk, Position, Committed;
    RunOk(p, events);
    var s := Run(p, events);
    if s.app.Processing? {
      FoldRange(p, s.done, s.app.next);
    }
    if s.app.Recovering? && s.app.positions == map[] {
      Recovered(p, s);
    }
  }

  /** Recovery never meets the errors the code raises for inconsistent offsets. */
  lemma NoInvalidOffset<X(!new), V(!new)>(p: Program<X, V>, events: seq<Event>)
    requires WellFormed(p)
    ensures
      var s := Run(p, events);
      && (forall t :: t in p.stores ==> !InvalidOffset(|s.logs[t]|, s.offsets[t]))
      && (s.app.Down? ==> Step(p, s, Assign).app.Recovering?)
      && (s.app.Processing? && s.app.next < |p.input| ==> Step(p, s, Process).app.Processing?)
  {
    hide Fold, WritesOf, DiskOk, LogOk, Position, Committed, AssignStep, ProcessStep;
    RunOk(p, events);
    var s := Run(p, events);
    if s.app.Down? {
      AssignOk(p, s);
    }
    ProcessOk(p, s);
  }
}
