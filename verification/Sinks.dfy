/** Batching sinks and the sink half of a checkpoint (sinks/base/sink.py, checkpointing/checkpoint.py). */
module Sinks {
  import opened Wrappers

  datatype TP = TP(topic: string, partition: int)

  /** A sink: its batches of offsets by partition, and what has gone through a successful write, as often as it has. */
  datatype SinkState = SinkState(batches: map<TP, seq<int>>, written: multiset<(TP, int)>)

  function BatchOf(s: SinkState, tp: TP): seq<int> { if tp in s.batches then s.batches[tp] else [] }

  function AddTo(s: SinkState, tp: TP, offset: int): SinkState {
    s.(batches := s.batches[tp := BatchOf(s, tp) + [offset]])
  }

  /**
   * How a flush goes: all batches written; or a write pushes back or fails once the batches of some
   * partitions are through.
   */
  datatype Outcome = Through | PushedBack(first: set<TP>) | Failed(first: set<TP>)

  function Records(batches: map<TP, seq<int>>, tps: set<TP>): set<(TP, int)> {
    set tp, o | tp in batches && tp in tps && o in batches[tp] :: (tp, o)
  }

  /** The first n of the partitions. */
  function Taken(order: seq<TP>, n: nat): set<TP>
    requires n <= |order|
  {
    set tp | tp in order[..n]
  }

  lemma TakenNext(order: seq<TP>, n: nat)
    requires n < |order| && forall i, j :: 0 <= i < j < |order| ==> order[i] != order[j]
    ensures Taken(order, n + 1) == Taken(order, n) + {order[n]} && order[n] !in Taken(order, n)
  {
    assert order[..n + 1] == order[..n] + [order[n]];
  }

  lemma TakenEnds(batches: map<TP, seq<int>>, order: seq<TP>)
    requires forall tp :: tp in order <==> tp in batches
    ensures Records(batches, Taken(order, 0)) == {} && Taken(order, |order|) == batches.Keys
  {
    assert order[..|order|] == order;
  }

  /** The records of one more partition. */
  lemma RecordsNext(batches: map<TP, seq<int>>, tps: set<TP>, tp: TP)
    requires tp in batches && tp !in tps
    ensures multiset(Records(batches, tps + {tp}))
         == multiset(Records(batches, tps)) + multiset(set o | o in batches[tp] :: (tp, o))
  {
    var before, own, all := Records(batches, tps), set o | o in batches[tp] :: (tp, o), Records(batches, tps + {tp});
    forall x ensures x in all <==> x in before || x in own {
      if x in own {
        assert x.1 in batches[tp];
      }
    }
    assert all == before + own && before !! own;
  }

  /** flush: whatever happens, the batches are dropped afterwards. */
  function FlushSink(s: SinkState, outcome: Outcome): SinkState {
    SinkState(map[],
              s.written + multiset(Records(s.batches, if outcome.Through? then s.batches.Keys else outcome.first)))
  }

  lemma FlushIs(s: SinkState)
    ensures FlushSink(s, Through) == SinkState(map[], s.written + multiset(Records(s.batches, s.batches.Keys)))
    ensures forall tps ::
              FlushSink(s, PushedBack(tps)) == SinkState(map[], s.written + multiset(Records(s.batches, tps)))
    ensures forall tps ::
              FlushSink(s, Failed(tps)) == SinkState(map[], s.written + multiset(Records(s.batches, tps)))
  {
  }

  datatype Status = Fine | Backpressured | Crashed

  /**
   * The first n sinks of a commit: after backpressure the others only drop their batches, after a
   * failure nothing more happens.
   */
  function FlushUpTo(sinks: seq<SinkState>, outcomes: seq<Outcome>, n: nat): (r: (seq<SinkState>, Status))
    requires n <= |sinks| == |outcomes|
    ensures |r.0| == |sinks|
  {
    if n == 0 then (sinks, Fine) else
      var (done, status) := FlushUpTo(sinks, outcomes, n - 1);
      match status
      case Crashed => (done, Crashed)
      case Backpressured => (done[n - 1 := sinks[n - 1].(batches := map[])], Backpressured)
      case Fine =>
        (done[n - 1 := FlushSink(sinks[n - 1], outcomes[n - 1])], StatusAfter(outcomes[n - 1]))
  }

  function FlushAll(sinks: seq<SinkState>, outcomes: seq<Outcome>): (seq<SinkState>, Status)
    requires |sinks| == |outcomes|
  {
    FlushUpTo(sinks, outcomes, |sinks|)
  }

  /** The offsets of a checkpoint: the last processed and the first processed of each partition. */
  datatype Offsets = Offsets(last: map<TP, int>, starting: map<TP, int>)

  /** store_offset: an offset that does not go up is an error. */
  function StoreOffset(c: Offsets, tp: TP, offset: int): Option<Offsets> {
    if offset <= (if tp in c.last then c.last[tp] else -1) then None
    else Some(Offsets(c.last[tp := offset], if tp in c.starting then c.starting else c.starting[tp := offset]))
  }

  /** A checkpoint's records, stored one after the other. */
  function StoreAll(records: seq<(TP, int)>): Option<Offsets> {
    if records == [] then Some(Offsets(map[], map[])) else
      var last := records[|records| - 1];
      var before := StoreAll(records[..|records| - 1]);
      if before.None? then None else StoreOffset(before.value, last.0, last.1)
  }

  /** Within each partition the offsets go up. */
  ghost predicate AllGoUp(records: seq<(TP, int)>) {
    && (forall k :: 0 <= k < |records| ==> 0 <= records[k].1)
    && forall j, k :: 0 <= j < k < |records| && records[j].0 == records[k].0 ==> records[j].1 < records[k].1
  }

  /** For each partition seen, its first offset and its last. */
  ghost predicate FirstAndLast(records: seq<(TP, int)>, c: Offsets) {
    && c.starting.Keys == c.last.Keys
    && (forall k :: 0 <= k < |records| ==>
                      && records[k].0 in c.last
                      && c.starting[records[k].0] <= records[k].1 <= c.last[records[k].0])
    && forall tp :: tp in c.last ==> (tp, c.starting[tp]) in records && (tp, c.last[tp]) in records
  }

  /** Storing succeeds exactly when the offsets of each partition go up, and keeps the first and the last of each. */
  lemma {:induction false} StoreAllIff(records: seq<(TP, int)>)
    ensures StoreAll(records).Some? <==> AllGoUp(records)
    ensures StoreAll(records).Some? ==> FirstAndLast(records, StoreAll(records).value)
  {
    if records != [] {
      hide AllGoUp, FirstAndLast, StoreOffset;
      var n := |records| - 1;
      var before := records[..n];
      assert records == before + [records[n]];
      StoreAllIff(before);
      PrefixGoesUp(before, records[n]);
      if StoreAll(before).Some? {
        var c := StoreAll(before).value;
        StoreIff(before, c, records[n]);
        if StoreOffset(c, records[n].0, records[n].1).Some? {
          StoreKeeps(before, c, records[n]);
        }
      }
    }
  }

  lemma PrefixGoesUp(records: seq<(TP, int)>, x: (TP, int))
    ensures AllGoUp(records + [x]) ==> AllGoUp(records)
  {
    var all := records + [x];
    assert forall k :: 0 <= k < |records| ==> records[k] == all[k];
  }

  lemma StoreIff(records: seq<(TP, int)>, c: Offsets, x: (TP, int))
    requires AllGoUp(records) && FirstAndLast(records, c)
    ensures StoreOffset(c, x.0, x.1).Some? <==> AllGoUp(records + [x])
  {
    var all := records + [x];
    assert all[|records|] == x;
    assert forall k :: 0 <= k < |records| ==> all[k] == records[k];
    if x.0 in c.last {
      var j :| 0 <= j < |records| && records[j] == (x.0, c.last[x.0]);
      assert all[j].0 == all[|records|].0;
    }
  }

  lemma StoreKeeps(records: seq<(TP, int)>, c: Offsets, x: (TP, int))
    requires FirstAndLast(records, c) && StoreOffset(c, x.0, x.1).Some?
    ensures FirstAndLast(records + [x], StoreOffset(c, x.0, x.1).value)
  {
    var all, next := records + [x], StoreOffset(c, x.0, x.1).value;
    forall k | 0 <= k < |all|
      ensures all[k].0 in next.last && next.starting[all[k].0] <= all[k].1 <= next.last[all[k].0]
    {
      if k < |records| {
        assert all[k] == records[k];
      } else if x.0 in c.last {
        var j :| 0 <= j < |records| && records[j] == (x.0, c.last[x.0]);
        assert c.starting[x.0] <= records[j].1;
      }
    }
    forall tp | tp in next.last ensures (tp, next.starting[tp]) in all && (tp, next.last[tp]) in all {
      assert x in all;
      if tp in c.last {
        assert (tp, c.starting[tp]) in records && (tp, c.last[tp]) in records;
      }
    }
  }

  class BatchingSink {
    var batches: map<TP, seq<int>>
    ghost var written: multiset<(TP, int)>

    ghost function Value(): SinkState
      reads this
    {
      SinkState(batches, written)
    }

    constructor ()
      ensures Value() == SinkState(map[], multiset{})
    {
      batches, written := map[], multiset{};
    }

    method Add(tp: TP, offset: int)
      modifies this
      ensures Value() == AddTo(old(Value()), tp, offset)
    {
      if tp !in batches {
        batches := batches[tp := []];
      }
      batches := batches[tp := batches[tp] + [offset]];
    }

    /** Writes the batches in the given order, as far as the destination takes them, and drops them all. */
    method Flush(order: seq<TP>, taken: nat, failure: bool) returns (outcome: Outcome)
      requires taken <= |order| && (forall tp :: tp in order <==> tp in batches)
      requires forall i, j :: 0 <= i < j < |order| ==> order[i] != order[j]
      modifies this
      ensures outcome == if taken == |order| then Through
                         else if failure then Failed(Taken(order, taken))
                             else PushedBack(Taken(order, taken))
      ensures Value() == FlushSink(old(Value()), outcome)
    {
      hide Records, Taken, FlushSink;
      TakenEnds(batches, order);
      FlushIs(old(Value()));
      for i := 0 to taken
        invariant batches == old(batches)
        invariant written == old(written) + multiset(Records(batches, Taken(order, i)))
      {
        TakenNext(order, i);
        assert order[i] in order;
        RecordsNext(batches, Taken(order, i), order[i]);
        Write(order[i], batches[order[i]]);
      }
      if taken == |order| {
        outcome := Through;
      } else {
        outcome := if failure then Failed(Taken(order, taken)) else PushedBack(Taken(order, taken));
      }
      batches := map[];
    }

    ghost method Write(tp: TP, batch: seq<int>)
      modifies this`written
      ensures written == old(written) + multiset(set o | o in batch :: (tp, o))
    {
      written := written + multiset(set o | o in batch :: (tp, o));
    }

    method OnPaused()
      modifies this`batches
      ensures Value() == old(Value()).(batches := map[])
    {
      batches := map[];
    }
  }

  class Checkpoint {
    var last: map<TP, int>
    var starting: map<TP, int>
    var total: nat

    ghost function Value(): Offsets
      reads this
    {
      Offsets(last, starting)
    }

    constructor ()
      ensures Value() == Offsets(map[], map[]) && total == 0
    {
      last, starting, total := map[], map[], 0;
    }

    method Store(tp: TP, offset: int) returns (ok: bool)
      modifies this
      ensures ok == StoreOffset(old(Value()), tp, offset).Some?
      ensures ok ==> Some(Value()) == StoreOffset(old(Value()), tp, offset) && total == old(total) + 1
      ensures !ok ==> Value() == old(Value()) && total == old(total)
    {
      var stored := if tp in last then last[tp] else -1;
      if offset <= stored {
        return false;
      }
      last := last[tp := offset];
      if tp !in starting {
        starting := starting[tp := offset];
      }
      total := total + 1;
      return true;
    }
  }

  ghost function Values(sinks: seq<BatchingSink>): seq<SinkState>
    reads sinks
  {
    seq(|sinks|, i requires 0 <= i < |sinks| reads sinks => sinks[i].Value())
  }

  /** How one sink's flush is going to go. */
  datatype Attempt = Attempt(order: seq<TP>, taken: nat, failure: bool)

  /** The order lists the partitions that have a batch, each once. */
  ghost predicate Doable(a: Attempt, batches: map<TP, seq<int>>) {
    && a.taken <= |a.order| && (forall tp :: tp in a.order <==> tp in batches)
    && forall j, k :: 0 <= j < k < |a.order| ==> a.order[j] != a.order[k]
  }

  function OutcomeOf(a: Attempt): Outcome {
    if a.taken >= |a.order| then Through
    else if a.failure then Failed(Taken(a.order, a.taken)) else PushedBack(Taken(a.order, a.taken))
  }

  function StatusAfter(outcome: Outcome): Status {
    match outcome case Through => Fine case PushedBack(_) => Backpressured case Failed(_) => Crashed
  }

  /** One sink of a commit: after backpressure it only drops what it holds. */
  method FlushOne(sink: BatchingSink, attempt: Attempt, status: Status) returns (next: Status)
    requires Doable(attempt, sink.batches)
    modifies sink
    ensures status == Backpressured ==> sink.Value() == old(sink.Value()).(batches := map[]) && next == Backpressured
    ensures status != Backpressured ==>
              && sink.Value() == FlushSink(old(sink.Value()), OutcomeOf(attempt))
              && next == StatusAfter(OutcomeOf(attempt))
  {
    hide FlushSink;
    if status == Backpressured {
      sink.OnPaused();
      next := Backpressured;
    } else {
      var outcome := sink.Flush(attempt.order, attempt.taken, attempt.failure);
      next := StatusAfter(outcome);
    }
  }

  /** Step 1 of commit: flush the sinks one after the other until one pushes back, then drop what the rest hold. */
  method FlushSinks(sinks: seq<BatchingSink>, attempts: seq<Attempt>) returns (status: Status)
    requires |attempts| == |sinks| && forall i, j :: 0 <= i < j < |sinks| ==> sinks[i] != sinks[j]
    requires forall i :: 0 <= i < |sinks| ==> Doable(attempts[i], sinks[i].batches)
    modifies sinks
    ensures (Values(sinks), status)
            == FlushAll(old(Values(sinks)), seq(|attempts|, i requires 0 <= i < |attempts| => OutcomeOf(attempts[i])))
  {
    hide FlushSink, FlushUpTo, OutcomeOf, StatusAfter, Doable;
    ghost var before := Values(sinks);
    ghost var outcomes := seq(|attempts|, i requires 0 <= i < |attempts| => OutcomeOf(attempts[i]));
    ghost var now := before;
    status := Fine;
    NoneFlushed(before, outcomes);
    for n := 0 to |sinks|
      invariant status != Crashed && (now, status) == FlushUpTo(before, outcomes, n)
      invariant forall i :: 0 <= i < |sinks| ==> sinks[i].Value() == now[i] && (i >= n ==> now[i] == before[i])
    {
      FlushNext(before, outcomes, n);
      status := FlushOne(sinks[n], attempts[n], status);
      now := now[n := sinks[n].Value()];
      if status == Crashed {
        CrashedStays(before, outcomes, n + 1, |sinks|);
        break;
      }
    }
    assert Values(sinks) == now;
  }

  /** What the next sink does to the commit. */
  lemma FlushNext(sinks: seq<SinkState>, outcomes: seq<Outcome>, n: nat)
    requires n < |sinks| == |outcomes|
    ensures
      var (done, status) := FlushUpTo(sinks, outcomes, n);
      var next := FlushUpTo(sinks, outcomes, n + 1);
      && (status == Backpressured ==> next == (done[n := sinks[n].(batches := map[])], Backpressured))
      && (status == Fine ==>
            next == (done[n := FlushSink(sinks[n], outcomes[n])], StatusAfter(outcomes[n])))
  {
    hide FlushSink;
  }

  lemma {:induction false} CrashedStays(sinks: seq<SinkState>, outcomes: seq<Outcome>, n: nat, m: nat)
    requires n <= m <= |sinks| == |outcomes| && FlushUpTo(sinks, outcomes, n).1 == Crashed
    ensures FlushUpTo(sinks, outcomes, m) == FlushUpTo(sinks, outcomes, n)
  {
    if n < m {
      CrashedStays(sinks, outcomes, n, m - 1);
    }
  }

  /** How often a flush with the given outcome writes a record. */
  function Writes(s: SinkState, outcome: Outcome, tp: TP, o: int): nat {
    if (outcome.Through? || tp in outcome.first) && o in BatchOf(s, tp) then 1 else 0
  }

  lemma FlushWrites(s: SinkState, outcome: Outcome, tp: TP, o: int)
    ensures FlushSink(s, outcome).written[(tp, o)] == s.written[(tp, o)] + Writes(s, outcome, tp, o)
    ensures FlushSink(s, outcome).batches == map[]
  {
  }

  /** Sink i before and after the sinks up to it have been seen to, if sink k is the first that is not through. */
  ghost predicate Flushed(before: SinkState, after: SinkState, outcome: Outcome, failed: bool, i: nat, k: nat) {
    if i <= k then
      && after.batches == map[]
      && forall tp, o :: after.written[(tp, o)] == before.written[(tp, o)] + Writes(before, outcome, tp, o)
    else if failed then after == before
    else after == SinkState(map[], before.written)
  }

  /**
   * The sink half of a commit, exactly: the sinks before the first one that is not through have all
   * they held written; that one as far as it was taken; and of those behind it nothing is written:
   * they only drop their batches, or keep them if a failure ended the commit.
   */
  lemma {:induction false} FlushExact(sinks: seq<SinkState>, outcomes: seq<Outcome>, n: nat, k: nat)
    requires n <= |sinks| == |outcomes| && k <= |sinks| && (forall i :: 0 <= i < k ==> outcomes[i].Through?)
    requires k < |sinks| ==> !outcomes[k].Through?
    ensures
      var (after, status) := FlushUpTo(sinks, outcomes, n);
      && |after| == |sinks|
      && status == (if n <= k then Fine else if outcomes[k].Failed? then Crashed else Backpressured)
      && (forall i :: 0 <= i < n ==> Flushed(sinks[i], after[i], outcomes[i], status == Crashed, i, k))
      && (forall i :: n <= i < |sinks| ==> after[i] == sinks[i])
  {
    hide FlushSink, Flushed, StatusAfter;
    if n == 0 {
      NoneFlushed(sinks, outcomes);
    } else {
      FlushExact(sinks, outcomes, n - 1, k);
      FlushNext(sinks, outcomes, n - 1);
      CrashStops(sinks, outcomes, n - 1);
      var (done, status) := FlushUpTo(sinks, outcomes, n - 1);
      hide FlushUpTo;
      StatusIs(outcomes[n - 1]);
      FlushedSink(sinks[n - 1], outcomes[n - 1], n - 1, k, status);
      FlushedSame(sinks, done, outcomes, n - 1, k, status);
    }
  }

  lemma StatusIs(outcome: Outcome)
    ensures StatusAfter(outcome)
         == if outcome.Through? then Fine else if outcome.Failed? then Crashed else Backpressured
  {
  }

  lemma NoneFlushed(sinks: seq<SinkState>, outcomes: seq<Outcome>)
    requires |sinks| == |outcomes|
    ensures FlushUpTo(sinks, outcomes, 0) == (sinks, Fine)
  {
  }

  lemma CrashStops(sinks: seq<SinkState>, outcomes: seq<Outcome>, n: nat)
    requires n < |sinks| == |outcomes|
    ensures FlushUpTo(sinks, outcomes, n).1 == Crashed ==>
              FlushUpTo(sinks, outcomes, n + 1) == FlushUpTo(sinks, outcomes, n)
  {
    hide FlushSink, StatusAfter;
  }

  /** The sink whose turn it is. */
  lemma FlushedSink(s: SinkState, outcome: Outcome, i: nat, k: nat, status: Status)
    ensures i <= k ==> forall failed :: Flushed(s, FlushSink(s, outcome), outcome, failed, i, k)
    ensures i > k ==> Flushed(s, s.(batches := map[]), outcome, false, i, k) && Flushed(s, s, outcome, true, i, k)
  {
    forall tp, o ensures FlushSink(s, outcome).written[(tp, o)] == s.written[(tp, o)] + Writes(s, outcome, tp, o) {
      FlushWrites(s, outcome, tp, o);
    }
    FlushWrites(s, outcome, TP("", 0), 0);
    hide Writes, FlushSink;
  }

  /** The sinks up to the first stop do not depend on how it stopped. */
  lemma FlushedSame(sinks: seq<SinkState>, done: seq<SinkState>, outcomes: seq<Outcome>, n: nat, k: nat, status: Status)
    requires n <= |sinks| == |done| == |outcomes|
    requires forall i :: 0 <= i < n ==> Flushed(sinks[i], done[i], outcomes[i], status == Crashed, i, k)
    ensures n <= k + 1 ==>
              forall i, failed :: 0 <= i < n ==> Flushed(sinks[i], done[i], outcomes[i], failed, i, k)
  {
    hide Writes;
  }
}
