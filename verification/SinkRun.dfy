/**
 * At-least-once delivery to sinks over runs with backpressure, failures and crashes (checkpoint.py,
 * context.py, consumer.py, app.py).
 */
module SinkRun {
  import opened Wrappers
  import opened Sinks

  /**
   * The logs, the number of sinks, which records reach which sink, and which records are skipped
   * without being processed.
   */
  datatype Env = Env(log: (TP, int) -> bool, sinks: nat, reaches: (nat, TP, int) -> bool, ignored: (TP, int) -> bool)

  ghost predicate WellFormed(env: Env) {
    && (forall tp, o :: env.log(tp, o) ==> o >= 0)
    && forall i, tp, o :: env.ignored(tp, o) ==> !env.reaches(i, tp, o)
  }

  /** The broker's committed offsets; the client's positions; the checkpoint; the sinks. */
  datatype System = System(committed: map<TP, int>, up: bool, position: map<TP, int>, offsets: Offsets,
                           sinks: seq<SinkState>)

  function At(m: map<TP, int>, tp: TP): int { if tp in m then m[tp] else 0 }

  /** How the part of a commit after the sinks goes: everything is produced and committed, or an error is raised. */
  datatype Event =
    | Poll(tp: TP, offset: int)
    | Commit(outcomes: seq<Outcome>, produced: bool)
    | Crash
    | Restart

  function Fresh(): Offsets { Offsets(map[], map[]) }

  /** Every sink the record reaches takes it. */
  function AddAll(env: Env, sinks: seq<SinkState>, tp: TP, offset: int): seq<SinkState> {
    seq(|sinks|, i requires 0 <= i < |sinks| =>
        if env.reaches(i, tp, offset) then AddTo(sinks[i], tp, offset) else sinks[i])
  }

  /** The client returns the next record at or after its position. */
  ghost predicate IsNext(env: Env, s: System, tp: TP, offset: int) {
    && env.log(tp, offset) && offset >= At(s.position, tp)
    && forall o :: At(s.position, tp) <= o < offset ==> !env.log(tp, o)
  }

  function ProcessRecord(env: Env, s: System, tp: TP, offset: int): System {
    var moved := s.(position := s.position[tp := offset + 1]);
    if env.ignored(tp, offset) then moved
    else
      var added := moved.(sinks := AddAll(env, s.sinks, tp, offset));
      var stored := StoreOffset(s.offsets, tp, offset);
      if stored.None? then added.(up := false) else added.(offsets := stored.value)
  }

  /** What is committed: one past the last processed offset. */
  function Committed(offsets: Offsets): map<TP, int> {
    map tp | tp in offsets.last :: offsets.last[tp] + 1
  }

  /** trigger_backpressure seeks every partition of the checkpoint back to its first processed offset. */
  function CommitCheckpoint(s: System, outcomes: seq<Outcome>, produced: bool): System
    requires |outcomes| == |s.sinks|
  {
    if s.offsets.last == map[] then s.(offsets := Fresh())
    else
      var (sinks, status) := FlushAll(s.sinks, outcomes);
      match status
      case Crashed => s.(sinks := sinks, up := false)
      case Backpressured => s.(sinks := sinks, position := s.position + s.offsets.starting, offsets := Fresh())
      case Fine =>
        if !produced then s.(sinks := sinks, up := false)
        else s.(sinks := sinks, committed := s.committed + Committed(s.offsets), offsets := Fresh())
  }

  /** After a restart reading resumes from the committed offsets, with nothing in memory. */
  function Restarted(s: System): System {
    s.(up := true, position := s.committed, offsets := Fresh(),
       sinks := seq(|s.sinks|, i requires 0 <= i < |s.sinks| => s.sinks[i].(batches := map[])))
  }

  /** One step; an event that cannot happen changes nothing. */
  ghost function Step(env: Env, s: System, e: Event): System {
    match e
    case Poll(tp, offset) => if s.up && IsNext(env, s, tp, offset) then ProcessRecord(env, s, tp, offset) else s
    case Commit(outcomes, produced) =>
        if s.up && |outcomes| == |s.sinks| then CommitCheckpoint(s, outcomes, produced) else s
    case Crash => s.(up := false)
    case Restart => if s.up then s else Restarted(s)
  }

  function Initial(env: Env): System {
    System(map[], false, map[], Fresh(), seq(env.sinks, i => SinkState(map[], multiset{})))
  }

  ghost function Run(env: Env, events: seq<Event>): System {
    if events == [] then Initial(env) else Step(env, Run(env, events[..|events| - 1]), events[|events| - 1])
  }

  // ----- What every run keeps -----

  /** Below this offset nothing of the partition is waiting in memory. */
  function LowMark(s: System, tp: TP): int {
    if tp in s.offsets.starting then s.offsets.starting[tp] else At(s.position, tp)
  }

  ghost predicate OffsetsOk(s: System, env: Env) {
    && s.offsets.last.Keys == s.offsets.starting.Keys
    && forall tp :: tp in s.offsets.last ==>
                      && 0 <= s.offsets.starting[tp] <= s.offsets.last[tp] < At(s.position, tp)
                      && env.log(tp, s.offsets.last[tp]) && !env.ignored(tp, s.offsets.last[tp])
                      && env.log(tp, s.offsets.starting[tp]) && !env.ignored(tp, s.offsets.starting[tp])
                      && forall o :: s.offsets.last[tp] < o < At(s.position, tp) && env.log(tp, o) ==>
                           env.ignored(tp, o)
  }

  /** Everything below upTo that reaches sink i has been written to it. */
  ghost predicate WrittenBelow(env: Env, sinks: seq<SinkState>, i: nat, tp: TP, upTo: int)
    requires i < |sinks|
  {
    forall o :: o < upTo && env.log(tp, o) && env.reaches(i, tp, o) ==> (tp, o) in sinks[i].written
  }

  /** The batch is exactly what reaches sink i of the records from low up to pos, in offset order. */
  ghost predicate HoldsExactly(env: Env, i: nat, tp: TP, batch: seq<int>, low: int, pos: int) {
    && (forall j, k :: 0 <= j < k < |batch| ==> batch[j] < batch[k])
    && forall o :: o in batch <==> low <= o < pos && env.log(tp, o) && env.reaches(i, tp, o)
  }

  /** Exactly what reaches sink i from the low mark up to the position waits in its batch, in offset order. */
  ghost predicate Waiting(env: Env, s: System, i: nat, tp: TP)
    requires i < |s.sinks|
  {
    HoldsExactly(env, i, tp, BatchOf(s.sinks[i], tp), LowMark(s, tp), At(s.position, tp))
  }

  /** Nothing is written but records of the log that reach the sink. */
  ghost predicate NothingElse(env: Env, sinks: seq<SinkState>) {
    forall i: nat, x :: i < |sinks| && x in sinks[i].written ==> env.log(x.0, x.1) && env.reaches(i, x.0, x.1)
  }

  ghost predicate Inv(env: Env, s: System) {
    && |s.sinks| == env.sinks
    && (forall tp :: At(s.committed, tp) >= 0) && NothingElse(env, s.sinks)
    && (forall i: nat, tp :: i < |s.sinks| ==> WrittenBelow(env, s.sinks, i, tp, At(s.committed, tp)))
    && (s.up ==>
          && OffsetsOk(s, env)
          && (forall tp :: At(s.committed, tp) <= LowMark(s, tp) <= At(s.position, tp))
          && forall i: nat, tp :: i < |s.sinks| ==>
               WrittenBelow(env, s.sinks, i, tp, LowMark(s, tp)) && Waiting(env, s, i, tp))
  }

  lemma StartOk(env: Env)
    requires WellFormed(env)
    ensures Inv(env, Initial(env))
  {
  }

  // ----- Polling -----

  /** The offset is stored: it becomes the last one, and the first one if there was none. */
  lemma StoreFacts(env: Env, s: System, tp: TP, offset: int)
    requires WellFormed(env) && OffsetsOk(s, env) && IsNext(env, s, tp, offset)
    ensures StoreOffset(s.offsets, tp, offset)
            == Some(Offsets(s.offsets.last[tp := offset],
                            if tp in s.offsets.starting then s.offsets.starting else s.offsets.starting[tp := offset]))
  {
  }

  /** What processing a record changes. */
  lemma PollFacts(env: Env, s: System, tp: TP, offset: int)
    requires WellFormed(env) && OffsetsOk(s, env) && IsNext(env, s, tp, offset)
    ensures var t := ProcessRecord(env, s, tp, offset);
            && t.up == s.up && t.committed == s.committed && |t.sinks| == |s.sinks|
            && (forall x :: At(t.position, x) == if x == tp then offset + 1 else At(s.position, x))
            && (forall x :: x != tp ==> LowMark(t, x) == LowMark(s, x))
            && LowMark(t, tp) == if tp in s.offsets.starting then LowMark(s, tp)
               else if env.ignored(tp, offset) then offset + 1 else offset
  {
    StoreFacts(env, s, tp, offset);
    hide StoreOffset, OffsetsOk, IsNext, AddAll;
    AddAllIs(env, s.sinks, tp, offset);
  }

  lemma PollOffsets(env: Env, s: System, tp: TP, offset: int)
    requires WellFormed(env) && OffsetsOk(s, env) && IsNext(env, s, tp, offset)
    ensures OffsetsOk(ProcessRecord(env, s, tp, offset), env)
  {
    StoreFacts(env, s, tp, offset);
    SkipOffsets(env, s, tp, offset);
    if !env.ignored(tp, offset) {
      MoveOffsets(env, s, tp, offset);
    }
    hide StoreOffset, AddAll, OffsetsOk, IsNext;
    SameOffsets(env, s.(position := s.position[tp := offset + 1], offsets := StoreOffset(s.offsets, tp, offset).value),
                ProcessRecord(env, s, tp, offset));
    SameOffsets(env, s.(position := s.position[tp := offset + 1]), ProcessRecord(env, s, tp, offset));
  }

  lemma SameOffsets(env: Env, s: System, t: System)
    ensures s.position == t.position && s.offsets == t.offsets && OffsetsOk(s, env) ==> OffsetsOk(t, env)
  {
  }

  lemma SkipOffsets(env: Env, s: System, tp: TP, offset: int)
    requires OffsetsOk(s, env) && IsNext(env, s, tp, offset)
    ensures env.ignored(tp, offset) ==> OffsetsOk(s.(position := s.position[tp := offset + 1]), env)
  {
  }

  lemma MoveOffsets(env: Env, s: System, tp: TP, offset: int)
    requires WellFormed(env) && OffsetsOk(s, env) && IsNext(env, s, tp, offset) && !env.ignored(tp, offset)
    ensures StoreOffset(s.offsets, tp, offset).Some?
    ensures OffsetsOk(s.(position := s.position[tp := offset + 1],
                         offsets := StoreOffset(s.offsets, tp, offset).value), env)
  {
  }

  lemma AddAllIs(env: Env, sinks: seq<SinkState>, tp: TP, offset: int)
    ensures |AddAll(env, sinks, tp, offset)| == |sinks|
    ensures forall i :: 0 <= i < |sinks| ==>
                          AddAll(env, sinks, tp, offset)[i] ==
                          if env.reaches(i, tp, offset) then AddTo(sinks[i], tp, offset) else sinks[i]
  {
  }

  lemma PollBatches(env: Env, s: System, tp: TP, offset: int, i: nat)
    requires WellFormed(env) && i < |s.sinks|
    ensures var t := ProcessRecord(env, s, tp, offset);
            && |t.sinks| == |s.sinks| && t.sinks[i].written == s.sinks[i].written
            && forall x :: BatchOf(t.sinks[i], x)
                           == BatchOf(s.sinks[i], x) + if x == tp && env.reaches(i, tp, offset) then [offset] else []
  {
    AddAllIs(env, s.sinks, tp, offset);
    hide StoreOffset, AddAll;
  }

  /** The next record of the log goes behind what waits; if nothing could wait before it, it comes first. */
  lemma NextHeld(env: Env, i: nat, tp: TP, batch: seq<int>, low: int, pos: int, offset: int)
    requires HoldsExactly(env, i, tp, batch, low, pos) && low <= pos <= offset && env.log(tp, offset)
    requires forall o :: pos <= o < offset ==> !env.log(tp, o)
    ensures var next := batch + if env.reaches(i, tp, offset) then [offset] else [];
            && HoldsExactly(env, i, tp, next, low, offset + 1)
            && (low == pos ==> HoldsExactly(env, i, tp, next, offset, offset + 1))
            && (low == pos && !env.reaches(i, tp, offset) ==> HoldsExactly(env, i, tp, next, offset + 1, offset + 1))
  {
    var next := batch + if env.reaches(i, tp, offset) then [offset] else [];
    forall j | 0 <= j < |batch| ensures low <= batch[j] < pos {
      assert batch[j] in batch;
    }
    forall o ensures o in next <==> low <= o < offset + 1 && env.log(tp, o) && env.reaches(i, tp, o) {
      assert o in next <==> o in batch || (env.reaches(i, tp, offset) && o == offset);
    }
  }

  lemma PollSink(env: Env, s: System, tp: TP, offset: int, i: nat, x: TP)
    requires WellFormed(env) && OffsetsOk(s, env) && IsNext(env, s, tp, offset) && i < |s.sinks|
    requires LowMark(s, x) <= At(s.position, x)
    requires WrittenBelow(env, s.sinks, i, x, LowMark(s, x)) && Waiting(env, s, i, x)
    ensures var t := ProcessRecord(env, s, tp, offset);
            |t.sinks| == |s.sinks| && WrittenBelow(env, t.sinks, i, x, LowMark(t, x)) && Waiting(env, t, i, x)
  {
    PollFacts(env, s, tp, offset);
    PollBatches(env, s, tp, offset, i);
    hide ProcessRecord, LowMark, OffsetsOk, At, BatchOf, HoldsExactly;
    var t := ProcessRecord(env, s, tp, offset);
    LowMarkIs(s, tp);
    if x == tp {
      NextHeld(env, i, tp, BatchOf(s.sinks[i], tp), LowMark(s, tp), At(s.position, tp), offset);
    } else {
      assert BatchOf(t.sinks[i], x) == BatchOf(s.sinks[i], x);
    }
  }

  lemma LowMarkIs(s: System, tp: TP)
    ensures tp !in s.offsets.starting ==> LowMark(s, tp) == At(s.position, tp)
  {
  }

  lemma PollOk(env: Env, s: System, tp: TP, offset: int)
    requires WellFormed(env) && Inv(env, s) && s.up && IsNext(env, s, tp, offset)
    ensures Inv(env, ProcessRecord(env, s, tp, offset)) && ProcessRecord(env, s, tp, offset).up
  {
    PollFacts(env, s, tp, offset);
    PollOffsets(env, s, tp, offset);
    hide ProcessRecord, WrittenBelow, Waiting, OffsetsOk, NothingElse, At, LowMark, IsNext, WellFormed;
    var t := ProcessRecord(env, s, tp, offset);
    forall i: nat, x | i < |t.sinks|
      ensures WrittenBelow(env, t.sinks, i, x, LowMark(t, x)) && Waiting(env, t, i, x)
              && WrittenBelow(env, t.sinks, i, x, At(t.committed, x))
    {
      PollSink(env, s, tp, offset, i, x);
      PollBatches(env, s, tp, offset, i);
      StillWritten(env, s.sinks, t.sinks, i, x, At(s.committed, x));
    }
    forall i: nat | i < |t.sinks| ensures t.sinks[i].written == s.sinks[i].written {
      PollBatches(env, s, tp, offset, i);
    }
    SameWritten(env, s.sinks, t.sinks);
    PollMarks(env, s, tp, offset);
  }

  lemma SameWritten(env: Env, sinks: seq<SinkState>, after: seq<SinkState>)
    requires NothingElse(env, sinks) && |after| == |sinks|
    requires forall i: nat :: i < |sinks| ==> after[i].written == sinks[i].written
    ensures NothingElse(env, after)
  {
  }

  lemma PollMarks(env: Env, s: System, tp: TP, offset: int)
    requires WellFormed(env) && OffsetsOk(s, env) && IsNext(env, s, tp, offset)
    requires forall x :: At(s.committed, x) <= LowMark(s, x) <= At(s.position, x)
    ensures var t := ProcessRecord(env, s, tp, offset);
            forall x :: At(t.committed, x) <= LowMark(t, x) <= At(t.position, x)
  {
    PollFacts(env, s, tp, offset);
    LowMarkIs(s, tp);
    hide ProcessRecord, OffsetsOk, LowMark;
  }

  // ----- Committing -----

  /** The first sink whose flush is not through. */
  function FirstStop(outcomes: seq<Outcome>): (k: nat)
    ensures k <= |outcomes| && (forall i :: 0 <= i < k ==> outcomes[i].Through?)
    ensures k < |outcomes| ==> !outcomes[k].Through?
  {
    if outcomes == [] || !outcomes[0].Through? then 0 else 1 + FirstStop(outcomes[1..])
  }

  /**
   * After a commit that is neither a failure nor empty, no sink holds anything; without
   * backpressure everything it held is written, once; and nothing it did not hold ever is.
   */
  lemma FlushOk(sinks: seq<SinkState>, outcomes: seq<Outcome>)
    requires |sinks| == |outcomes|
    ensures var (after, status) := FlushAll(sinks, outcomes);
            && |after| == |sinks|
            && (forall i :: 0 <= i < |sinks| ==> sinks[i].written <= after[i].written)
            && (forall i, x :: 0 <= i < |sinks| && x in after[i].written ==>
                    x in sinks[i].written || x.1 in BatchOf(sinks[i], x.0))
            && (status != Crashed ==> forall i :: 0 <= i < |sinks| ==> after[i].batches == map[])
            && (status == Fine ==>
                    forall i, tp, o :: 0 <= i < |sinks| ==>
                      after[i].written[(tp, o)]
                      == sinks[i].written[(tp, o)] + if o in BatchOf(sinks[i], tp) then 1 else 0)
  {
    hide FlushUpTo, BatchOf, FlushSink;
    var k := FirstStop(outcomes);
    var (after, status) := FlushAll(sinks, outcomes);
    FlushExact(sinks, outcomes, |sinks|, k);
    forall i | 0 <= i < |sinks|
      ensures sinks[i].written <= after[i].written
      ensures forall x :: x in after[i].written ==> x in sinks[i].written || x.1 in BatchOf(sinks[i], x.0)
    {
      FlushedGrows(sinks[i], after[i], outcomes[i], status == Crashed, i, k);
    }
  }

  /** In particular nothing disappears, and nothing appears that the sink did not hold. */
  lemma FlushedGrows(before: SinkState, after: SinkState, outcome: Outcome, failed: bool, i: nat, k: nat)
    requires Flushed(before, after, outcome, failed, i, k)
    ensures before.written <= after.written
    ensures forall x :: x in after.written ==> x in before.written || x.1 in BatchOf(before, x.0)
  {
    forall x ensures before.written[x] <= after.written[x]
             ensures x in after.written ==> x in before.written || x.1 in BatchOf(before, x.0)
    {
      assert x == (x.0, x.1);
      assert i <= k ==> after.written[(x.0, x.1)] == before.written[(x.0, x.1)] + Writes(before, outcome, x.0, x.1);
    }
  }

  lemma StillWritten(env: Env, sinks: seq<SinkState>, after: seq<SinkState>, i: nat, tp: TP, upTo: int)
    requires i < |sinks| == |after| && sinks[i].written <= after[i].written && WrittenBelow(env, sinks, i, tp, upTo)
    ensures WrittenBelow(env, after, i, tp, upTo)
  {
  }

  /** All that waited has been written: everything below the position has. */
  lemma AllWritten(env: Env, s: System, after: seq<SinkState>, i: nat, tp: TP)
    requires i < |s.sinks| == |after| && Waiting(env, s, i, tp) && WrittenBelow(env, s.sinks, i, tp, LowMark(s, tp))
    requires forall o :: after[i].written[(tp, o)]
                         == s.sinks[i].written[(tp, o)] + if o in BatchOf(s.sinks[i], tp) then 1 else 0
    ensures WrittenBelow(env, after, i, tp, At(s.position, tp))
  {
    hide LowMark, At, BatchOf;
    forall o | o < At(s.position, tp) && env.log(tp, o) && env.reaches(i, tp, o) ensures (tp, o) in after[i].written {
      if o < LowMark(s, tp) {
        assert (tp, o) in s.sinks[i].written;
      } else {
        assert o in BatchOf(s.sinks[i], tp);
      }
    }
  }

  /** What sinks hold is of the log and reaches them. */
  lemma HeldOnly(env: Env, s: System)
    requires Inv(env, s) && s.up
    ensures forall i: nat, tp, o ::
              i < |s.sinks| && o in BatchOf(s.sinks[i], tp) ==> env.log(tp, o) && env.reaches(i, tp, o)
  {
    hide BatchOf, WrittenBelow, OffsetsOk, LowMark, At;
    forall i: nat, tp, o | i < |s.sinks| && o in BatchOf(s.sinks[i], tp)
      ensures env.log(tp, o) && env.reaches(i, tp, o)
    {
      assert Waiting(env, s, i, tp);
    }
  }

  lemma StillNothingElse(env: Env, sinks: seq<SinkState>, after: seq<SinkState>)
    requires NothingElse(env, sinks) && |after| == |sinks|
    requires forall i, x :: 0 <= i < |sinks| && x in after[i].written ==>
               x in sinks[i].written || x.1 in BatchOf(sinks[i], x.0)
    requires forall i: nat, tp, o ::
               i < |sinks| && o in BatchOf(sinks[i], tp) ==> env.log(tp, o) && env.reaches(i, tp, o)
    ensures NothingElse(env, after)
  {
    hide BatchOf;
    forall i: nat, x | i < |after| && x in after[i].written ensures env.log(x.0, x.1) && env.reaches(i, x.0, x.1) {
      var tp, o := x.0, x.1;
      if x in sinks[i].written {
        assert env.log(x.0, x.1);
      } else {
        assert o in BatchOf(sinks[i], tp);
      }
    }
  }

  lemma CommitOk(env: Env, s: System, outcomes: seq<Outcome>, produced: bool)
    requires WellFormed(env) && Inv(env, s) && s.up && |outcomes| == |s.sinks| && s.offsets.last != map[]
    ensures Inv(env, CommitCheckpoint(s, outcomes, produced))
  {
    hide FlushUpTo, WrittenBelow, Waiting, NothingElse;
    HeldOnly(env, s);
    FlushOk(s.sinks, outcomes);
    var (after, status) := FlushAll(s.sinks, outcomes);
    var t := CommitCheckpoint(s, outcomes, produced);
    StillNothingElse(env, s.sinks, after);
    forall i: nat, tp | i < |s.sinks|
      ensures WrittenBelow(env, after, i, tp, At(s.committed, tp)) && WrittenBelow(env, after, i, tp, LowMark(s, tp))
    {
      StillWritten(env, s.sinks, after, i, tp, At(s.committed, tp));
      StillWritten(env, s.sinks, after, i, tp, LowMark(s, tp));
    }
    if status == Backpressured {
      RewindOk(env, s, after);
    } else if status == Fine && produced {
      forall i: nat, tp | i < |s.sinks| ensures WrittenBelow(env, after, i, tp, At(s.position, tp)) {
        AllWritten(env, s, after, i, tp);
      }
      AdvanceOk(env, s, after);
    }
  }

  /** Positions back at the first offsets of the checkpoint: nothing is waiting, and all below is written. */
  lemma RewindOk(env: Env, s: System, after: seq<SinkState>)
    requires Inv(env, s) && s.up && |after| == |s.sinks| && NothingElse(env, after)
    requires forall i :: 0 <= i < |after| ==> after[i].batches == map[]
    requires forall i: nat, tp :: i < |s.sinks| ==>
               WrittenBelow(env, after, i, tp, At(s.committed, tp)) && WrittenBelow(env, after, i, tp, LowMark(s, tp))
    ensures Inv(env, s.(sinks := after, position := s.position + s.offsets.starting, offsets := Fresh()))
  {
    hide WrittenBelow;
    var t := s.(sinks := after, position := s.position + s.offsets.starting, offsets := Fresh());
    forall tp ensures LowMark(t, tp) == LowMark(s, tp) == At(t.position, tp) {
    }
  }

  /** Offsets committed: the new low marks are the positions, and all below is written. */
  lemma AdvanceOk(env: Env, s: System, after: seq<SinkState>)
    requires Inv(env, s) && s.up && |after| == |s.sinks| && NothingElse(env, after)
    requires forall i :: 0 <= i < |after| ==> after[i].batches == map[]
    requires forall i: nat, tp :: i < |s.sinks| ==> WrittenBelow(env, after, i, tp, At(s.position, tp))
    ensures Inv(env, s.(sinks := after, committed := s.committed + Committed(s.offsets), offsets := Fresh()))
  {
    hide WrittenBelow;
    var t := s.(sinks := after, committed := s.committed + Committed(s.offsets), offsets := Fresh());
    forall tp ensures 0 <= At(t.committed, tp) <= At(t.position, tp) == At(s.position, tp) == LowMark(t, tp) {
      if tp in s.offsets.last {
        assert t.committed[tp] == s.offsets.last[tp] + 1;
      } else {
        assert At(t.committed, tp) == At(s.committed, tp);
      }
    }
    forall i: nat, tp | i < |s.sinks| ensures WrittenBelow(env, after, i, tp, At(t.committed, tp)) {
      WrittenLess(env, after, i, tp, At(t.committed, tp), At(s.position, tp));
    }
  }

  lemma WrittenLess(env: Env, sinks: seq<SinkState>, i: nat, tp: TP, lower: int, upTo: int)
    requires i < |sinks| && lower <= upTo && WrittenBelow(env, sinks, i, tp, upTo)
    ensures WrittenBelow(env, sinks, i, tp, lower)
  {
  }

  // ----- Runs -----

  lemma RestartOk(env: Env, s: System)
    requires Inv(env, s)
    ensures Inv(env, Restarted(s))
  {
    var t := Restarted(s);
    forall i: nat, tp | i < |s.sinks| ensures WrittenBelow(env, t.sinks, i, tp, At(s.committed, tp)) {
      StillWritten(env, s.sinks, t.sinks, i, tp, At(s.committed, tp));
    }
  }

  lemma StepOk(env: Env, s: System, e: Event)
    requires WellFormed(env) && Inv(env, s)
    ensures Inv(env, Step(env, s, e))
  {
    match e
    case Poll(tp, offset) =>
      if s.up && IsNext(env, s, tp, offset) {
        PollOk(env, s, tp, offset);
      }
    case Commit(outcomes, produced) =>
      if s.up && |outcomes| == |s.sinks| {
        if s.offsets.last == map[] {
          assert s.offsets.starting == map[];
        } else {
          CommitOk(env, s, outcomes, produced);
        }
      }
    case Crash =>
    case Restart => RestartOk(env, s);
  }

  lemma {:induction false} RunOk(env: Env, events: seq<Event>)
    requires WellFormed(env)
    ensures Inv(env, Run(env, events))
  {
    hide Inv, Step;
    if events == [] {
      StartOk(env);
    } else {
      RunOk(env, events[..|events| - 1]);
      StepOk(env, Run(env, events[..|events| - 1]), events[|events| - 1]);
    }
  }

  /**
   * In every run, each record below a committed offset has been through a successful write of every
   * sink it reaches.
   */
  lemma AtLeastOnce(env: Env, events: seq<Event>, tp: TP, o: int, i: nat)
    requires WellFormed(env) && i < env.sinks
    requires env.log(tp, o) && env.reaches(i, tp, o) && o < At(Run(env, events).committed, tp)
    ensures |Run(env, events).sinks| == env.sinks && (tp, o) in Run(env, events).sinks[i].written
  {
    RunOk(env, events);
    assert WrittenBelow(env, Run(env, events).sinks, i, tp, At(Run(env, events).committed, tp));
  }

  /**
   * Sink k is the first to push back: those before it have all they held written, it has what was
   * taken, and those behind it have nothing written.
   */
  ghost predicate PushedBackAt(before: seq<SinkState>, after: seq<SinkState>, outcomes: seq<Outcome>, k: nat)
    requires |before| == |after| == |outcomes|
  {
    && k < |outcomes| && outcomes[k].PushedBack? && (forall i :: 0 <= i < k ==> outcomes[i].Through?)
    && (forall i, tp, o :: 0 <= i < k ==>
            after[i].written[(tp, o)] == before[i].written[(tp, o)] + if o in BatchOf(before[i], tp) then 1 else 0)
    && (forall tp, o ::
            after[k].written[(tp, o)]
            == before[k].written[(tp, o)] + if tp in outcomes[k].first && o in BatchOf(before[k], tp) then 1 else 0)
    && forall i :: k < i < |after| ==> after[i].written == before[i].written
  }

  lemma FirstPushesBack(sinks: seq<SinkState>, outcomes: seq<Outcome>)
    requires |sinks| == |outcomes| && FlushAll(sinks, outcomes).1 == Backpressured
    ensures PushedBackAt(sinks, FlushAll(sinks, outcomes).0, outcomes, FirstStop(outcomes))
  {
    hide FlushUpTo, BatchOf, FlushSink;
    FlushExact(sinks, outcomes, |sinks|, FirstStop(outcomes));
  }

  /**
   * A commit that meets backpressure: the sinks before the one that pushes back are written, those
   * behind it are not, all batches are empty, nothing is committed, and exactly the partitions of
   * the checkpoint are rewound, each to its first offset in it.
   */
  lemma BackpressureRewinds(env: Env, events: seq<Event>, outcomes: seq<Outcome>, produced: bool)
    requires WellFormed(env)
    requires var s := Run(env, events);
             s.up && s.offsets.last != map[] && |outcomes| == |s.sinks|
             && FlushAll(s.sinks, outcomes).1 == Backpressured
    ensures var s, t := Run(env, events), Step(env, Run(env, events), Commit(outcomes, produced));
            && t.up && t.committed == s.committed && t.offsets == Fresh()
            && |t.sinks| == |s.sinks| && (exists k: nat :: PushedBackAt(s.sinks, t.sinks, outcomes, k))
            && (forall i :: 0 <= i < |t.sinks| ==> t.sinks[i].batches == map[])
            && (forall tp :: tp in s.offsets.last ==>
                    tp in s.offsets.starting && At(t.position, tp) == s.offsets.starting[tp] < At(s.position, tp))
            && forall tp :: tp !in s.offsets.last ==> At(t.position, tp) == At(s.position, tp)
  {
    RunOk(env, events);
    var s := Run(env, events);
    FlushOk(s.sinks, outcomes);
    FirstPushesBack(s.sinks, outcomes);
    hide FlushUpTo, Run, PushedBackAt, NothingElse, Waiting, WrittenBelow, LowMark;
  }

  /** What waits for a sink is exactly what reaches it since the first offset of the checkpoint, in offset order. */
  lemma BatchesExact(env: Env, events: seq<Event>, i: nat, tp: TP)
    requires WellFormed(env) && i < env.sinks && Run(env, events).up
    ensures |Run(env, events).sinks| == env.sinks && Waiting(env, Run(env, events), i, tp)
  {
    RunOk(env, events);
    hide Run;
  }

  /** A commit that goes through commits one past the last record processed of each partition of the checkpoint. */
  lemma CommitAdvances(env: Env, events: seq<Event>, outcomes: seq<Outcome>)
    requires WellFormed(env)
    requires var s := Run(env, events);
             s.up && s.offsets.last != map[] && |outcomes| == |s.sinks| && FlushAll(s.sinks, outcomes).1 == Fine
    ensures var s, t := Run(env, events), Step(env, Run(env, events), Commit(outcomes, true));
            && t.up && t.position == s.position
            && (forall tp :: tp !in s.offsets.last ==> At(t.committed, tp) == At(s.committed, tp))
            && (forall tp :: tp in s.offsets.last ==>
                  && env.log(tp, At(t.committed, tp) - 1) && !env.ignored(tp, At(t.committed, tp) - 1)
                  && At(t.committed, tp) <= At(s.position, tp)
                  && forall o :: At(t.committed, tp) <= o < At(s.position, tp) && env.log(tp, o) ==> env.ignored(tp, o))
  {
    RunOk(env, events);
    hide FlushUpTo, Run, NothingElse, Waiting, WrittenBelow, LowMark, OffsetsOk, At, Committed;
    AdvanceIs(env, Run(env, events));
  }

  lemma AdvanceIs(env: Env, s: System)
    requires OffsetsOk(s, env)
    ensures var committed := s.committed + Committed(s.offsets);
            && (forall tp :: tp !in s.offsets.last ==> At(committed, tp) == At(s.committed, tp))
            && (forall tp :: tp in s.offsets.last ==>
                  && env.log(tp, At(committed, tp) - 1) && !env.ignored(tp, At(committed, tp) - 1)
                  && At(committed, tp) <= At(s.position, tp)
                  && forall o :: At(committed, tp) <= o < At(s.position, tp) && env.log(tp, o) ==> env.ignored(tp, o))
  {
  }

  /** In every run, nothing is ever written but records of the log that reach the sink. */
  lemma OnlyRecords(env: Env, events: seq<Event>, i: nat, tp: TP, o: int)
    requires WellFormed(env) && i < env.sinks
    ensures |Run(env, events).sinks| == env.sinks
    ensures (tp, o) in Run(env, events).sinks[i].written ==> env.log(tp, o) && env.reaches(i, tp, o)
  {
    RunOk(env, events);
    hide Run;
  }

  /** Storing an offset never fails: offsets go up within a checkpoint, even after rewinding. */
  lemma OffsetsGoUp(env: Env, events: seq<Event>, tp: TP, offset: int)
    requires WellFormed(env)
    requires Run(env, events).up && IsNext(env, Run(env, events), tp, offset)
    ensures StoreOffset(Run(env, events).offsets, tp, offset).Some?
  {
    RunOk(env, events);
    hide Run;
  }

  // ----- Runs without faults -----

  /** Only starting, polls, and commits that go through in full. */
  ghost predicate Faultless(events: seq<Event>) {
    forall e :: e in events ==>
      e.Restart? || e.Poll? || (e.Commit? && e.produced && forall x :: x in e.outcomes ==> x.Through?)
  }

  /** Every record below the low mark that reaches sink i is written exactly once, and nothing else is. */
  ghost predicate Once(env: Env, s: System, i: nat, tp: TP)
    requires i < |s.sinks|
  {
    forall o :: s.sinks[i].written[(tp, o)]
                == if env.log(tp, o) && env.reaches(i, tp, o) && o < LowMark(s, tp) then 1 else 0
  }

  lemma OncePoll(env: Env, s: System, tp: TP, offset: int, i: nat, x: TP)
    requires WellFormed(env) && Inv(env, s) && s.up && IsNext(env, s, tp, offset) && i < |s.sinks| && Once(env, s, i, x)
    ensures var t := ProcessRecord(env, s, tp, offset); |t.sinks| == |s.sinks| && Once(env, t, i, x)
  {
    PollFacts(env, s, tp, offset);
    PollBatches(env, s, tp, offset, i);
    LowMarkIs(s, tp);
    hide ProcessRecord, OffsetsOk, LowMark, Waiting, WrittenBelow, NothingElse;
  }

  lemma OnceCommit(env: Env, s: System, outcomes: seq<Outcome>, i: nat, tp: TP)
    requires WellFormed(env) && Inv(env, s) && s.up && |outcomes| == |s.sinks| && i < |s.sinks| && Once(env, s, i, tp)
    requires forall x :: x in outcomes ==> x.Through?
    ensures var t := CommitCheckpoint(s, outcomes, true); t.up && |t.sinks| == |s.sinks| && Once(env, t, i, tp)
  {
    hide FlushUpTo, WrittenBelow, NothingElse, BatchOf;
    if s.offsets.last != map[] {
      AllThrough(s.sinks, outcomes);
      FlushOk(s.sinks, outcomes);
      assert Waiting(env, s, i, tp);
      OnceMore(env, s, FlushAll(s.sinks, outcomes).0[i], i, tp);
    }
  }

  lemma AllThrough(sinks: seq<SinkState>, outcomes: seq<Outcome>)
    requires |sinks| == |outcomes| && forall x :: x in outcomes ==> x.Through?
    ensures FlushAll(sinks, outcomes).1 == Fine
  {
    hide FlushUpTo;
    assert forall i :: 0 <= i < |outcomes| ==> outcomes[i] in outcomes;
    FlushExact(sinks, outcomes, |sinks|, |sinks|);
  }

  /** Writing what waits makes the position the low mark. */
  lemma OnceMore(env: Env, s: System, after: SinkState, i: nat, tp: TP)
    requires i < |s.sinks| && Once(env, s, i, tp) && Waiting(env, s, i, tp) && LowMark(s, tp) <= At(s.position, tp)
    requires forall o :: after.written[(tp, o)]
                         == s.sinks[i].written[(tp, o)] + if o in BatchOf(s.sinks[i], tp) then 1 else 0
    ensures forall o :: after.written[(tp, o)]
                        == if env.log(tp, o) && env.reaches(i, tp, o) && o < At(s.position, tp) then 1 else 0
  {
    hide BatchOf, LowMark, At;
  }

  lemma FaultlessPrefix(events: seq<Event>)
    requires Faultless(events) && events != []
    ensures Faultless(events[..|events| - 1])
    ensures var e := events[|events| - 1];
            e.Restart? || e.Poll? || (e.Commit? && e.produced && forall x :: x in e.outcomes ==> x.Through?)
  {
  }

  /**
   * Without faults delivery is exactly once: each record that has left the current checkpoint has
   * been written once to each sink it reaches, and no other record has been written.
   */
  lemma {:induction false} ExactlyOnce(env: Env, events: seq<Event>, i: nat, tp: TP)
    requires WellFormed(env) && Faultless(events) && i < env.sinks
    ensures var s := Run(env, events);
            if s.up then |s.sinks| == env.sinks && Once(env, s, i, tp) else s == Initial(env)
  {
    RunOk(env, events);
    if events != [] {
      var before, e := events[..|events| - 1], events[|events| - 1];
      var s := Run(env, before);
      FaultlessPrefix(events);
      ExactlyOnce(env, before, i, tp);
      RunOk(env, before);
      OnceStart(env, i, tp);
      hide Run, ProcessRecord, CommitCheckpoint, Once, IsNext, OffsetsOk, Waiting, WrittenBelow, NothingElse, Restarted,
           Initial;
      if s.up && e.Poll? && IsNext(env, s, e.tp, e.offset) {
        OncePoll(env, s, e.tp, e.offset, i, tp);
        PollOk(env, s, e.tp, e.offset);
      } else if s.up && e.Commit? && |e.outcomes| == |s.sinks| {
        OnceCommit(env, s, e.outcomes, i, tp);
      }
    }
  }

  lemma OnceStart(env: Env, i: nat, tp: TP)
    requires WellFormed(env) && i < env.sinks
    ensures !Initial(env).up
    ensures var s := Restarted(Initial(env)); s.up && |s.sinks| == env.sinks && Once(env, s, i, tp)
  {
  }
}
