/** Recovery as the code runs it: one store partition, its changelog, and the loop that reads it to the end. */
module ProtocolRecovery {
  import opened Wrappers
  import opened Protocol
  import opened ProtocolFold
  import opened ProtocolSafety

  /** A store after replaying log[from..upTo) under the filter. */
  function Replay<V>(committed: map<string, int>, log: seq<LogRecord<V>>, from: nat, upTo: nat,
                     data: map<Key, V>): map<Key, V>
    requires upTo <= |log|
    decreases upTo
  {
    if from >= upTo then data
    else
      var rest := Replay(committed, log, from, upTo - 1, data);
      var r := log[upTo - 1];
      if ShouldApply(committed, r.processed) then Put(rest, r.key, r.value) else rest
  }

  /** A message field as the client hands it over: bytes, nothing, or another type. */
  datatype Field<T> = Bytes(content: T) | Nothing | Other

  /** A message read from a changelog; the column family is empty if its header is missing. */
  datatype ChangelogMessage<V> =
    ChangelogMessage(columnFamily: string, key: Field<Key>, value: Field<V>, processed: Option<map<string, int>>)

  datatype RecoverResult = Applied | Skipped | NoColumnFamily | BadKey | BadValue

  function ValueOf<V>(f: Field<V>): Option<V> { if f.Bytes? then Some(f.content) else None }

  /** A changelog record as it was produced. */
  function Sent<V>(r: LogRecord<V>): ChangelogMessage<V> {
    ChangelogMessage("default", Bytes(r.key),
                     if r.value.Some? then Bytes(r.value.value) else Nothing, Some(r.processed))
  }

  /** A store partition on disk. */
  class StorePartition<V> {
    var data: map<Key, V>
    var offset: int

    constructor (data: map<Key, V>, offset: int)
      ensures this.data == data && this.offset == offset
    {
      this.data, this.offset := data, offset;
    }
  }

  class RecoveryPartition<V> {
    const store: StorePartition<V>
    const committed: map<string, int>
    const lowwater: int
    const highwater: int
    var consumePosition: int

    constructor (store: StorePartition<V>, committed: map<string, int>, lowwater: int, highwater: int)
      ensures this.store == store && this.committed == committed && this.lowwater == lowwater
              && this.highwater == highwater
      ensures consumePosition == -1
    {
      this.store, this.committed, this.lowwater, this.highwater, consumePosition := store, committed, lowwater,
          highwater, -1;
    }

    predicate NeedsRecoveryCheck()
      reads store
    {
      lowwater != highwater && highwater - 1 > store.offset
    }

    predicate FinishedRecoveryCheck()
      reads this
    {
      consumePosition == highwater
    }

    method ShouldApplyChangelog(processed: map<string, int>) returns (apply: bool)
      ensures apply == ShouldApply(committed, processed)
    {
      apply := true;
      var topics := processed.Keys;
      while topics != {} && apply
        invariant apply ==>
                    forall t :: t in processed && t !in topics ==> processed[t] < OffsetOf(committed, t, NO_OFFSET)
        invariant !apply ==> exists t :: t in processed && processed[t] >= OffsetOf(committed, t, NO_OFFSET)
        invariant topics <= processed.Keys
        decreases topics, apply
      {
        var t :| t in topics;
        if processed[t] >= OffsetOf(committed, t, NO_OFFSET) {
          apply := false;
        } else {
          topics := topics - {t};
        }
      }
    }

    /**
     * Applies or skips one changelog message; either way the stored offset moves to it. A message
     * without processed offsets, from an older version, is applied. An error leaves the store as it is.
     */
    method RecoverFromChangelogMessage(m: ChangelogMessage<V>, position: nat) returns (r: RecoverResult)
      modifies store
      ensures r == if m.columnFamily == "" then NoColumnFamily
                   else if m.processed.Some? && !ShouldApply(committed, m.processed.value) then Skipped
                   else if !m.key.Bytes? then BadKey
                   else if m.value.Other? then BadValue
                   else Applied
      ensures store.data == if r.Applied? then Put(old(store.data), m.key.content, ValueOf(m.value))
              else old(store.data)
      ensures store.offset == if r.Applied? || r.Skipped? then position else old(store.offset)
    {
      hide ShouldApply;
      if m.columnFamily == "" {
        return NoColumnFamily;
      }
      var apply := true;
      if m.processed.Some? {
        apply := ShouldApplyChangelog(m.processed.value);
      }
      if apply {
        if !m.key.Bytes? {
          return BadKey;
        }
        if m.value.Other? {
          return BadValue;
        }
        store.data := Put(store.data, m.key.content, ValueOf(m.value));
        store.offset := position;
        r := Applied;
      } else {
        store.offset := position;
        r := Skipped;
      }
    }

    /** Where reading starts: at the stored offset; if that is out of range, the client's reset policy decides. */
    function StartOf(offset: int, resetToEnd: bool): int {
      if offset < 0 then lowwater
      else if offset < lowwater then if resetToEnd then highwater else lowwater
      else offset
    }

    /**
     * Reads the changelog, whose first record stands at lowwater, up to its highwater: from the
     * stored offset on, from the beginning if there is none, and if the offset is out of range from
     * where the client's reset policy says.
     */
    method DoRecovery(log: seq<LogRecord<V>>, resetToEnd: bool)
      requires 0 <= lowwater && highwater == lowwater + |log| && NeedsRecoveryCheck() && consumePosition == -1
      modifies this, store
      ensures FinishedRecoveryCheck()
      ensures old(store.offset) >= lowwater ==>
                && store.data == Replay(committed, log, old(store.offset) - lowwater, |log|, old(store.data))
                && store.offset == highwater - 1
      ensures old(store.offset) < 0 || (old(store.offset) < lowwater && !resetToEnd) ==>
                && store.data == Replay(committed, log, 0, |log|, old(store.data))
                && store.offset == highwater - 1
      ensures 0 <= old(store.offset) < lowwater && resetToEnd ==>
                store.data == old(store.data) && store.offset == old(store.offset)
    {
      hide ShouldApply, Put;
      ghost var from, before, offset := StartOf(store.offset, resetToEnd), store.data, store.offset;
      var position := StartOf(store.offset, resetToEnd);
      while consumePosition != highwater
        invariant from <= position <= highwater
        invariant store.data == Replay(committed, log, from - lowwater, position - lowwater, before)
        invariant store.offset == if position > from then position - 1 else offset
        invariant consumePosition == -1 || (consumePosition == highwater && position == highwater)
        decreases highwater - position, consumePosition != highwater
      {
        if position == highwater {
          consumePosition := position;
        } else {
          var _ := RecoverFromChangelogMessage(Sent(log[position - lowwater]), position);
          position := position + 1;
        }
      }
    }
  }

  // ----- What the loop restores -----

  /** Each key of the store is up to date, or its committed value stands beyond the offset. */
  ghost predicate StoreOk<X, V>(p: Program<X, V>, t: string, log: seq<LogRecord<V>>, done: nat, offset: int,
                                data: map<Key, V>)
    requires done <= |p.input|
  {
    forall k: Key :: k.store == t ==> Get(data, k) == Get(Fold(p, done), k) || Ahead(log, offset, done, k)
  }

  /** Replaying under the filter keeps the store recoverable, record by record. */
  lemma {:induction false} ReplayStore<X(!new), V(!new)>(p: Program<X, V>, t: string, log: seq<LogRecord<V>>, done: nat,
                                                         from: nat, upTo: nat, offset: int, data: map<Key, V>)
    requires WellFormed(p) && done <= |p.input| && LogOk(p, t, log, done) && StoreOk(p, t, log, done, offset, data)
    requires from <= upTo <= |log| && (from <= offset + 1 || from == 0)
    ensures StoreOk(p, t, log, done, if upTo > from then upTo - 1 else offset,
                    Replay(Committed(p.input, done), log, from, upTo, data))
    decreases upTo
  {
    hide Fold, Ahead, LogOk, Get, Put, ShouldApply, Committed, WellFormed;
    if from < upTo {
      var n, committed := upTo - 1, Committed(p.input, done);
      ReplayStore(p, t, log, done, from, n, offset, data);
      AdmittedIff(p, t, log, done, n);
      var before := Replay(committed, log, from, n, data);
      forall k: Key | k.store == t
        ensures Get(Replay(committed, log, from, upTo, data), k) == Get(Fold(p, done), k) || Ahead(log, n, done, k)
      {
        ReplayKey(p, t, log, done, n, if n > from then n - 1 else offset, before,
                  Replay(committed, log, from, upTo, data), k);
      }
    }
  }

  lemma AdmittedIff<X(!new), V(!new)>(p: Program<X, V>, t: string, log: seq<LogRecord<V>>, done: nat, n: nat)
    requires WellFormed(p) && done <= |p.input| && LogOk(p, t, log, done) && n < |log|
    ensures ShouldApply(Committed(p.input, done), log[n].processed) <==> log[n].batchEnd <= done
  {
    hide Fold, Processed, WritesOf, Committed, ShouldApply, Carries;
    assert RecordOk(p, log[n]);
    FilterIff(p.input, done, log[n].batchStart, log[n].batchEnd);
  }

  /** With the whole changelog behind it, a recoverable store holds the committed state. */
  lemma NothingAhead<X, V>(p: Program<X, V>, t: string, log: seq<LogRecord<V>>, done: nat, offset: int,
                           data: map<Key, V>)
    requires done <= |p.input| && StoreOk(p, t, log, done, offset, data) && offset >= |log| - 1
    ensures forall k: Key :: k.store == t ==> Get(data, k) == Get(Fold(p, done), k)
  {
  }

  /** A record of the changelog that the store has not seen. */
  predicate LiesAhead<V>(rp: RecoveryPartition<V>, position: int)
    reads rp.store
  {
    rp.lowwater <= position < rp.highwater && rp.store.offset < position
  }

  /** The check before recovery is that of the protocol, and when it says no, no record lies ahead. */
  lemma NeedsIs<V>(rp: RecoveryPartition<V>, log: seq<LogRecord<V>>)
    requires 0 <= rp.lowwater && rp.highwater == rp.lowwater + |log|
    ensures rp.NeedsRecoveryCheck() <==> exists position :: LiesAhead(rp, position)
    ensures rp.lowwater == 0 ==> (rp.NeedsRecoveryCheck() <==> NeedsRecovery(|log|, rp.store.offset))
  {
    if rp.NeedsRecoveryCheck() {
      assert LiesAhead(rp, rp.highwater - 1);
    }
  }

  /** In every run, assignment sends through recovery the stores whose check says so, from where the loop starts. */
  lemma AssignAgrees<X(!new), V(!new)>(p: Program<X, V>, events: seq<Event>, t: string, rp: RecoveryPartition<V>,
                                       resetToEnd: bool)
    requires WellFormed(p) && t in p.stores && Run(p, events).app.Down?
    requires rp.lowwater == 0 && rp.highwater == |Run(p, events).logs[t]|
    requires rp.store.offset == Run(p, events).offsets[t]
    ensures
      var app := Step(p, Run(p, events), Assign).app;
      && app.Recovering? && (t in app.positions <==> rp.NeedsRecoveryCheck())
      && (t in app.positions ==>
            && t in app.highwaters && app.highwaters[t] == rp.highwater
            && app.positions[t] == rp.StartOf(rp.store.offset, resetToEnd))
  {
    NoInvalidOffset(p, events);
    hide InvalidOffset;
  }

  /**
   * Assignment and recovery of one store partition whose changelog and disk are as every run of the
   * protocol leaves them: afterwards the store holds exactly the fold of the committed input.
   */
  method RecoverPartition<X(!new), V(!new)>(rp: RecoveryPartition<V>, log: seq<LogRecord<V>>, ghost p: Program<X, V>,
                                            ghost t: string, ghost done: nat)
    requires rp.lowwater == 0 && rp.highwater == |log| && rp.consumePosition == -1
    requires WellFormed(p) && done <= |p.input| && LogOk(p, t, log, done) && rp.committed == Committed(p.input, done)
    requires -2 <= rp.store.offset && StoreOk(p, t, log, done, rp.store.offset, rp.store.data)
    modifies rp, rp.store
    ensures forall k: Key :: k.store == t ==> Get(rp.store.data, k) == Get(Fold(p, done), k)
    ensures log != [] ==> rp.store.offset >= |log| - 1
  {
    hide Fold, LogOk, Committed, WellFormed, StoreOk, Replay;
    ghost var offset, data := rp.store.offset, rp.store.data;
    if rp.NeedsRecoveryCheck() {
      rp.DoRecovery(log, false);
      ReplayStore(p, t, log, done, if offset < 0 then 0 else offset, |log|, offset, data);
    } else if log == [] {
      NothingLogged(p, t, done, offset, data);
    }
    NothingAhead(p, t, log, done, if log == [] then -1 else rp.store.offset, rp.store.data);
  }

  lemma NothingLogged<X, V>(p: Program<X, V>, t: string, done: nat, offset: int, data: map<Key, V>)
    requires done <= |p.input| && StoreOk(p, t, [], done, offset, data)
    ensures StoreOk(p, t, [], done, -1, data)
  {
  }

  /** In every run, and so after a crash at any point, disks and changelogs are as RecoverPartition needs them. */
  lemma RunsRecoverable<X(!new), V(!new)>(p: Program<X, V>, events: seq<Event>, t: string)
    requires WellFormed(p) && t in p.stores
    ensures var s := Run(p, events);
            && s.done <= |p.input| && LogOk(p, t, s.logs[t], s.done) && s.committed == Committed(p.input, s.done)
            && -2 <= s.offsets[t] && StoreOk(p, t, s.logs[t], s.done, s.offsets[t], s.data)
  {
    hide Fold, LogOk, Committed, AppOk, Ahead;
    RunOk(p, events);
  }

  /** Reading on from a reachable state while the changelogs are replayed. */
  function Continue<X, V>(p: Program<X, V>, s: System<V>, events: seq<Event>): (r: System<V>)
    requires Wired(s, p.stores)
    ensures Wired(r, p.stores)
    decreases |events|
  {
    if events == [] then s
    else
      StepWired(p, s, events[0]);
      Continue(p, Step(p, s, events[0]), events[1..])
  }

  lemma {:induction false} ContinueJoin<X, V>(p: Program<X, V>, s: System<V>, x: seq<Event>, y: seq<Event>)
    requires Wired(s, p.stores)
    ensures Continue(p, s, x + y) == Continue(p, Continue(p, s, x), y)
    decreases |x|
  {
    if x == [] {
      assert x + y == y;
    } else {
      StepWired(p, s, x[0]);
      assert (x + y)[1..] == x[1..] + y;
      ContinueJoin(p, Step(p, s, x[0]), x[1..], y);
    }
  }

  lemma {:induction false} ReplayFront<V>(committed: map<string, int>, log: seq<LogRecord<V>>, from: nat, upTo: nat,
                                          data: map<Key, V>)
    requires from < upTo <= |log|
    ensures Replay(committed, log, from, upTo, data)
         == Replay(committed, log, from + 1, upTo,
                   if ShouldApply(committed, log[from].processed) then Put(data, log[from].key, log[from].value)
                   else data)
    decreases upTo
  {
    if from + 1 < upTo {
      ReplayFront(committed, log, from, upTo - 1, data);
    } else {
      assert Replay(committed, log, from, from, data) == data;
    }
  }

  /** One store's changelog can always be read to its end, and the steps amount to the replay of the recovery loop. */
  lemma RecoverStore<X(!new), V(!new)>(p: Program<X, V>, s: System<V>, t: string) returns (events: seq<Event>)
    requires Inv(p, s) && s.app.Recovering? && t in s.app.positions
    ensures Wired(s, p.stores) && t in s.logs && 0 <= s.app.positions[t]
    ensures
      var r := Continue(p, s, events);
      && Inv(p, r) && r.app.Recovering? && r.app.positions.Keys == s.app.positions.Keys - {t} && r.done == s.done
      && r.data == Replay(s.committed, s.logs[t], s.app.positions[t], |s.logs[t]|, s.data)
    decreases |s.logs[t]| - s.app.positions[t]
  {
    hide Inv, Step, ShouldApply, Put;
    PositionsInside(p, s, t);
    if s.app.positions[t] == s.app.highwaters[t] {
      var r := Step(p, s, RecoverEnd(t));
      StepOk(p, s, RecoverEnd(t));
      EndFrame(p, s, t);
      events := [RecoverEnd(t)];
      assert Continue(p, s, events) == Continue(p, r, []);
    } else {
      var r := Step(p, s, RecoverNext(t));
      StepOk(p, s, RecoverNext(t));
      NextFrame(p, s, t);
      ReplayFront(s.committed, s.logs[t], s.app.positions[t], |s.logs[t]|, s.data);
      var more := RecoverStore(p, r, t);
      events := [RecoverNext(t)] + more;
      assert events[1..] == more;
    }
  }

  lemma PositionsInside<X(!new), V(!new)>(p: Program<X, V>, s: System<V>, t: string)
    requires Inv(p, s) && s.app.Recovering? && t in s.app.positions
    ensures Wired(s, p.stores) && t in p.stores && t in s.app.highwaters
            && 0 <= s.app.positions[t] <= s.app.highwaters[t] == |s.logs[t]|
  {
    hide DiskOk, LogOk, Fold;
  }

  lemma EndFrame<X(!new), V(!new)>(p: Program<X, V>, s: System<V>, t: string)
    requires Inv(p, s) && s.app.Recovering? && t in s.app.positions && t in s.app.highwaters
             && s.app.positions[t] == s.app.highwaters[t]
    ensures Step(p, s, RecoverEnd(t)) == s.(app := s.app.(positions := s.app.positions - {t}))
  {
  }

  lemma NextFrame<X(!new), V(!new)>(p: Program<X, V>, s: System<V>, t: string)
    requires Inv(p, s) && s.app.Recovering? && t in s.app.positions && s.app.positions[t] < s.app.highwaters[t]
    ensures
      var r := Step(p, s, RecoverNext(t));
      && r.app == s.app.(positions := s.app.positions[t := s.app.positions[t] + 1]) && r.logs == s.logs
         && r.done == s.done
      && r.committed == s.committed && 0 <= s.app.positions[t] < |s.logs[t]|
      && r.data == var l := s.logs[t][s.app.positions[t]];
                   if ShouldApply(s.committed, l.processed) then Put(s.data, l.key, l.value) else s.data
  {
    hide DiskOk, LogOk, Fold;
  }

  lemma RecoverAll<X(!new), V(!new)>(p: Program<X, V>, s: System<V>) returns (events: seq<Event>)
    requires Inv(p, s) && s.app.Recovering?
    ensures
      var r := Continue(p, s, events);
      Inv(p, r) && r.app.Recovering? && r.app.positions == map[] && r.done == s.done
    decreases |s.app.positions.Keys|
  {
    hide Inv;
    InvCommitted(p, s);
    if s.app.positions == map[] {
      events := [];
    } else {
      var t :| t in s.app.positions;
      var first := RecoverStore(p, s, t);
      var r := Continue(p, s, first);
      var more := RecoverAll(p, r);
      events := first + more;
      ContinueJoin(p, s, first, more);
    }
  }

  /**
   * Recovery always can complete: after a crash at any point of any run there is a way through
   * recovery, and it ends processing on exactly the fold of the committed records.
   */
  lemma CrashRecovers<X(!new), V(!new)>(p: Program<X, V>, events: seq<Event>) returns (more: seq<Event>)
    requires WellFormed(p)
    ensures
      var s := Run(p, events);
      var r := Continue(p, s, [Crash, Assign] + more);
      && r.app == Processing(map[], map[], s.done) && r.done == s.done <= |p.input|
      && r.data == Fold(p, s.done) && r.committed == s.committed
  {
    hide Inv, Fold, Position, AssignStep;
    RunOk(p, events);
    var s := Run(p, events);
    var down := Step(p, s, Crash);
    StepOk(p, s, Crash);
    AssignFacts(p, down);
    var up := Step(p, down, Assign);
    StepOk(p, down, Assign);
    InvCommitted(p, up);
    var recover := RecoverAll(p, up);
    var r := Continue(p, up, recover);
    more := recover + [Start];
    ContinueJoin(p, up, recover, [Start]);
    RecoveredFacts(p, r);
    assert ([Crash, Assign] + more)[1..][1..] == more;
    assert ([Crash, Assign] + more)[1..][0] == Assign;
    assert Continue(p, r, [Start]) == Continue(p, Step(p, r, Start), []);
    InvCommitted(p, s);
    InvCommitted(p, r);
    StepOk(p, r, Start);
    InvCommitted(p, Step(p, r, Start));
  }

  lemma InvCommitted<X(!new), V(!new)>(p: Program<X, V>, s: System<V>)
    requires Inv(p, s)
    ensures Wired(s, p.stores) && s.done <= |p.input| && s.committed == Committed(p.input, s.done)
  {
  }

  lemma AssignFacts<X(!new), V(!new)>(p: Program<X, V>, s: System<V>)
    requires Inv(p, s) && s.app.Down?
    ensures Step(p, s, Assign).app.Recovering? && Step(p, s, Assign).done == s.done
  {
    AssignOk(p, s);
  }

  lemma RecoveredFacts<X(!new), V(!new)>(p: Program<X, V>, s: System<V>)
    requires Inv(p, s) && s.app.Recovering? && s.app.positions == map[]
    ensures Step(p, s, Start) == s.(app := Processing(map[], map[], s.done)) && s.data == Fold(p, s.done)
  {
    hide Fold;
    Recovered(p, s);
  }
}
