/**
 * Checkpoints, changelogs and recovery as a protocol (checkpointing/checkpoint.py, state/recovery.py).
 *
 * One partition number: its input topics, its stores, and one changelog per store. The input is
 * read in a fixed order; processing a record is a function of the state and the record. The
 * fields batchStart, batchEnd and done are positions in the input; they are there for the
 * specification, and no step consults them.
 */
module Protocol {
  import opened Wrappers

  /** A state key: the store it belongs to, and the serialized key within it. */
  datatype Key = Key(store: string, name: string)

  datatype Record<X> = Record(topic: string, offset: int, value: X)

  /** Writes of a transaction: None deletes the key. */
  type Writes<V> = map<Key, Option<V>>

  /** The application: its input in processing order, and what it writes for each record. */
  datatype Program<!X, !V> = Program(input: seq<Record<X>>, stores: set<string>,
                                     writes: (map<Key, V>, Record<X>) -> Writes<V>)

  const NO_OFFSET := -1001
  const OFFSET_BEGINNING := -2

  /** One changelog record, with the processed offsets of its checkpoint in the header. */
  datatype LogRecord<V> = LogRecord(key: Key, value: Option<V>, processed: map<string, int>, batchStart: nat,
                                    batchEnd: nat)

  datatype App<V> =
    | Down
    | Recovering(positions: map<string, int>, highwaters: map<string, int>)
    | Processing(cache: Writes<V>, tpOffsets: map<string, int>, next: nat)
    | Producing(cache: Writes<V>, tpOffsets: map<string, int>, next: nat, remaining: set<Key>)
    | Flushing(cache: Writes<V>, next: nat, pending: set<string>)

  /** The broker's committed offsets and changelogs, the stores on disk, and the running application. */
  datatype System<V> = System(
    committed: map<string, int>,
    logs: map<string, seq<LogRecord<V>>>,
    data: map<Key, V>,
    offsets: map<string, int>,
    app: App<V>,
    done: nat)

  datatype Event =
    | Assign
    | RecoverNext(store: string)
    | RecoverEnd(store: string)
    | Start
    | Process
    | BeginCommit
    | Produce(key: Key)
    | CommitOffsets
    | FlushStore(store: string)
    | EndCommit
    | Crash
    | LoseStore(store: string)

  function Put<V>(data: map<Key, V>, k: Key, v: Option<V>): map<Key, V> {
    if v.Some? then data[k := v.value] else data - {k}
  }

  function Get<V>(data: map<Key, V>, k: Key): Option<V> {
    if k in data then Some(data[k]) else None
  }

  /** Reading through the transaction's update cache. */
  function Overlay<V>(data: map<Key, V>, w: Writes<V>): map<Key, V> {
    map k | k in data.Keys + w.Keys && (k in w ==> w[k].Some?) :: if k in w then w[k].value else data[k]
  }

  function OffsetOf(offsets: map<string, int>, topic: string, default: int): int {
    if topic in offsets then offsets[topic] else default
  }

  /** Where consuming resumes: the first record that no committed offset covers. */
  function Position<X>(input: seq<Record<X>>, committed: map<string, int>, i: nat): nat
    decreases |input| - i
  {
    if i < |input| && input[i].offset < OffsetOf(committed, input[i].topic, NO_OFFSET)
        then Position(input, committed, i + 1) else i
  }

  /** The last processed offset of each topic in input[from..upTo). */
  function Processed<X>(input: seq<Record<X>>, from: nat, upTo: nat): map<string, int>
    requires upTo <= |input|
  {
    if from >= upTo then map[]
    else Processed(input, from, upTo - 1)[input[upTo - 1].topic := input[upTo - 1].offset]
  }

  /** The next offset of each processed topic, as committed to the broker. */
  function NextOffsets(processed: map<string, int>): map<string, int> {
    map t | t in processed :: processed[t] + 1
  }

  /** _should_apply_changelog: skip a record with an offset at or above the committed one. */
  predicate ShouldApply(committed: map<string, int>, processed: map<string, int>) {
    forall t :: t in processed ==> processed[t] < OffsetOf(committed, t, NO_OFFSET)
  }

  predicate NeedsRecovery(length: int, offset: int) {
    length != 0 && length - 1 > offset
  }

  predicate InvalidOffset(length: int, offset: int) {
    length != 0 && length <= offset
  }

  /** The state after the first n input records. */
  function Fold<X, V>(p: Program<X, V>, n: nat): map<Key, V>
    requires n <= |p.input|
  {
    if n == 0 then map[] else Overlay(Fold(p, n - 1), p.writes(Fold(p, n - 1), p.input[n - 1]))
  }

  predicate Wired<V>(s: System<V>, stores: set<string>) {
    s.logs.Keys == stores && s.offsets.Keys == stores
  }

  function Initial<X, V>(p: Program<X, V>): System<V> {
    System(map[], map t | t in p.stores :: [], map[], map t | t in p.stores :: OFFSET_BEGINNING, Down, 0)
  }

  /** assign_partition for every store: refuse an invalid offset, else recover the stores that may be behind. */
  function AssignStep<V>(s: System<V>): System<V>
    requires s.logs.Keys == s.offsets.Keys
  {
    if exists t :: t in s.logs && InvalidOffset(|s.logs[t]|, s.offsets[t]) then s
    else
      var behind := set t | t in s.logs && NeedsRecovery(|s.logs[t]|, s.offsets[t]);
      s.(app := Recovering(map t | t in behind :: if s.offsets[t] < 0 then 0 else s.offsets[t],
                           map t | t in behind :: |s.logs[t]|))
  }

  /** recover_from_changelog_message: apply or skip, and in both cases move the stored changelog offset. */
  function RecoverRecord<V>(s: System<V>, t: string, position: nat): System<V>
    requires t in s.logs && position < |s.logs[t]|
  {
    var r := s.logs[t][position];
    s.(data := if ShouldApply(s.committed, r.processed) then Put(s.data, r.key, r.value) else s.data,
       offsets := s.offsets[t := position])
  }

  /**
   * Flushing one store: its part of the cache, and the offset of its last changelog record, unless
   * nothing changed in it.
   */
  function FlushOne<V>(s: System<V>, cache: Writes<V>, t: string): System<V>
    requires t in s.logs
  {
    var own := map k | k in cache && k.store == t :: cache[k];
    if own == map[] then s
    else s.(data := Overlay(s.data, own), offsets := s.offsets[t := |s.logs[t]| - 1])
  }

  /**
   * One record: its writes go to the cache, its offset to the checkpoint; an offset that does not
   * increase is an error.
   */
  function ProcessStep<X, V>(p: Program<X, V>, s: System<V>): System<V>
    requires s.app.Processing? && s.app.next < |p.input|
  {
    var r := p.input[s.app.next];
    if r.offset <= OffsetOf(s.app.tpOffsets, r.topic, -1) then s.(app := Down)
    else s.(app := Processing(s.app.cache + p.writes(Overlay(s.data, s.app.cache), r),
                              s.app.tpOffsets[r.topic := r.offset], s.app.next + 1))
  }

  /** The state directory of a store is gone: nothing is stored, and reading starts at the beginning. */
  function LoseOne<V>(s: System<V>, t: string): System<V> {
    s.(data := map k | k in s.data && k.store != t :: s.data[k], offsets := s.offsets[t := OFFSET_BEGINNING])
  }

  /** One step; an event that is not enabled changes nothing. */
  function Step<X, V>(p: Program<X, V>, s: System<V>, e: Event): System<V>
    requires Wired(s, p.stores)
  {
    match e
    case Crash => s.(app := Down)
    case LoseStore(t) => if s.app.Down? && t in s.logs then LoseOne(s, t) else s
    case Assign => if s.app.Down? then AssignStep(s) else s
    case RecoverNext(t) =>
      if s.app.Recovering? && t in s.app.positions && t in s.app.highwaters && t in s.logs
         && 0 <= s.app.positions[t] < s.app.highwaters[t] && s.app.positions[t] < |s.logs[t]|
      then
        var position := s.app.positions[t];
        RecoverRecord(s, t, position).(app := s.app.(positions := s.app.positions[t := position + 1]))
      else s
    case RecoverEnd(t) =>
      if s.app.Recovering? && t in s.app.positions && t in s.app.highwaters && s.app.positions[t] == s.app.highwaters[t]
      then s.(app := s.app.(positions := s.app.positions - {t})) else s
    case Start =>
      if s.app.Recovering? && s.app.positions == map[]
          then s.(app := Processing(map[], map[], Position(p.input, s.committed, 0))) else s
    case Process => if s.app.Processing? && s.app.next < |p.input| then ProcessStep(p, s) else s
    case BeginCommit =>
      if s.app.Processing? && s.app.tpOffsets != map[]
      then s.(app := Producing(s.app.cache, s.app.tpOffsets, s.app.next, s.app.cache.Keys)) else s
    case Produce(k) =>
      if s.app.Producing? && k in s.app.remaining && k in s.app.cache && k.store in s.logs
      then
        var r := LogRecord(k, s.app.cache[k], s.app.tpOffsets, s.done, s.app.next);
        s.(logs := s.logs[k.store := s.logs[k.store] + [r]], app := s.app.(remaining := s.app.remaining - {k}))
      else s
    case CommitOffsets =>
      if s.app.Producing? && s.app.remaining == {}
      then s.(committed := s.committed + NextOffsets(s.app.tpOffsets),
              app := Flushing(s.app.cache, s.app.next, s.logs.Keys), done := s.app.next)
      else s
    case FlushStore(t) =>
      if s.app.Flushing? && t in s.app.pending && t in s.logs
      then FlushOne(s, s.app.cache, t).(app := s.app.(pending := s.app.pending - {t})) else s
    case EndCommit =>
      if s.app.Flushing? && s.app.pending == {} then s.(app := Processing(map[], map[], s.app.next)) else s
  }

  lemma StepWired<X, V>(p: Program<X, V>, s: System<V>, e: Event)
    requires Wired(s, p.stores)
    ensures Wired(Step(p, s, e), p.stores)
  {
  }

  /** Any sequence of events. */
  function Run<X, V>(p: Program<X, V>, events: seq<Event>): (s: System<V>)
    ensures Wired(s, p.stores)
  {
    if events == [] then Initial(p)
    else
      StepWired(p, Run(p, events[..|events| - 1]), events[|events| - 1]);
      Step(p, Run(p, events[..|events| - 1]), events[|events| - 1])
  }
}
