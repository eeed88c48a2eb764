/** The interval join (joins/join_interval.py) over two timestamped stores. */
module IntervalJoin {
  import opened Wrappers
  import opened TimestampedStore

  datatype How = Inner | LeftJoin | RightJoin | Outer

  datatype Config = Config(how: How, grace: nat, backward: nat, forward: nat) {
    predicate EmitsLone(left: bool) {
      how == Outer || how == if left then LeftJoin else RightJoin
    }
  }

  /** The constructor refuses a backward reach beyond the grace period, and only that. */
  function Create(how: How, grace: nat, backward: nat, forward: nat): Option<Config> {
    if backward > grace then None else Some(Config(how, grace, backward, forward))
  }

  datatype Rec<V> = Rec(key: Key, ts: int, value: V)

  /** What is handed to the merger. */
  datatype Joined<V> = Joined(left: Option<V>, right: Option<V>)

  datatype Event<V> = Left(rec: Rec<V>) | Right(rec: Rec<V>) | Checkpoint

  datatype State<V> = State(left: Side<V>, right: Side<V>)

  function EmptyState<V>(): State<V> { State(EmptySide(), EmptySide()) }

  /** The output for a record, given the values it meets on the other side. */
  function Merged<V>(cfg: Config, left: bool, v: V, met: seq<V>): seq<Joined<V>> {
    if met != [] then seq(|met|, i requires 0 <= i < |met| =>
                          if left then Joined(Some(v), Some(met[i])) else Joined(Some(met[i]), Some(v)))
    else if cfg.EmitsLone(left) then [if left then Joined(Some(v), None) else Joined(None, Some(v))]
    else []
  }

  function Reach(cfg: Config, left: bool): nat { if left then cfg.backward else cfg.forward }

  function Step<V>(cfg: Config, st: State<V>, e: Event<V>): (State<V>, seq<Joined<V>>) {
    match e
    case Left(r) =>
      (st.(left := Put(st.left, cfg.grace, r.key, r.ts, r.value)),
       Merged(cfg, true, r.value, GetInterval(st.right, r.key, r.ts - cfg.backward, r.ts + 1)))
    case Right(r) =>
      (st.(right := Put(st.right, cfg.grace, r.key, r.ts, r.value)),
       Merged(cfg, false, r.value, GetInterval(st.left, r.key, r.ts - cfg.forward, r.ts + 1)))
    case Checkpoint => (State(Commit(st.left), Commit(st.right)), [])
  }

  function Outputs<V>(cfg: Config, st: State<V>, es: seq<Event<V>>): seq<seq<Joined<V>>>
    decreases |es|
  {
    if es == [] then [] else
      var (next, out) := Step(cfg, st, es[0]);
      [out] + Outputs(cfg, next, es[1..])
  }

  /** The stores after a run. */
  function After<V>(cfg: Config, st: State<V>, es: seq<Event<V>>): State<V>
    decreases |es|
  {
    if es == [] then st else After(cfg, Step(cfg, st, es[0]).0, es[1..])
  }

  /** What happens to one side's store: its own records, and None for each checkpoint. */
  function OwnOf<V>(left: bool, es: seq<Event<V>>): seq<Option<Rec<V>>> {
    if es == [] then []
    else
      (match es[0]
       case Left(r) => if left then [Some(r)] else []
       case Right(r) => if left then [] else [Some(r)]
       case Checkpoint => [None])
      + OwnOf(left, es[1..])
  }

  function SideAfter<V>(grace: nat, s: Side<V>, own: seq<Option<Rec<V>>>): Side<V>
    decreases |own|
  {
    if own == [] then s
    else
      SideAfter(grace, if own[0].None? then Commit(s) else Put(s, grace, own[0].value.key, own[0].value.ts,
                                                               own[0].value.value), own[1..])
  }

  /**
   * The two sides are alike and independent: in any run each store goes through the writes of its
   * own records and through every checkpoint, whatever arrives on the other side.
   */
  lemma {:induction false} SidesApart<V>(cfg: Config, st: State<V>, es: seq<Event<V>>)
    ensures After(cfg, st, es)
         == State(SideAfter(cfg.grace, st.left, OwnOf(true, es)), SideAfter(cfg.grace, st.right, OwnOf(false, es)))
    decreases |es|
  {
    if es != [] {
      hide Put, Commit, GetInterval, Merged;
      SidesApart(cfg, Step(cfg, st, es[0]).0, es[1..]);
      OwnFront(true, es);
      OwnFront(false, es);
    }
  }

  lemma OwnFront<V>(left: bool, es: seq<Event<V>>)
    requires es != []
    ensures OwnOf(left, es)
         == match es[0]
            case Left(r) => if left then [Some(r)] + OwnOf(left, es[1..]) else OwnOf(left, es[1..])
            case Right(r) => if left then OwnOf(left, es[1..]) else [Some(r)] + OwnOf(left, es[1..])
            case Checkpoint => [None] + OwnOf(left, es[1..])
  {
  }

  /** The operator over its two stores. */
  class Join<!V> {
    const cfg: Config
    const left: TimestampedStore.Store<V>
    const right: TimestampedStore.Store<V>

    ghost predicate Valid() {
      left != right && left.grace == cfg.grace && right.grace == cfg.grace
    }

    ghost function Value(): State<V>
      reads left, right
    {
      State(left.Value(), right.Value())
    }

    constructor (cfg: Config)
      ensures Valid() && fresh(left) && fresh(right) && Value() == EmptyState() && this.cfg == cfg
    {
      this.cfg := cfg;
      left := new TimestampedStore.Store(cfg.grace);
      right := new TimestampedStore.Store(cfg.grace);
    }

    method LeftFunc(r: Rec<V>) returns (out: seq<Joined<V>>)
      requires Valid()
      modifies left
      ensures (Value(), out) == Step(cfg, old(Value()), Left(r))
    {
      hide Put, GetInterval, Merged;
      left.SetForTimestamp(r.key, r.ts, r.value);
      var met := right.ReadInterval(r.key, r.ts - cfg.backward, r.ts + 1);
      out := MergeAll(true, r.value, met);
    }

    method RightFunc(r: Rec<V>) returns (out: seq<Joined<V>>)
      requires Valid()
      modifies right
      ensures (Value(), out) == Step(cfg, old(Value()), Right(r))
    {
      hide Put, GetInterval, Merged;
      right.SetForTimestamp(r.key, r.ts, r.value);
      var met := left.ReadInterval(r.key, r.ts - cfg.forward, r.ts + 1);
      out := MergeAll(false, r.value, met);
    }

    method MergeAll(isLeft: bool, v: V, met: seq<V>) returns (out: seq<Joined<V>>)
      ensures out == Merged(cfg, isLeft, v, met)
    {
      out := [];
      for i := 0 to |met|
        invariant |out| == i
        invariant forall k :: 0 <= k < i ==>
                    out[k] == if isLeft then Joined(Some(v), Some(met[k])) else Joined(Some(met[k]), Some(v))
      {
        out := out + [if isLeft then Joined(Some(v), Some(met[i])) else Joined(Some(met[i]), Some(v))];
      }
      if met == [] && cfg.EmitsLone(isLeft) {
        out := [if isLeft then Joined(Some(v), None) else Joined(None, Some(v))];
      }
    }

    method CommitCheckpoint()
      requires Valid()
      modifies left, right
      ensures (Value(), []) == Step(cfg, old(Value()), Checkpoint)
    {
      hide Commit;
      left.Flush();
      right.Flush();
    }
  }

  // ----- What the join should produce -----

  /** Record i of a side meets a query for [start, end). */
  predicate Meets<V>(h: seq<Rec<V>>, key: Key, start: int, end: int, i: int) {
    0 <= i < |h| && h[i].key == key && start <= h[i].ts < end
  }

  /** The positions of a side's records that a query meets, in arrival order. */
  function Met<V>(h: seq<Rec<V>>, key: Key, start: int, end: int): (r: seq<nat>)
    ensures forall i :: i in r <==> Meets(h, key, start, end, i)
    ensures forall i, j :: 0 <= i < j < |r| ==> r[i] < r[j]
  {
    if h == [] then [] else
      var last := |h| - 1;
      var before := Met(h[..last], key, start, end);
      assert forall i :: 0 <= i < |before| ==> before[i] in before && Meets(h[..last], key, start, end, before[i]);
      before + if Meets(h, key, start, end, last) then [last] else []
  }

  function ValuesAt<V>(h: seq<Rec<V>>, at: seq<nat>): seq<V>
    requires forall i :: i in at ==> i < |h|
  {
    seq(|at|, i requires 0 <= i < |at| => assert at[i] in at; h[at[i]].value)
  }

  /** A record's output by the definition of the join: over everything that has arrived on the other side. */
  function IdealOutput<V>(cfg: Config, left: bool, r: Rec<V>, other: seq<Rec<V>>): seq<Joined<V>> {
    Merged(cfg, left, r.value, ValuesAt(other, Met(other, r.key, r.ts - Reach(cfg, left), r.ts + 1)))
  }

  function NextLefts<V>(lefts: seq<Rec<V>>, e: Event<V>): seq<Rec<V>> {
    if e.Left? then lefts + [e.rec] else lefts
  }

  function NextRights<V>(rights: seq<Rec<V>>, e: Event<V>): seq<Rec<V>> {
    if e.Right? then rights + [e.rec] else rights
  }

  /** What an event puts out, by the definition of the join. */
  function IdealStep<V>(cfg: Config, lefts: seq<Rec<V>>, rights: seq<Rec<V>>, e: Event<V>): seq<Joined<V>> {
    match e
    case Left(r) => IdealOutput(cfg, true, r, rights)
    case Right(r) => IdealOutput(cfg, false, r, lefts)
    case Checkpoint => []
  }

  function IdealOutputs<V>(cfg: Config, lefts: seq<Rec<V>>, rights: seq<Rec<V>>, es: seq<Event<V>>): seq<seq<Joined<V>>>
    decreases |es|
  {
    if es == [] then []
    else
      [IdealStep(cfg, lefts, rights, es[0])]
      + IdealOutputs(cfg, NextLefts(lefts, es[0]), NextRights(rights, es[0]), es[1..])
  }

  /** The positions of the other side's records in arrival order, of those with r's key and a timestamp in its reach. */
  ghost predicate InReach<V>(other: seq<Rec<V>>, r: Rec<V>, reach: int, at: seq<nat>) {
    && (forall j, k :: 0 <= j < k < |at| ==> at[j] < at[k])
    && forall i: nat :: i in at <==> i < |other| && other[i].key == r.key && r.ts - reach <= other[i].ts <= r.ts
  }

  /**
   * What the definition asks for a left record: one output with each right record of its key no
   * later than it and no more than backward earlier, in arrival order; if there is none, the record
   * alone in a left or outer join, and nothing otherwise.
   */
  lemma IdealLeft<V>(cfg: Config, lefts: seq<Rec<V>>, rights: seq<Rec<V>>, r: Rec<V>) returns (at: seq<nat>)
    ensures InReach(rights, r, cfg.backward, at)
    ensures var out := IdealStep(cfg, lefts, rights, Left(r));
            if at == [] then out == (if cfg.how.LeftJoin? || cfg.how.Outer? then [Joined(Some(r.value), None)] else [])
            else
              && |out| == |at| && (forall i :: 0 <= i < |at| ==> at[i] < |rights|)
              && forall i :: 0 <= i < |at| ==> out[i] == Joined(Some(r.value), Some(rights[at[i]].value))
  {
    at := Met(rights, r.key, r.ts - cfg.backward, r.ts + 1);
    hide Met;
    assert forall i :: 0 <= i < |at| ==> at[i] in at && Meets(rights, r.key, r.ts - cfg.backward, r.ts + 1, at[i]);
    var met := ValuesAt(rights, at);
    assert |met| == |at| && forall i :: 0 <= i < |at| ==> met[i] == rights[at[i]].value;
  }

  /** And for a right record: each left record of its key no later than it and no more than forward earlier. */
  lemma IdealRight<V>(cfg: Config, lefts: seq<Rec<V>>, rights: seq<Rec<V>>, r: Rec<V>) returns (at: seq<nat>)
    ensures InReach(lefts, r, cfg.forward, at)
    ensures var out := IdealStep(cfg, lefts, rights, Right(r));
            if at == [] then out == (if cfg.how.RightJoin? || cfg.how.Outer? then [Joined(None, Some(r.value))] else [])
            else
              && |out| == |at| && (forall i :: 0 <= i < |at| ==> at[i] < |lefts|)
              && forall i :: 0 <= i < |at| ==> out[i] == Joined(Some(lefts[at[i]].value), Some(r.value))
  {
    at := Met(lefts, r.key, r.ts - cfg.forward, r.ts + 1);
    hide Met;
    assert forall i :: 0 <= i < |at| ==> at[i] in at && Meets(lefts, r.key, r.ts - cfg.forward, r.ts + 1, at[i]);
    var met := ValuesAt(lefts, at);
    assert |met| == |at| && forall i :: 0 <= i < |at| ==> met[i] == lefts[at[i]].value;
  }

  /** The records arrive in the order of their timestamps, whichever their side. */
  predicate Timely<V>(now: int, es: seq<Event<V>>)
    decreases |es|
  {
    es != [] ==>
      if es[0].Checkpoint? then Timely(now, es[1..]) else now <= es[0].rec.ts && Timely(es[0].rec.ts, es[1..])
  }

  predicate KeysIn<V>(keys: set<Key>, es: seq<Event<V>>) {
    forall i :: 0 <= i < |es| && !es[i].Checkpoint? ==> es[i].rec.key in keys
  }
}
