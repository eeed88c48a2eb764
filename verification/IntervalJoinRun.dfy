/** The join over whole runs: it produces what the relational definition asks for, and exactly when. */
module IntervalJoinRun {
  import opened Wrappers
  import opened KeyEncoding
  import opened WindowStore
  import opened CountCollection
  import opened TimestampedStore
  import opened IntervalJoin

  function SpanOf<V>(h: seq<Rec<V>>, i: nat): Span
    requires i < |h|
  {
    Span(h[i].ts, i)
  }

  ghost predicate Ordered<V>(keys: set<Key>, h: seq<Rec<V>>, now: int) {
    && (forall i :: 0 <= i < |h| ==> 0 <= h[i].ts <= now && h[i].key in keys)
    && (forall i, j :: 0 <= i < j < |h| ==> h[i].ts <= h[j].ts)
  }

  /** What is stored comes from the history. */
  ghost predicate Faithful<V>(side: Side<V>, h: seq<Rec<V>>) {
    forall key, s :: s in Seen(side, key) ==>
                       && 0 <= s.end < |h| && s == SpanOf(h, s.end) && h[s.end].key == key
                       && Seen(side, key)[s] == h[s.end].value
  }

  /** Every record within the grace period of the latest time is stored. */
  ghost predicate Retained<V>(side: Side<V>, grace: nat, h: seq<Rec<V>>, now: int) {
    forall i :: 0 <= i < |h| && h[i].ts >= now - grace ==> SpanOf(h, i) in Seen(side, h[i].key)
  }

  ghost predicate Holds<V>(keys: set<Key>, side: Side<V>, grace: nat, h: seq<Rec<V>>, now: int) {
    && 0 <= now && side.counter == |h| - 1 && side.cache.Keys <= keys
    && (forall k :: EligibleAt(side, k) <= Max(now - grace, 0))
    && Ordered(keys, h, now) && Faithful(side, h) && Retained(side, grace, h, now)
  }

  lemma PutSeen<V>(side: Side<V>, grace: nat, key: Key, ts: int, v: V)
    ensures forall k :: Seen(Put(side, grace, key, ts, v), k)
                        == if k == key then Seen(side, k)[Span(ts, side.counter + 1) := v] else Seen(side, k)
  {
  }

  lemma PutFaithful<V>(keys: set<Key>, side: Side<V>, grace: nat, h: seq<Rec<V>>, now: int, r: Rec<V>)
    requires Holds(keys, side, grace, h, now)
    ensures Faithful(Put(side, grace, r.key, r.ts, r.value), h + [r])
  {
    PutSeen(side, grace, r.key, r.ts, r.value);
    hide Seen, Put, EligibleAt, Ordered, Retained;
  }

  lemma PutRetained<V>(keys: set<Key>, side: Side<V>, grace: nat, h: seq<Rec<V>>, now: int, r: Rec<V>)
    requires Holds(keys, side, grace, h, now) && now <= r.ts
    ensures Retained(Put(side, grace, r.key, r.ts, r.value), grace, h + [r], r.ts)
  {
    PutSeen(side, grace, r.key, r.ts, r.value);
    hide Seen, Put, EligibleAt, Ordered, Faithful;
    var side1, h1 := Put(side, grace, r.key, r.ts, r.value), h + [r];
    forall i | 0 <= i < |h1| && h1[i].ts >= r.ts - grace ensures SpanOf(h1, i) in Seen(side1, h1[i].key) {
      if i < |h| {
        assert SpanOf(h1, i) == SpanOf(h, i);
      }
    }
  }

  lemma PutHolds<V>(keys: set<Key>, side: Side<V>, grace: nat, h: seq<Rec<V>>, now: int, r: Rec<V>)
    requires Holds(keys, side, grace, h, now) && now <= r.ts && r.key in keys
    ensures Holds(keys, Put(side, grace, r.key, r.ts, r.value), grace, h + [r], r.ts)
  {
    hide Faithful, Retained, Ordered, Put, Seen;
    PutFaithful(keys, side, grace, h, now, r);
    PutRetained(keys, side, grace, h, now, r);
    PutEligible(side, grace, r.key, r.ts, r.value);
    hide EligibleAt;
    OrderedSnoc(keys, h, now, r);
  }

  lemma PutEligible<V>(side: Side<V>, grace: nat, key: Key, ts: int, v: V)
    ensures forall k :: EligibleAt(Put(side, grace, key, ts, v), k) <= Max(EligibleAt(side, k), Max(ts - grace, 0))
    ensures Put(side, grace, key, ts, v).counter == side.counter + 1
    ensures Put(side, grace, key, ts, v).cache.Keys == side.cache.Keys + {key}
  {
  }

  lemma OrderedSnoc<V>(keys: set<Key>, h: seq<Rec<V>>, now: int, r: Rec<V>)
    requires Ordered(keys, h, now) && 0 <= now <= r.ts && r.key in keys
    ensures Ordered(keys, h + [r], r.ts)
  {
  }

  lemma TimePasses<V>(keys: set<Key>, side: Side<V>, grace: nat, h: seq<Rec<V>>, now: int, later: int)
    requires Holds(keys, side, grace, h, now) && now <= later
    ensures Holds(keys, side, grace, h, later)
  {
    hide Faithful, Seen;
  }

  ghost predicate Disjoint(keys: set<Key>) {
    forall p, q :: p in keys && q in keys ==> !Overlaps(p, q)
  }

  lemma CommitHolds<V>(keys: set<Key>, side: Side<V>, grace: nat, h: seq<Rec<V>>, now: int)
    requires Holds(keys, side, grace, h, now) && Disjoint(keys)
    ensures Holds(keys, Commit(side), grace, h, now)
  {
    hide Overlaps;
    forall key ensures Seen(Commit(side), key) == Flushed(side, key) {
      CommitSeen(side, key);
    }
    hide Seen, Commit;
    var side1 := Commit(side);
    assert Faithful(side1, h);
    forall i | 0 <= i < |h| && h[i].ts >= now - grace ensures SpanOf(h, i) in Seen(side1, h[i].key) {
      assert SpanOf(h, i) in Seen(side, h[i].key);
      assert !Swept(side, h[i].key);
      assert EligibleAt(side, h[i].key) <= Max(now - grace, 0);
    }
    CommitFields(side);
  }

  lemma CommitFields<V>(side: Side<V>)
    ensures Commit(side).counter == side.counter && Commit(side).cache == map[] && Commit(side).eligible == map[]
  {
  }

  lemma CommitSeen<V>(side: Side<V>, key: Key)
    ensures Seen(Commit(side), key) == Flushed(side, key)
  {
    if key !in side.db.Keys + side.cache.Keys {
      assert Seen(side, key) == map[];
    }
  }

  function SpansAt<V>(h: seq<Rec<V>>, at: seq<nat>): seq<Span>
    requires forall i :: i in at ==> i < |h|
  {
    seq(|at|, i requires 0 <= i < |at| => assert at[i] in at; SpanOf(h, at[i]))
  }

  lemma SpansAtMember<V>(h: seq<Rec<V>>, at: seq<nat>, s: Span)
    requires forall i :: i in at ==> i < |h|
    ensures s in SpansAt(h, at) <==> 0 <= s.end < |h| && s.end in at && s == SpanOf(h, s.end)
  {
    if s in SpansAt(h, at) {
      var k :| 0 <= k < |at| && SpansAt(h, at)[k] == s;
      assert at[k] in at;
    }
    if 0 <= s.end < |h| && s.end in at && s == SpanOf(h, s.end) {
      var k :| 0 <= k < |at| && at[k] == s.end;
      assert SpansAt(h, at)[k] == s;
    }
  }

  lemma SpansAscend<V>(keys: set<Key>, h: seq<Rec<V>>, now: int, at: seq<nat>)
    requires Ordered(keys, h, now) && (forall i :: i in at ==> i < |h|)
    requires forall i, j :: 0 <= i < j < |at| ==> at[i] < at[j]
    ensures Ascending(SpansAt(h, at))
  {
    forall i, j | 0 <= i < j < |at| ensures Before(SpansAt(h, at)[i], SpansAt(h, at)[j]) {
      assert at[i] in at && at[j] in at;
    }
  }

  lemma SpanFound<V>(keys: set<Key>, side: Side<V>, grace: nat, h: seq<Rec<V>>, now: int, key: Key, start: int, ts: int,
                     s: Span)
    requires Holds(keys, side, grace, h, now) && now <= ts && ts - grace <= start
    ensures s in Seen(side, key) && Max(start, 0) <= s.start < ts + 1
            <==> Meets(h, key, start, ts + 1, s.end) && s == SpanOf(h, s.end)
    ensures s in Seen(side, key) ==> 0 <= s.end < |h| && Seen(side, key)[s] == h[s.end].value
  {
    hide Seen;
  }

  lemma SpansFound<V>(keys: set<Key>, side: Side<V>, grace: nat, h: seq<Rec<V>>, now: int, key: Key, start: int,
                      ts: int)
    requires Holds(keys, side, grace, h, now) && now <= ts && ts - grace <= start <= ts
    ensures var seen, met := Seen(side, key), Met(h, key, start, ts + 1);
            && (forall s :: s in SpansAt(h, met) <==> s in seen && Max(start, 0) <= s.start < ts + 1)
            && forall s :: s in seen ==> 0 <= s.end < |h| && seen[s] == h[s.end].value
  {
    var met, seen := Met(h, key, start, ts + 1), Seen(side, key);
    hide Holds, Seen, Met, SpansAt;
    forall s ensures s in SpansAt(h, met) <==> s in seen && Max(start, 0) <= s.start < ts + 1
             ensures s in seen ==> 0 <= s.end < |h| && seen[s] == h[s.end].value {
      SpansAtMember(h, met, s);
      SpanFound(keys, side, grace, h, now, key, start, ts, s);
    }
  }

  lemma ValuesFound<V>(seen: map<Span, V>, h: seq<Rec<V>>, at: seq<nat>)
    requires forall i :: i in at ==> i < |h|
    requires forall s :: s in SpansAt(h, at) ==> s in seen && 0 <= s.end < |h| && seen[s] == h[s.end].value
    ensures var spans := SpansAt(h, at);
            forall k :: 0 <= k < |spans| ==> spans[k] in spans && ValuesAt(h, at)[k] == seen[spans[k]]
  {
    forall k | 0 <= k < |at|
      ensures SpansAt(h, at)[k] in SpansAt(h, at) && ValuesAt(h, at)[k] == seen[SpansAt(h, at)[k]] {
      assert SpansAt(h, at)[k] in SpansAt(h, at) && at[k] in at;
    }
  }

  lemma MetWithin<V>(h: seq<Rec<V>>, key: Key, start: int, end: int)
    ensures forall i :: i in Met(h, key, start, end) ==> i < |h|
  {
    hide Met;
  }

  /** A query that reaches no further back than the grace period gives the values of all records that meet it. */
  lemma ReadsAll<V>(keys: set<Key>, side: Side<V>, grace: nat, h: seq<Rec<V>>, now: int, key: Key, start: int, ts: int)
    requires Holds(keys, side, grace, h, now) && now <= ts && ts - grace <= start <= ts
    ensures GetInterval(side, key, start, ts + 1) == ValuesAt(h, Met(h, key, start, ts + 1))
  {
    MetWithin(h, key, start, ts + 1);
    HoldsOrdered(keys, side, grace, h, now);
    hide Holds, Seen, Met, Meets, Ascending, Ordered, SpansAt, Collected;
    var met, seen := Met(h, key, start, ts + 1), Seen(side, key);
    SpansAscend(keys, h, now, met);
    SpansFound(keys, side, grace, h, now, key, start, ts);
    ValuesFound(seen, h, met);
    SpansSize(h, met);
    CollectedAre(seen, Max(start, 0), ts + 1, SpansAt(h, met), ValuesAt(h, met));
  }

  lemma HoldsOrdered<V>(keys: set<Key>, side: Side<V>, grace: nat, h: seq<Rec<V>>, now: int)
    requires Holds(keys, side, grace, h, now)
    ensures Ordered(keys, h, now)
  {
  }

  lemma SpansSize<V>(h: seq<Rec<V>>, at: seq<nat>)
    requires forall i :: i in at ==> i < |h|
    ensures |SpansAt(h, at)| == |ValuesAt(h, at)| == |at|
  {
  }

  // ----- Runs -----

  ghost predicate BothHold<V>(keys: set<Key>, cfg: Config, st: State<V>, lefts: seq<Rec<V>>, rights: seq<Rec<V>>,
                              now: int) {
    Holds(keys, st.left, cfg.grace, lefts, now) && Holds(keys, st.right, cfg.grace, rights, now)
  }

  lemma StartHolds<V>(keys: set<Key>, cfg: Config)
    ensures BothHold<V>(keys, cfg, EmptyState(), [], [], 0)
  {
  }

  lemma StepOk<V>(keys: set<Key>, cfg: Config, st: State<V>, lefts: seq<Rec<V>>, rights: seq<Rec<V>>, now: int,
                  e: Event<V>)
    requires cfg.backward <= cfg.grace && cfg.forward <= cfg.grace && Disjoint(keys)
    requires BothHold(keys, cfg, st, lefts, rights, now)
    requires !e.Checkpoint? ==> now <= e.rec.ts && e.rec.key in keys
    ensures Step(cfg, st, e).1 == IdealStep(cfg, lefts, rights, e)
    ensures BothHold(keys, cfg, Step(cfg, st, e).0, NextLefts(lefts, e), NextRights(rights, e),
                     if e.Checkpoint? then now else e.rec.ts)
  {
    hide Holds, Put, GetInterval, Commit, Merged, Met, Disjoint;
    match e
    case Left(r) =>
      ReadsAll(keys, st.right, cfg.grace, rights, now, r.key, r.ts - cfg.backward, r.ts);
      PutHolds(keys, st.left, cfg.grace, lefts, now, r);
      TimePasses(keys, st.right, cfg.grace, rights, now, r.ts);
    case Right(r) =>
      ReadsAll(keys, st.left, cfg.grace, lefts, now, r.key, r.ts - cfg.forward, r.ts);
      PutHolds(keys, st.right, cfg.grace, rights, now, r);
      TimePasses(keys, st.left, cfg.grace, lefts, now, r.ts);
    case Checkpoint =>
      CommitHolds(keys, st.left, cfg.grace, lefts, now);
      CommitHolds(keys, st.right, cfg.grace, rights, now);
  }

  lemma {:induction false} RunOk<V>(keys: set<Key>, cfg: Config, st: State<V>, lefts: seq<Rec<V>>, rights: seq<Rec<V>>,
                                    now: int, es: seq<Event<V>>)
    requires cfg.backward <= cfg.grace && cfg.forward <= cfg.grace && Disjoint(keys)
    requires BothHold(keys, cfg, st, lefts, rights, now) && Timely(now, es) && KeysIn(keys, es)
    ensures Outputs(cfg, st, es) == IdealOutputs(cfg, lefts, rights, es)
    decreases |es|
  {
    hide BothHold, Step, IdealStep, Disjoint;
    if es != [] {
      var e := es[0];
      assert es[0] in es && KeysIn(keys, es[1..]);
      StepOk(keys, cfg, st, lefts, rights, now, e);
      RunOk(keys, cfg, Step(cfg, st, e).0, NextLefts(lefts, e), NextRights(rights, e),
            if e.Checkpoint? then now else e.rec.ts, es[1..]);
    }
  }

  /** With both reaches inside the grace period and keys that do not overlap, every timely run gives the join. */
  lemma JoinExact<V>(keys: set<Key>, cfg: Config, es: seq<Event<V>>)
    requires cfg.backward <= cfg.grace && cfg.forward <= cfg.grace && Disjoint(keys)
    requires Timely(0, es) && KeysIn(keys, es)
    ensures Outputs(cfg, EmptyState(), es) == IdealOutputs(cfg, [], [], es)
  {
    StartHolds<V>(keys, cfg);
    RunOk(keys, cfg, EmptyState(), [], [], 0, es);
  }
}
