/** How late messages may be: when a sliding window is exact in every run, and when it is not. */
module SlidingLateness {
  import opened Wrappers
  import opened Aggregation
  import opened WindowStore
  import opened Sliding
  import opened SlidingSpec
  import opened SlidingScan
  import opened SlidingStep
  import opened SlidingRun

  /** In timestamp order, or late by no more than grace minus duration. */
  lemma LateByTimely<M>(c: Config, lateness: int, msgs: seq<Message<M>>)
    requires c.Valid() && LateBy(1, lateness, msgs) && (lateness <= 0 || lateness + c.duration <= c.grace)
    ensures AllTimely(c, msgs)
  {
    hide Latest, Times, Timely;
    forall i | 0 <= i < |msgs| ensures Timely(c, Times(msgs[..i]), Latest(msgs[..i]), msgs[i].ts) {
      PositiveTimes(lateness, msgs, i);
      LateTimely(c, lateness, Times(msgs[..i]), Latest(msgs[..i]), msgs[i].ts);
    }
  }

  lemma LateTimely(c: Config, lateness: int, times: set<int>, latest: int, ts: int)
    requires c.Valid() && Positive(times) && (lateness <= 0 || lateness + c.duration <= c.grace)
    requires (latest == 0 || latest in times) && forall t :: t in times ==> t <= latest
    requires 1 <= ts && ts >= latest - lateness
    ensures Timely(c, times, latest, ts)
  {
    forall p | p in times && Left(c, ts).start <= p < ts && ts !in times
      ensures exists q :: q in times && Left(c, ts).start <= q < ts && q >= latest - c.grace
    {
      var q := if lateness <= 0 then latest else p;
      assert q in times && Left(c, ts).start <= q < ts && q >= latest - c.grace;
    }
  }

  lemma PositiveTimes<M>(lateness: int, msgs: seq<Message<M>>, n: nat)
    requires LateBy(1, lateness, msgs) && n <= |msgs|
    ensures Positive(Times(msgs[..n]))
  {
    hide Latest;
  }

  /** All timestamps within the grace period of the largest one: nothing expires before it is complete. */
  lemma SpreadTimely<M>(c: Config, msgs: seq<Message<M>>)
    requires c.Valid() && forall m :: m in msgs ==> 1 <= m.ts && m.ts >= Latest(msgs) - c.grace
    ensures AllTimely(c, msgs)
  {
    forall i | 0 <= i < |msgs| ensures Timely(c, Times(msgs[..i]), Latest(msgs[..i]), msgs[i].ts) {
      LatestPrefix(msgs, i);
      assert msgs[i] in msgs;
      forall p | p in Times(msgs[..i]) ensures p >= Latest(msgs[..i]) - c.grace {
        var x :| x in msgs[..i] && x.ts == p;
        assert x in msgs;
      }
    }
  }

  lemma {:induction false} LatestPrefix<M>(msgs: seq<Message<M>>, n: nat)
    requires n <= |msgs|
    ensures Latest(msgs[..n]) <= Latest(msgs)
  {
    if n < |msgs| {
      var rest := msgs[..|msgs| - 1];
      assert rest[..n] == msgs[..n] && rest + [msgs[|msgs| - 1]] == msgs;
      LatestPrefix(rest, n);
    } else {
      assert msgs[..n] == msgs;
    }
  }

  /** The base of a left window one below the latest timestamp survives the step. */
  lemma BaseSurvives<M, S, R>(c: Config, a: Aggregator<M, S, R>, h: seq<Message<M>>, m: Message<M>, st: Store<Entry<S>>,
                              maxDeleted: int, p: int) returns (top: Span)
    requires Context(c, a, h, m, st) && 1 <= c.grace && m.ts >= st.latest - 1
    requires BaseStored(c, Times(h), st.latest - 1, st.windows)
    requires DeletionBound(c, Times(h), m.ts, st.windows, Expired(c, m, st), maxDeleted)
    requires !Ideal(c, Times(h) + {m.ts}, Left(c, Max(m.ts, st.latest) - 1))
    requires p in Times(h) + {m.ts} && Left(c, Max(m.ts, st.latest) - 1).start <= p < Max(m.ts, st.latest) - 1
    ensures top in st.windows && top.start > maxDeleted && Top(c, Times(h) + {m.ts}, Max(m.ts, st.latest) - 1, top)
  {
    hide FoldAll, Within, EntryOk, Exact, Latest, Ideal, Top, DeletionBound;
    ContextFacts(c, a, h, m, st);
    var times := Times(h);
    if m.ts <= st.latest {
      if m.ts == st.latest - 1 {
        LeftIdeal(c, times + {m.ts}, m.ts);
      }
      LatestFact(h);
      assert m.ts == st.latest && times + {m.ts} == times;
      LeftIdeal(c, times, m.ts);
      top :| top in st.windows && Top(c, times, m.ts - 1, top);
    } else {
      top := TopExists(c, times, m.ts, p, m.ts - 1);
      LatestFact(h);
      LeftIdeal(c, times, st.latest);
      TopEnds(c, times, m.ts, top, st.latest);
      LatestStored(c, a, h, m, st, top);
      TopBelow(c, times, m.ts, top);
    }
    TopEnds(c, times + {m.ts}, Max(m.ts, st.latest) - 1, top, p);
    AboveDeletion(c, times, m.ts, st.windows, Max(m.ts, st.latest), maxDeleted, p, top);
  }

  /** A base that reaches a message of the left window lies above the deletion bound. */
  lemma AboveDeletion<S>(c: Config, times: set<int>, ts: int, windows: map<Span, Entry<S>>, latest: int,
                         maxDeleted: int, p: int, top: Span)
    requires c.Valid() && 1 <= c.grace && ts <= latest && 1 <= p
    requires DeletionBound(c, times, ts, windows, ExpiredStart(c, latest), maxDeleted)
    requires Ideal(c, times, Left(c, ts)) || (top in windows && Top(c, times, ts, top))
    requires Left(c, latest - 1).start <= p < latest - 1 && top == Left(c, top.end) && top.end >= p
    ensures top.start > maxDeleted
  {
  }

  lemma TopEnds(c: Config, times: set<int>, ts: int, top: Span, p: int)
    requires c.Valid() && Positive(times) && Top(c, times, ts, top) && p in times && p < ts
    ensures top.end >= p && Ideal(c, times, top) && top == Left(c, top.end)
  {
    LeftIdeal(c, times, p);
  }

  lemma LatestFact<M>(h: seq<Message<M>>)
    ensures Latest(h) == 0 || Latest(h) in Times(h)
    ensures forall t :: t in Times(h) ==> t <= Latest(h)
  {
  }

  lemma LatestStored<M, S, R>(c: Config, a: Aggregator<M, S, R>, h: seq<Message<M>>, m: Message<M>, st: Store<Entry<S>>,
                              w: Span)
    requires Context(c, a, h, m, st) && Ideal(c, Times(h), w) && w.end >= st.latest
    ensures w in st.windows
  {
  }

  /** With no window ending at ts - 1, the largest window below ts is the largest below ts - 1, also once ts is seen. */
  lemma TopBelow(c: Config, times: set<int>, ts: int, top: Span)
    requires c.Valid() && Positive(times) && 1 <= ts && Top(c, times, ts, top)
    requires !Ideal(c, times + {ts}, Left(c, ts - 1))
    ensures Top(c, times + {ts}, ts - 1, top)
  {
    IdealGrows(c, times, ts, top);
    forall v | Ideal(c, times + {ts}, v) && v.end < ts - 1 ensures v.end <= top.end {
      if !Ideal(c, times, v) {
        NewWindows(c, times, ts, v);
      }
    }
  }

  /** A window above the deletion bound stays stored. */
  lemma ProcessKeeps<M, S, R>(c: Config, a: Aggregator<M, S, R>, m: Message<M>, st: Store<Entry<S>>, w: Span)
    requires m.ts > Expired(c, m, st)
    requires w in FullScan(c, a, m, Expired(c, m, st), st).store.windows
             && w.start > FullScan(c, a, m, Expired(c, m, st), st).maxDeleted
    ensures w in Process(c, a, m, st).store.windows
  {
    hide FullScan;
  }

  /** With a grace period, one step keeps the base of the left window just below the latest timestamp. */
  lemma BaseKept<M, S, R>(c: Config, a: Aggregator<M, S, R>, h: seq<Message<M>>, m: Message<M>, st: Store<Entry<S>>)
    requires Context(c, a, h, m, st) && 1 <= c.grace && m.ts >= st.latest - 1
    requires BaseStored(c, Times(h), m.ts, st.windows) && BaseStored(c, Times(h), st.latest - 1, st.windows)
    ensures BaseStored(c, Times(h + [m]), Max(m.ts, st.latest) - 1, Process(c, a, m, st).store.windows)
  {
    hide FoldAll, Within, Latest, EntryOk, Exact, Top, Ideal, UpdatedExact, Sound, Complete, BaseStored, FullScan,
         Process, DeletionBound;
    ContextFacts(c, a, h, m, st);
    FullScanExact(c, a, h, m, st);
    var sc := FullScan(c, a, m, Expired(c, m, st), st);
    var x, kept := Max(m.ts, st.latest) - 1, Process(c, a, m, st).store.windows;
    forall p | p in Times(h + [m]) && Left(c, x).start <= p < x && !Ideal(c, Times(h + [m]), Left(c, x))
      ensures exists w :: w in kept && Top(c, Times(h + [m]), x, w)
    {
      var top := BaseSurvives(c, a, h, m, st, sc.maxDeleted, p);
      assert top in sc.store.windows.Keys;
      ProcessKeeps(c, a, m, st, top);
    }
    BaseStoredIf(c, Times(h + [m]), x, kept);
  }

  lemma BaseStoredIf<S>(c: Config, times: set<int>, ts: int, windows: map<Span, Entry<S>>)
    requires forall p :: p in times && Left(c, ts).start <= p < ts && !Ideal(c, times, Left(c, ts)) ==>
                           exists w :: w in windows && Top(c, times, ts, w)
    ensures BaseStored(c, times, ts, windows)
  {
  }

  /** Late by at most one millisecond, any grace period that admits it will do. */
  lemma {:induction false} LateByOneExact<M, S, R>(c: Config, a: Aggregator<M, S, R>, msgs: seq<Message<M>>)
    requires c.Valid() && 1 <= c.grace && LateBy(1, 1, msgs)
    ensures RunExact(c, a, msgs, Run(c, a, msgs))
    ensures BaseStored(c, Times(msgs), Latest(msgs) - 1, Run(c, a, msgs).store.windows)
  {
    hide FoldAll, Within, RunExact, Process, BaseStored, Times, Latest;
    if msgs == [] {
      EmptyRun(c, a);
      NoBase(c, msgs, Run(c, a, msgs).store.windows);
    } else {
      var n := |msgs| - 1;
      var h, m := msgs[..n], msgs[n];
      assert forall i :: 0 <= i <= n ==> h[..i] == msgs[..i];
      LateByOneExact(c, a, h);
      assert h + [m] == msgs && h[..n] == h;
      PositiveTimes(1, h, n);
      LateByOneStep(c, a, h, m, Run(c, a, h));
    }
  }

  lemma LateByOneStep<M, S, R>(c: Config, a: Aggregator<M, S, R>, h: seq<Message<M>>, m: Message<M>, r: RunState<S, R>)
    requires c.Valid() && 1 <= c.grace && RunExact(c, a, h, r)
             && BaseStored(c, Times(h), Latest(h) - 1, r.store.windows)
    requires 1 <= m.ts && m.ts >= Latest(h) - 1 && Positive(Times(h))
    ensures
      var out := Process(c, a, m, r.store);
      && RunExact(c, a, h + [m], RunState(out.store, r.expired + out.expired, r.updated + [out.updated]))
      && BaseStored(c, Times(h + [m]), Latest(h + [m]) - 1, out.store.windows)
  {
    hide FoldAll, Within, LeftWindows, Sound, Complete, Marked, Process, Latest, BaseStored, Timely, Updated;
    ContextFacts(c, a, h, m, r.store);
    if m.ts >= r.store.latest {
      LatestFact(h);
      LateTimely(c, 0, Times(h), Latest(h), m.ts);
      TimelyBase(c, a, h, m, r.store);
    }
    RunStep(c, a, h, m, r);
    BaseKept(c, a, h, m, r.store);
  }

  lemma NoBase<M, S>(c: Config, none: seq<Message<M>>, windows: map<Span, Entry<S>>)
    requires none == []
    ensures BaseStored(c, Times(none), Latest(none) - 1, windows)
  {
  }
}
