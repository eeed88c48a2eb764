/** Sliding windows over whole runs: exact stores, exact emissions, one expiry per left window. */
module SlidingRun {
  import opened Wrappers
  import opened Aggregation
  import opened WindowStore
  import opened Sliding
  import opened SlidingSpec
  import opened SlidingScan
  import opened SlidingStep

  /** One scan over an exact store yields the exact windows and emissions of the extended history. */
  lemma FullScanExact<M, S, R>(c: Config, a: Aggregator<M, S, R>, h: seq<Message<M>>, m: Message<M>,
                               st: Store<Entry<S>>)
    requires Context(c, a, h, m, st) && BaseStored(c, Times(h), m.ts, st.windows)
    ensures ScanResult(c, a, h, m, st, FullScan(c, a, m, Expired(c, m, st), st))
  {
    hide Exact, Ideal, EntryOk, FoldAll, Within, Latest, ScanResult, BaseStored;
    var start := ScanStart<S, R>(c, m.ts, Expired(c, m, st), st);
    assert ScanInv(c, a, h, m, st, {}, start);
    assert Remaining(c, m.ts, st, {}, Candidates(c, m.ts, st));
    ScanFrom(c, a, h, m, st, {}, Candidates(c, m.ts, st), start);
  }

  /** The left windows of the seen timestamps with low < start <= high, in key order, each once with its value. */
  ghost predicate LeftWindows<R>(c: Config, value: Span -> R, times: set<int>, low: int, high: int,
                                 emitted: seq<Emission<R>>) {
    && (forall i, j :: 0 <= i < j < |emitted| ==> Before(emitted[i].span, emitted[j].span))
    && (forall x :: x in emitted ==>
                      x.span == Left(c, x.span.end) && x.span.end in times && low < x.span.start <= high
                      && x.value == value(x.span))
    && (forall t :: t in times && low < Left(c, t).start <= high ==> Emission(Left(c, t), value(Left(c, t))) in emitted)
  }

  /** The left windows of the seen timestamps in [ts, ts + duration], in key order, each once with its value. */
  ghost predicate Updated<R>(c: Config, value: Span -> R, times: set<int>, ts: int, updated: seq<Emission<R>>) {
    && (forall i, j :: 0 <= i < j < |updated| ==> Before(updated[i].span, updated[j].span))
    && (forall x :: x in updated ==>
                      x.span == Left(c, x.span.end) && x.span.end in times && ts <= x.span.end <= ts + c.duration
                      && x.value == value(x.span))
    && (forall q :: q in times && ts <= q <= ts + c.duration ==> Emission(Left(c, q), value(Left(c, q))) in updated)
  }

  lemma ReverseUpdated<R>(c: Config, value: Span -> R, times: set<int>, ts: int, updated: seq<Emission<R>>)
    requires UpdatedExact(c, value, times, ts, updated)
    ensures Updated(c, value, times, ts, Reverse(updated))
  {
    var r := Reverse(updated);
    forall x | x in updated ensures x in r {
      var i :| 0 <= i < |updated| && updated[i] == x;
      assert r[|r| - 1 - i] == x;
    }
    forall x | x in r ensures x in updated {
      var i :| 0 <= i < |r| && r[i] == x;
      assert updated[|r| - 1 - i] == x;
    }
  }

  lemma {:induction false} LeftEmissionsExact<M, S, R>(a: Aggregator<M, S, R>, windows: map<Span, Entry<S>>,
                                                       spans: seq<Span>)
    requires Ascending(spans) && forall s :: s in spans ==> s in windows
    ensures
      var r := LeftEmissions(a, windows, spans);
      && (forall i, j :: 0 <= i < j < |r| ==> Before(r[i].span, r[j].span))
      && (forall x :: x in r ==>
              x.span in spans && x.span.end == windows[x.span].maxTs && x.value == a.result(windows[x.span].agg))
      && (forall s :: s in spans && s.end == windows[s].maxTs ==> Emission(s, a.result(windows[s].agg)) in r)
  {
    if spans != [] {
      var n := |spans| - 1;
      LeftEmissionsExact(a, windows, spans[..n]);
      LeftEmissionsSnoc(a, windows, spans);
      hide LeftEmissions, Ascending;
      forall s | s in spans[..n] ensures Before(s, spans[n]) {
        BeforeLast(spans, s);
      }
      var before := LeftEmissions(a, windows, spans[..n]);
      forall i | 0 <= i < |before| ensures Before(before[i].span, spans[n]) {
        assert before[i] in before;
      }
    }
  }

  lemma LeftEmissionsSnoc<M, S, R>(a: Aggregator<M, S, R>, windows: map<Span, Entry<S>>, spans: seq<Span>)
    requires spans != [] && forall s :: s in spans ==> s in windows
    ensures var n, w := |spans| - 1, spans[|spans| - 1];
            && spans == spans[..n] + [w] && (forall s :: s in spans[..n] ==> s in windows)
            && LeftEmissions(a, windows, spans)
               == LeftEmissions(a, windows, spans[..n])
                  + (if w.end == windows[w].maxTs then [Emission(w, a.result(windows[w].agg))] else [])
  {
  }

  lemma BeforeLast(spans: seq<Span>, s: Span)
    requires Ascending(spans) && spans != [] && s in spans[..|spans| - 1]
    ensures Before(s, spans[|spans| - 1])
  {
    var i :| 0 <= i < |spans| - 1 && spans[i] == s;
  }

  /** The expiration index separates the windows expired before from all others. */
  lemma AboveMark<M, S, R>(c: Config, a: Aggregator<M, S, R>, h: seq<Message<M>>, m: Message<M>, st: Store<Entry<S>>,
                           sc: Scan<S, R>, w: Span)
    requires Context(c, a, h, m, st) && Marked(c, st) && ScanResult(c, a, h, m, st, sc) && w in sc.store.windows
    ensures 0 <= w.start && w == Left(c, w.end)
    ensures w.start > st.lastExpired <==> w.start > ExpiredStart(c, st.latest)
    ensures w !in st.windows ==> w.start > Expired(c, m, st)
  {
    hide FoldAll, Within, Latest, UpdatedExact, Complete;
    ContextFacts(c, a, h, m, st);
  }

  lemma LeftWindowsFrom<M, S, R>(c: Config, a: Aggregator<M, S, R>, value: Span -> R, times: set<int>,
                                 windows: map<Span, Entry<S>>, spans: seq<Span>, low: int, high: int)
    requires Ascending(spans)
    requires forall w :: w in spans ==>
                           && w in windows && w == Left(c, w.end) && low < w.start <= high
                           && IsMax(times, w, windows[w].maxTs) && value(w) == a.result(windows[w].agg)
    requires c.Valid() && Positive(times)
             && forall t :: t in times && low < Left(c, t).start <= high ==> Left(c, t) in spans
    ensures LeftWindows(c, value, times, low, high, LeftEmissions(a, windows, spans))
  {
    LeftEmissionsExact(a, windows, spans);
    forall t | t in times && low < Left(c, t).start <= high
      ensures Emission(Left(c, t), value(Left(c, t))) in LeftEmissions(a, windows, spans)
    {
      assert windows[Left(c, t)].maxTs == t;
    }
  }

  /** Expiry after an exact scan reports exactly the left windows that pass the expiry mark. */
  lemma ExpiryExact<M, S, R>(c: Config, a: Aggregator<M, S, R>, h: seq<Message<M>>, m: Message<M>, st: Store<Entry<S>>,
                             sc: Scan<S, R>)
    requires Context(c, a, h, m, st) && Marked(c, st) && ScanResult(c, a, h, m, st, sc)
    ensures LeftWindows(c, ValueOf(a, h + [m]), Times(h + [m]), ExpiredStart(c, st.latest), Expired(c, m, st),
                        LeftEmissions(a, sc.store.windows, ExpiredSpans(sc.store, Expired(c, m, st))))
  {
    hide FoldAll, Within, Latest, UpdatedExact, Exact, LeftWindows, IsMax, Ideal;
    var windows, spans := sc.store.windows, ExpiredSpans(sc.store, Expired(c, m, st));
    var low, high := ExpiredStart(c, st.latest), Expired(c, m, st);
    ContextFacts(c, a, h, m, st);
    forall w | w in windows ensures w == Left(c, w.end) && (w in spans <==> low < w.start <= high) {
      AboveMark(c, a, h, m, st, sc, w);
    }
    forall t | t in Times(h + [m]) && low < Left(c, t).start <= high ensures Left(c, t) in spans {
      LeftIdeal(c, Times(h + [m]), t);
      StillStored(c, a, h, m, st, sc, t);
    }
    LeftWindowsFrom(c, a, ValueOf(a, h + [m]), Times(h + [m]), windows, spans, low, high);
  }

  /** A left window above the previous expiry mark is still stored after the scan. */
  lemma StillStored<M, S, R>(c: Config, a: Aggregator<M, S, R>, h: seq<Message<M>>, m: Message<M>, st: Store<Entry<S>>,
                             sc: Scan<S, R>, t: int)
    requires Context(c, a, h, m, st) && ScanResult(c, a, h, m, st, sc)
    requires t in Times(h + [m]) && Left(c, t).start > ExpiredStart(c, st.latest)
    ensures Left(c, t) in sc.store.windows
  {
    hide FoldAll, Within, Latest, UpdatedExact;
    ContextFacts(c, a, h, m, st);
    LeftIdeal(c, Times(h + [m]), t);
    if t in Times(h) {
      LeftIdeal(c, Times(h), t);
      assert Left(c, t) in st.windows.Keys;
    }
  }

  /** Deletion removes only windows at or below its bound, and changes none. */
  lemma CleanupKeeps<V>(st: Store<V>, maxExpired: int, maxStart: int)
    ensures
      var out := DeleteWindows(ExpireWindows(st, maxExpired, false), maxStart);
      && out.latest == st.latest
      && (forall w :: w in out.windows ==> w in st.windows && out.windows[w] == st.windows[w])
      && (forall w :: w in st.windows && w.start > maxStart ==> w in out.windows)
  {
  }

  /** After expiry, the index covers every window at or below the bound. */
  lemma CleanupMarks<V>(st: Store<V>, maxExpired: int, maxStart: int)
    requires -1 <= st.lastExpired <= Max(-1, maxExpired) && forall w :: w in st.windows ==> 0 <= w.start
    ensures
      var out := DeleteWindows(ExpireWindows(st, maxExpired, false), maxStart);
      && -1 <= out.lastExpired <= Max(-1, maxExpired)
      && (forall w :: w in out.windows && w.start <= maxExpired ==> w.start <= out.lastExpired)
  {
    var spans := ExpiredSpans(st, maxExpired);
    if spans != [] {
      assert spans[|spans| - 1] in spans;
      forall s | s in spans ensures s.start <= spans[|spans| - 1].start {
        var i :| 0 <= i < |spans| && spans[i] == s;
      }
    }
  }

  /** The store after expiry and deletion is exact, and its expired windows are marked. */
  lemma CleanupExact<M, S, R>(c: Config, a: Aggregator<M, S, R>, h: seq<Message<M>>, m: Message<M>, st: Store<Entry<S>>,
                              sc: Scan<S, R>)
    requires Context(c, a, h, m, st) && Marked(c, st) && ScanResult(c, a, h, m, st, sc)
    ensures
      var st1 := DeleteWindows(ExpireWindows(sc.store, Expired(c, m, st), false), sc.maxDeleted);
      Exact(c, a, h + [m], st1) && Marked(c, st1)
  {
    hide UpdatedExact, DeletionBound, DeleteWindows, ExpireWindows, Sound, Complete, Latest, Times;
    ContextFacts(c, a, h, m, st);
    CleanupKeeps(sc.store, Expired(c, m, st), sc.maxDeleted);
    forall w | w in sc.store.windows ensures 0 <= w.start {
      AboveMark(c, a, h, m, st, sc, w);
    }
    CleanupMarks(sc.store, Expired(c, m, st), sc.maxDeleted);
    FewerExact(c, a, h + [m], sc.store,
               DeleteWindows(ExpireWindows(sc.store, Expired(c, m, st), false), sc.maxDeleted));
  }

  /** Losing only expired windows leaves a store exact. */
  lemma FewerExact<M, S, R>(c: Config, a: Aggregator<M, S, R>, h: seq<Message<M>>, st: Store<Entry<S>>,
                            st1: Store<Entry<S>>)
    requires Positive(Times(h)) && st.latest == Latest(h) && Sound(c, a, h, st.windows)
    requires Complete(c, Times(h), st.windows, ExpiredStart(c, st.latest)) && st1.latest == st.latest
    requires forall w :: w in st1.windows ==> w in st.windows && st1.windows[w] == st.windows[w]
    requires forall w :: w in st.windows && w.start > ExpiredStart(c, st.latest) ==> w in st1.windows
    ensures Exact(c, a, h, st1)
  {
    hide EntryOk, Ideal, Latest, Times, Positive;
  }

  /**
   * One message, in any arrival order: if it is within the grace period and the base of its
   * left window is stored, the store stays exact, the emissions are exactly the affected left
   * windows, and expiry reports exactly the left windows that pass the expiry mark.
   */
  lemma ProcessExact<M, S, R>(c: Config, a: Aggregator<M, S, R>, h: seq<Message<M>>, m: Message<M>, st: Store<Entry<S>>)
    requires Context(c, a, h, m, st) && Marked(c, st) && BaseStored(c, Times(h), m.ts, st.windows)
    ensures
      var out := Process(c, a, m, st);
      && Exact(c, a, h + [m], out.store) && Marked(c, out.store) && out.late == []
      && Updated(c, ValueOf(a, h + [m]), Times(h + [m]), m.ts, out.updated)
      && LeftWindows(c, ValueOf(a, h + [m]), Times(h + [m]), ExpiredStart(c, st.latest),
                     ExpiredStart(c, Max(m.ts, st.latest)), out.expired)
  {
    hide FoldAll, Within, Latest, UpdatedExact, Exact, Marked, EntryOk, Ideal, LeftWindows, Updated, BaseStored;
    FullScanExact(c, a, h, m, st);
    var sc := FullScan(c, a, m, Expired(c, m, st), st);
    CleanupExact(c, a, h, m, st, sc);
    ExpiryExact(c, a, h, m, st, sc);
    ReverseUpdated(c, ValueOf(a, h + [m]), Times(h + [m]), m.ts, sc.updated);
  }

  /**
   * Sufficient conditions on the messages alone: the message is within the grace period, and so is
   * some earlier message in its left window, unless that window has no earlier message or the
   * timestamp was already seen.
   */
  ghost predicate Timely(c: Config, times: set<int>, latest: int, ts: int) {
    && 1 <= ts && ts >= latest - c.grace
    && (ts in times || forall p :: p in times && Left(c, ts).start <= p < ts ==>
                                     exists q :: q in times && Left(c, ts).start <= q < ts && q >= latest - c.grace)
  }

  lemma TimelyBase<M, S, R>(c: Config, a: Aggregator<M, S, R>, h: seq<Message<M>>, m: Message<M>, st: Store<Entry<S>>)
    requires c.Valid() && Exact(c, a, h, st) && Timely(c, Times(h), st.latest, m.ts)
    ensures BaseStored(c, Times(h), m.ts, st.windows)
  {
    hide FoldAll, Within, Latest, EntryOk;
    var times := Times(h);
    if m.ts in times {
      LeftIdeal(c, times, m.ts);
    } else {
      forall p | p in times && Left(c, m.ts).start <= p < m.ts && !Ideal(c, times, Left(c, m.ts))
        ensures exists w :: w in st.windows && Top(c, times, m.ts, w)
      {
        var q :| q in times && Left(c, m.ts).start <= q < m.ts && q >= st.latest - c.grace;
        var top := TopExists(c, times, m.ts, q, m.ts - 1);
        assert top in st.windows;
      }
    }
  }

  /** The store, the expired windows in the order they come out, and the updated windows message by message. */
  datatype RunState<S, R> = RunState(store: Store<Entry<S>>, expired: seq<Emission<R>>, updated: seq<seq<Emission<R>>>)

  /** The messages of one key processed one by one. */
  function Run<M, S, R>(c: Config, a: Aggregator<M, S, R>, msgs: seq<Message<M>>): RunState<S, R> {
    if msgs == [] then RunState(Empty(), [], [])
    else
      var r := Run(c, a, msgs[..|msgs| - 1]);
      var out := Process(c, a, msgs[|msgs| - 1], r.store);
      RunState(out.store, r.expired + out.expired, r.updated + [out.updated])
  }

  ghost predicate AllTimely<M>(c: Config, msgs: seq<Message<M>>) {
    forall i :: 0 <= i < |msgs| ==> Timely(c, Times(msgs[..i]), Latest(msgs[..i]), msgs[i].ts)
  }

  /** Each message handed on exactly the left windows that contain it, with the folds over the messages up to it. */
  ghost predicate CurrentExact<M, S, R>(c: Config, a: Aggregator<M, S, R>, msgs: seq<Message<M>>,
                                        updated: seq<seq<Emission<R>>>) {
    && |updated| == |msgs|
    && forall i :: 0 <= i < |msgs| ==>
         Updated(c, ValueOf(a, msgs[..i + 1]), Times(msgs[..i + 1]), msgs[i].ts, updated[i])
  }

  lemma CurrentSnoc<M, S, R>(c: Config, a: Aggregator<M, S, R>, h: seq<Message<M>>, m: Message<M>,
                             before: seq<seq<Emission<R>>>, updated: seq<Emission<R>>)
    requires CurrentExact(c, a, h, before) && Updated(c, ValueOf(a, h + [m]), Times(h + [m]), m.ts, updated)
    ensures CurrentExact(c, a, h + [m], before + [updated])
  {
    hide Updated, Times;
    var msgs := h + [m];
    forall i | 0 <= i < |msgs|
      ensures Updated(c, ValueOf(a, msgs[..i + 1]), Times(msgs[..i + 1]), msgs[i].ts, (before + [updated])[i])
    {
      if i < |h| {
        assert msgs[..i + 1] == h[..i + 1];
      } else {
        assert msgs[..i + 1] == msgs;
      }
    }
  }

  /**
   * The state of a run in which nothing went wrong: exact store, exact updates, and each expired
   * left window out once with its final value.
   */
  ghost predicate RunExact<M, S, R>(c: Config, a: Aggregator<M, S, R>, msgs: seq<Message<M>>, r: RunState<S, R>) {
    && Exact(c, a, msgs, r.store) && Marked(c, r.store) && CurrentExact(c, a, msgs, r.updated)
    && LeftWindows(c, ValueOf(a, msgs), Times(msgs), ExpiredStart(c, 0), ExpiredStart(c, r.store.latest), r.expired)
  }

  /** What expired before the message keeps its value and cannot come out again. */
  lemma ExpiredStays<M, S, R>(c: Config, a: Aggregator<M, S, R>, h: seq<Message<M>>, m: Message<M>, st: Store<Entry<S>>,
                              first: seq<Emission<R>>, second: seq<Emission<R>>, low: int)
    requires Context(c, a, h, m, st)
    requires LeftWindows(c, ValueOf(a, h), Times(h), low, ExpiredStart(c, st.latest), first)
    requires LeftWindows(c, ValueOf(a, h + [m]), Times(h + [m]), ExpiredStart(c, st.latest), Expired(c, m, st), second)
    requires low <= ExpiredStart(c, st.latest)
    ensures LeftWindows(c, ValueOf(a, h + [m]), Times(h + [m]), low, Expired(c, m, st), first + second)
  {
    hide FoldAll, Within, Latest, Exact;
    ContextFacts(c, a, h, m, st);
    var v, v1 := ValueOf(a, h), ValueOf(a, h + [m]);
    forall t | t in Times(h + [m]) && Left(c, t).start <= ExpiredStart(c, st.latest)
      ensures t in Times(h) && v(Left(c, t)) == v1(Left(c, t))
    {
      if Left(c, t).end >= m.ts {
        ReachingStored(c, a, h, m, st, Left(c, t));
        assert false;
      }
      WithinOutside(h, m, Left(c, t).start, Left(c, t).end);
    }
    JoinLeftWindows(c, v, v1, Times(h), Times(h + [m]), low, ExpiredStart(c, st.latest), Expired(c, m, st), first,
                    second);
  }

  lemma JoinLeftWindows<R>(c: Config, v: Span -> R, v1: Span -> R, times: set<int>, times1: set<int>, low: int,
                           mid: int, high: int, first: seq<Emission<R>>, second: seq<Emission<R>>)
    requires LeftWindows(c, v, times, low, mid, first) && LeftWindows(c, v1, times1, mid, high, second)
    requires times <= times1 && low <= mid <= high
    requires forall t :: t in times1 && Left(c, t).start <= mid ==> t in times && v(Left(c, t)) == v1(Left(c, t))
    ensures LeftWindows(c, v1, times1, low, high, first + second)
  {
    var all := first + second;
    forall i, j | 0 <= i < j < |all| ensures Before(all[i].span, all[j].span) {
      if i < |first| <= j {
        assert first[i] in first && second[j - |first|] in second;
      }
    }
  }

  /**
   * Whole runs: when every message is timely, every stored window is the fold of exactly its
   * messages, each message handed on exactly the left windows it fell into with their folds so far,
   * and the expired windows that came out are the left windows at or below the expiry
   * mark, each exactly once, in order, with the fold over the complete history.
   */
  lemma {:induction false} RunsExact<M, S, R>(c: Config, a: Aggregator<M, S, R>, msgs: seq<Message<M>>)
    requires c.Valid() && AllTimely(c, msgs)
    ensures RunExact(c, a, msgs, Run(c, a, msgs))
  {
    hide RunExact, Timely, Process, Latest, Times;
    if msgs == [] {
      EmptyRun(c, a);
    } else {
      var n := |msgs| - 1;
      var h, m := msgs[..n], msgs[n];
      assert forall i :: 0 <= i <= n ==> h[..i] == msgs[..i];
      RunsExact(c, a, h);
      assert h + [m] == msgs;
      TimelyFacts(c, Times(h), Latest(h), m.ts);
      RunLatest(c, a, h, Run(c, a, h));
      RunStep(c, a, h, m, Run(c, a, h));
    }
  }

  lemma RunLatest<M, S, R>(c: Config, a: Aggregator<M, S, R>, h: seq<Message<M>>, r: RunState<S, R>)
    requires RunExact(c, a, h, r)
    ensures r.store.latest == Latest(h)
  {
    hide Marked, CurrentExact, LeftWindows, Sound, Complete, Latest;
  }

  lemma EmptyRun<M, S, R>(c: Config, a: Aggregator<M, S, R>)
    requires c.Valid()
    ensures RunExact(c, a, [], Run(c, a, []))
  {
    var none: seq<Message<M>> := [];
    assert Times(none) == {};
  }

  lemma TimelyFacts(c: Config, times: set<int>, latest: int, ts: int)
    requires Timely(c, times, latest, ts)
    ensures 1 <= ts && ts >= latest - c.grace
  {
  }

  lemma RunStep<M, S, R>(c: Config, a: Aggregator<M, S, R>, h: seq<Message<M>>, m: Message<M>, r: RunState<S, R>)
    requires c.Valid() && RunExact(c, a, h, r) && 1 <= m.ts && m.ts >= r.store.latest - c.grace
    requires Timely(c, Times(h), r.store.latest, m.ts) || BaseStored(c, Times(h), m.ts, r.store.windows)
    ensures var out := Process(c, a, m, r.store);
            RunExact(c, a, h + [m], RunState(out.store, r.expired + out.expired, r.updated + [out.updated]))
  {
    hide CurrentExact, FoldAll, Within, Latest, LeftWindows, Updated, Sound, Complete, Marked, BaseStored, Timely;
    if Timely(c, Times(h), r.store.latest, m.ts) {
      TimelyBase(c, a, h, m, r.store);
    }
    ProcessExact(c, a, h, m, r.store);
    ContextFacts(c, a, h, m, r.store);
    ExpiredStays(c, a, h, m, r.store, r.expired, Process(c, a, m, r.store).expired, ExpiredStart(c, 0));
    CurrentSnoc(c, a, h, m, r.updated, Process(c, a, m, r.store).updated);
  }
}
