/**
 * Left windows in runs within the grace period: each is stored until it expires and comes out once
 * (windows/sliding.py).
 */
module SlidingLefts {
  import opened Wrappers
  import opened Aggregation
  import opened WindowStore
  import opened Sliding
  import opened SlidingSpec
  import opened SlidingRun
  import opened SlidingPast

  /** Largest timestamps are seen ones, and windows that were not there before start above the mark. */
  ghost predicate Fresh<S>(times: set<int>, before: map<Span, Entry<S>>, expired: int, windows: map<Span, Entry<S>>) {
    forall w :: w in windows ==> windows[w].maxTs in times && (w in before || w.start > expired)
  }

  /** The left windows of the seen timestamps above the mark are stored, each with its own timestamp as the largest. */
  ghost predicate LeftsStored<S>(c: Config, times: set<int>, windows: map<Span, Entry<S>>, above: int) {
    forall t :: t in times && Left(c, t).start > above ==>
                  Left(c, t) in windows && windows[Left(c, t)].maxTs == t
  }

  /** What a run within the grace period keeps, however wrong its aggregates. */
  ghost predicate LeftsOk<M, S>(c: Config, h: seq<Message<M>>, st: Store<Entry<S>>) {
    && c.Valid() && Positive(Times(h)) && st.latest == Latest(h) && Shaped(c, st.windows) && Marked(c, st)
    && (forall w :: w in st.windows ==> st.windows[w].maxTs in Times(h))
    && LeftsStored(c, Times(h), st.windows, ExpiredStart(c, st.latest))
  }

  // ----- One scan -----

  lemma StepFresh<M, S, R>(c: Config, a: Aggregator<M, S, R>, m: Message<M>, times: set<int>,
                           before: map<Span, Entry<S>>, expired: int, w: Span, e: Entry<S>, sc: Scan<S, R>)
    requires c.Valid() && 1 <= m.ts && m.ts - c.duration > expired && m.ts in times && e.maxTs in times
    requires w in before && w == Left(c, w.end) && w.start <= e.maxTs <= w.end
             && Fresh(times, before, expired, sc.store.windows)
    ensures Fresh(times, before, expired, ScanStep(c, a, m, expired, w, e, sc).store.windows)
    ensures sc.store.latest <= ScanStep(c, a, m, expired, w, e, sc).store.latest
  {
  }

  lemma {:induction false} ScanFresh<M, S, R>(c: Config, a: Aggregator<M, S, R>, m: Message<M>, times: set<int>,
                                              expired: int, windows: map<Span, Entry<S>>, spans: seq<Span>,
                                              sc: Scan<S, R>)
    requires c.Valid() && 1 <= m.ts && m.ts - c.duration > expired && m.ts in times && Shaped(c, windows)
    requires (forall s :: s in spans ==> s in windows) && forall w :: w in windows ==> windows[w].maxTs in times
    requires Fresh(times, windows, expired, sc.store.windows)
    ensures var r := ScanDown(c, a, m, expired, windows, spans, sc);
            Fresh(times, windows, expired, r.store.windows) && sc.store.latest <= r.store.latest
    decreases |spans|
  {
    hide ScanStep, Fresh;
    if !sc.done && spans != [] {
      var n := |spans| - 1;
      assert forall s :: s in spans[..n] ==> s in spans;
      assert spans[n] in spans;
      StepFresh(c, a, m, times, windows, expired, spans[n], windows[spans[n]], sc);
      ScanFresh(c, a, m, times, expired, windows, spans[..n],
                ScanStep(c, a, m, expired, spans[n], windows[spans[n]], sc));
    }
  }

  /** The left window holds the message's timestamp, and the store's latest one is not below it. */
  ghost predicate HasLeft<S, R>(c: Config, ts: int, sc: Scan<S, R>) {
    && Left(c, ts) in sc.store.windows && sc.store.windows[Left(c, ts)].maxTs == ts
    && ts <= sc.store.latest
  }

  lemma StepHasLeft<M, S, R>(c: Config, a: Aggregator<M, S, R>, m: Message<M>, expired: int, w: Span, e: Entry<S>,
                             sc: Scan<S, R>)
    requires c.Valid() && 1 <= m.ts && Left(c, m.ts).start > expired && w == Left(c, w.end) && !sc.done
    ensures var sc1 := ScanStep(c, a, m, expired, w, e, sc); sc1.done ==> HasLeft(c, m.ts, sc1)
  {
  }

  lemma {:induction false} ScanHasLeft<M, S, R>(c: Config, a: Aggregator<M, S, R>, m: Message<M>, expired: int,
                                                windows: map<Span, Entry<S>>, spans: seq<Span>, sc: Scan<S, R>)
    requires c.Valid() && 1 <= m.ts && Left(c, m.ts).start > expired && Shaped(c, windows)
    requires forall s :: s in spans ==> s in windows
    requires sc.done ==> HasLeft(c, m.ts, sc)
    ensures var r := ScanDown(c, a, m, expired, windows, spans, sc); r.done ==> HasLeft(c, m.ts, r)
    decreases |spans|
  {
    hide ScanStep, HasLeft;
    if !sc.done && spans != [] {
      var n := |spans| - 1;
      assert forall s :: s in spans[..n] ==> s in spans;
      assert spans[n] in spans;
      StepHasLeft(c, a, m, expired, spans[n], windows[spans[n]], sc);
      ScanHasLeft(c, a, m, expired, windows, spans[..n],
                  ScanStep(c, a, m, expired, spans[n], windows[spans[n]], sc));
    }
  }

  /** The whole scan of a message within the grace period. */
  lemma FullScanLefts<M, S, R>(c: Config, a: Aggregator<M, S, R>, h: seq<Message<M>>, m: Message<M>,
                               st: Store<Entry<S>>)
    requires LeftsOk(c, h, st) && 1 <= m.ts && m.ts >= st.latest - c.grace
    ensures
      var expired := ExpiredStart(c, Max(m.ts, st.latest));
      var sc := FullScan(c, a, m, expired, st);
      && Shaped(c, sc.store.windows) && Fresh(Times(h + [m]), st.windows, expired, sc.store.windows)
      && HasLeft(c, m.ts, sc) && sc.store.latest == Max(m.ts, st.latest)
      && sc.maxDeleted <= expired && sc.store.lastExpired == st.lastExpired
  {
    hide ScanDown, Candidates, Times, Latest, Marked, LeftsStored;
    var expired := ExpiredStart(c, Max(m.ts, st.latest));
    var spans, start := Candidates(c, m.ts, st), ScanStart<S, R>(c, m.ts, expired, st);
    TimesSnoc(h, m);
    ScanFresh(c, a, m, Times(h + [m]), expired, st.windows, spans, start);
    ScanHasLeft(c, a, m, expired, st.windows, spans, start);
    ScanLatest(c, a, m, expired, st.windows, spans, start);
    ScanShaped(c, a, m, expired, st.windows, spans, start);
    DeletesBelow(c, a, m, expired, st.windows, spans, start);
    ScanIndex(c, a, m, expired, st.windows, spans, start);
  }

  lemma {:induction false} ScanIndex<M, S, R>(c: Config, a: Aggregator<M, S, R>, m: Message<M>, expired: int,
                                              windows: map<Span, Entry<S>>, spans: seq<Span>, sc: Scan<S, R>)
    requires forall s :: s in spans ==> s in windows
    ensures ScanDown(c, a, m, expired, windows, spans, sc).store.lastExpired == sc.store.lastExpired
    decreases |spans|
  {
    if !sc.done && spans != [] {
      var n := |spans| - 1;
      assert forall s :: s in spans[..n] ==> s in spans;
      ScanIndex(c, a, m, expired, windows, spans[..n], ScanStep(c, a, m, expired, spans[n], windows[spans[n]], sc));
    }
  }

  /** The left windows already stored stay so. */
  lemma ScanKeepsLefts<M, S, R>(c: Config, a: Aggregator<M, S, R>, h: seq<Message<M>>, m: Message<M>,
                                st: Store<Entry<S>>)
    requires LeftsOk(c, h, st) && 1 <= m.ts && m.ts >= st.latest - c.grace
    ensures
      var expired := ExpiredStart(c, Max(m.ts, st.latest));
      var windows := FullScan(c, a, m, expired, st).store.windows;
      && LeftsStored(c, Times(h + [m]), windows, expired)
      && forall t :: t in Times(h + [m]) && Left(c, t).start > ExpiredStart(c, st.latest) ==>
                       Left(c, t) in windows && windows[Left(c, t)].maxTs == t
  {
    hide FullScan, Latest, Times, Marked;
    var expired := ExpiredStart(c, Max(m.ts, st.latest));
    var windows := FullScan(c, a, m, expired, st).store.windows;
    FullScanLefts(c, a, h, m, st);
    TimesSnoc(h, m);
    forall t | t in Times(h + [m]) && Left(c, t).start > ExpiredStart(c, st.latest)
      ensures Left(c, t) in windows && windows[Left(c, t)].maxTs == t
    {
      if t != m.ts {
        if Left(c, t).start > expired {
          FullScanKeeps(c, a, m, st, Left(c, t));
        } else {
          OutsideKeeps(c, a, m, st, Left(c, t));
        }
      }
    }
  }

  /** A window that does not hold the message is left as it is. */
  lemma OutsideKeeps<M, S, R>(c: Config, a: Aggregator<M, S, R>, m: Message<M>, st: Store<Entry<S>>, w: Span)
    requires c.Valid() && 1 <= m.ts && Shaped(c, st.windows) && w in st.windows && !Holds(w, m.ts)
    ensures var windows := FullScan(c, a, m, ExpiredStart(c, Max(m.ts, st.latest)), st).store.windows;
            w in windows && (w.end != m.ts ==> windows[w] == st.windows[w])
  {
    var expired := ExpiredStart(c, Max(m.ts, st.latest));
    var spans, start := Candidates(c, m.ts, st), ScanStart<S, R>(c, m.ts, expired, st);
    hide ScanStep, Candidates;
    ScanLeaves(c, a, m, expired, st.windows, spans, w, st.windows[w], start);
    hide ScanDown;
  }

  // ----- One message -----

  /** The left windows of the seen timestamps with low < start <= high, in key order, each once. */
  ghost predicate LeftSpans<R>(c: Config, times: set<int>, low: int, high: int, emitted: seq<Emission<R>>) {
    && (forall i, j :: 0 <= i < j < |emitted| ==> Before(emitted[i].span, emitted[j].span))
    && (forall x :: x in emitted ==>
                      x.span == Left(c, x.span.end) && x.span.end in times && low < x.span.start <= high)
    && (forall t :: t in times && low < Left(c, t).start <= high ==> HandsOn(emitted, Left(c, t)))
  }

  /** The expiration index separates what expired before from all else. */
  lemma ReportedIff<S>(c: Config, times: set<int>, st: Store<Entry<S>>, store: Store<Entry<S>>, expired: int, w: Span)
    requires c.Valid() && Marked(c, st) && Shaped(c, store.windows) && store.lastExpired == st.lastExpired
    requires Fresh(times, st.windows, expired, store.windows) && ExpiredStart(c, st.latest) <= expired
    requires w in store.windows
    ensures w in ExpiredSpans(store, expired) <==> ExpiredStart(c, st.latest) < w.start <= expired
  {
    assert 0 <= w.start;
  }

  lemma EmissionsLefts<M, S, R>(c: Config, a: Aggregator<M, S, R>, times: set<int>, windows: map<Span, Entry<S>>,
                                spans: seq<Span>, low: int, high: int)
    requires Ascending(spans) && forall w :: w in spans ==> w in windows
    requires forall w :: w in windows ==>
                           w == Left(c, w.end) && windows[w].maxTs in times && (w in spans <==> low < w.start <= high)
    requires forall t :: t in times && Left(c, t).start > low ==>
                           Left(c, t) in windows && windows[Left(c, t)].maxTs == t
    ensures LeftSpans(c, times, low, high, LeftEmissions(a, windows, spans))
  {
    LeftEmissionsExact(a, windows, spans);
    var out := LeftEmissions(a, windows, spans);
    hide LeftEmissions, Ascending;
    forall t | t in times && low < Left(c, t).start <= high ensures HandsOn(out, Left(c, t)) {
      assert Emission(Left(c, t), a.result(windows[Left(c, t)].agg)) in out;
    }
  }

  lemma ExpiryLefts<M, S, R>(c: Config, a: Aggregator<M, S, R>, h: seq<Message<M>>, m: Message<M>, st: Store<Entry<S>>)
    requires LeftsOk(c, h, st) && 1 <= m.ts && m.ts >= st.latest - c.grace
    ensures
      var expired := ExpiredStart(c, Max(m.ts, st.latest));
      var store := FullScan(c, a, m, expired, st).store;
      LeftSpans(c, Times(h + [m]), ExpiredStart(c, st.latest), expired,
                LeftEmissions(a, store.windows, ExpiredSpans(store, expired)))
  {
    hide FullScan, Latest, Times, Marked, LeftSpans, LeftEmissions, Positive, HasLeft;
    var expired, low, times := ExpiredStart(c, Max(m.ts, st.latest)), ExpiredStart(c, st.latest), Times(h + [m]);
    var store := FullScan(c, a, m, expired, st).store;
    FullScanLefts(c, a, h, m, st);
    ScanKeepsLefts(c, a, h, m, st);
    forall w | w in store.windows ensures w in ExpiredSpans(store, expired) <==> low < w.start <= expired {
      ReportedIff(c, times, st, store, expired, w);
    }
    EmissionsLefts(c, a, times, store.windows, ExpiredSpans(store, expired), low, expired);
  }

  /** Expiry and deletion keep the left windows above the mark. */
  lemma CleanupLefts<M, S>(c: Config, h: seq<Message<M>>, st: Store<Entry<S>>, before: map<Span, Entry<S>>,
                           maxStart: int)
    requires c.Valid() && Positive(Times(h)) && st.latest == Latest(h) && Shaped(c, st.windows)
    requires var expired := ExpiredStart(c, st.latest);
             && maxStart <= expired && -1 <= st.lastExpired <= Max(-1, expired)
             && Fresh(Times(h), before, expired, st.windows) && LeftsStored(c, Times(h), st.windows, expired)
    ensures LeftsOk(c, h, DeleteWindows(ExpireWindows(st, ExpiredStart(c, st.latest), false), maxStart))
  {
    hide DeleteWindows, ExpireWindows, Latest, Times, Positive;
    var expired := ExpiredStart(c, st.latest);
    CleanupKeeps(st, expired, maxStart);
    CleanupMarks(st, expired, maxStart);
  }

  /** One message within the grace period, whatever the aggregates are. */
  lemma ProcessLefts<M, S, R>(c: Config, a: Aggregator<M, S, R>, h: seq<Message<M>>, m: Message<M>, st: Store<Entry<S>>)
    requires LeftsOk(c, h, st) && 1 <= m.ts && m.ts >= st.latest - c.grace
    ensures
      var out := Process(c, a, m, st);
      && LeftsOk(c, h + [m], out.store)
      && LeftSpans(c, Times(h + [m]), ExpiredStart(c, Latest(h)), ExpiredStart(c, Latest(h + [m])), out.expired)
  {
    hide FullScan, Latest, Times, LeftEmissions, DeleteWindows, ExpireWindows, LeftSpans, Fresh, LeftsStored, HasLeft;
    var expired := ExpiredStart(c, Max(m.ts, st.latest));
    var sc := FullScan(c, a, m, expired, st);
    FullScanLefts(c, a, h, m, st);
    ScanKeepsLefts(c, a, h, m, st);
    ExpiryLefts(c, a, h, m, st);
    LatestSnoc(h, m);
    TimesSnoc(h, m);
    CleanupLefts(c, h + [m], sc.store, st.windows, sc.maxDeleted);
  }

  // ----- Whole runs -----

  /** All messages are at most the grace period behind. */
  lemma {:induction false} RunsLefts<M, S, R>(c: Config, a: Aggregator<M, S, R>, msgs: seq<Message<M>>)
    requires c.Valid() && LateBy(1, c.grace, msgs)
    ensures LeftsOk(c, msgs, Run(c, a, msgs).store)
    ensures LeftSpans(c, Times(msgs), ExpiredStart(c, 0), ExpiredStart(c, Latest(msgs)), Run(c, a, msgs).expired)
  {
    hide Process, LeftsOk, LeftSpans, Latest, Times;
    if msgs == [] {
      NoLefts<M, S, R>(c, a);
    } else {
      var n := |msgs| - 1;
      var h, m := msgs[..n], msgs[n];
      assert h + [m] == msgs;
      FewerLate(c, msgs);
      RunsLefts(c, a, h);
      var r := Run(c, a, h);
      LatestIs(c, h, r.store);
      ProcessLefts(c, a, h, m, r.store);
      JoinSpans(c, h, m, r.expired, Process(c, a, m, r.store).expired);
    }
  }

  lemma NoLefts<M, S, R>(c: Config, a: Aggregator<M, S, R>)
    requires c.Valid()
    ensures LeftsOk<M, S>(c, [], Run<M, S, R>(c, a, []).store)
    ensures LeftSpans(c, Times<M>([]), ExpiredStart(c, 0), ExpiredStart(c, Latest<M>([])),
                      Run<M, S, R>(c, a, []).expired)
  {
  }

  lemma LatestIs<M, S>(c: Config, h: seq<Message<M>>, st: Store<Entry<S>>)
    requires LeftsOk(c, h, st)
    ensures st.latest == Latest(h)
  {
    hide Marked, LeftsStored, Shaped;
  }

  lemma FewerLate<M>(c: Config, msgs: seq<Message<M>>)
    requires LateBy(1, c.grace, msgs) && msgs != []
    ensures var n := |msgs| - 1;
            && LateBy(1, c.grace, msgs[..n])
            && 1 <= msgs[n].ts && msgs[n].ts >= Latest(msgs[..n]) - c.grace
  {
    hide Latest;
    var n := |msgs| - 1;
    forall i | 0 <= i < n ensures msgs[..n][..i] == msgs[..i] {
    }
  }

  /** What came out before stays complete: the new message's left window is above the old mark. */
  lemma JoinSpans<M, R>(c: Config, h: seq<Message<M>>, m: Message<M>, first: seq<Emission<R>>, second: seq<Emission<R>>)
    requires c.Valid() && m.ts >= Latest(h) - c.grace
    requires LeftSpans(c, Times(h), ExpiredStart(c, 0), ExpiredStart(c, Latest(h)), first)
    requires LeftSpans(c, Times(h + [m]), ExpiredStart(c, Latest(h)), ExpiredStart(c, Latest(h + [m])), second)
    ensures LeftSpans(c, Times(h + [m]), ExpiredStart(c, 0), ExpiredStart(c, Latest(h + [m])), first + second)
  {
    hide Latest, Times, HandsOn;
    LatestSnoc(h, m);
    TimesSnoc(h, m);
    var all := first + second;
    forall i, j | 0 <= i < j < |all| ensures Before(all[i].span, all[j].span) {
      if i < |first| <= j {
        assert first[i] in first && second[j - |first|] in second;
      }
    }
    forall w ensures HandsOn(all, w) <==> HandsOn(first, w) || HandsOn(second, w) {
      HandsOnJoin(first, second, w);
    }
  }

  lemma HandsOnJoin<R>(first: seq<Emission<R>>, second: seq<Emission<R>>, w: Span)
    ensures HandsOn(first + second, w) <==> HandsOn(first, w) || HandsOn(second, w)
  {
    assert forall x :: x in first + second <==> x in first || x in second;
  }
}
