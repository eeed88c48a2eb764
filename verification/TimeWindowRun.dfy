/** Tumbling and hopping windows over whole runs: finality, and completeness under bounded lateness. */
module TimeWindowRun {
  import opened Wrappers
  import opened Aggregation
  import opened WindowStore
  import opened WindowRanges
  import opened TimeWindow

  lemma AcceptedSnoc<M>(c: Config, h: seq<Message<M>>, m: Message<M>, w: Span)
    ensures Accepted(c, h + [m], w)
         == Accepted(c, h, w)
         + (if w.start <= m.ts < w.end && w.start > ClosedStart(c, Max(m.ts, Latest(h))) then [m] else [])
  {
    assert (h + [m])[..|h|] == h;
    LatestSnoc(h, m);
  }

  lemma AcceptedSkip<M>(c: Config, h: seq<Message<M>>, m: Message<M>, w: Span)
    requires !(w.start <= m.ts < w.end && w.start > ClosedStart(c, Max(m.ts, Latest(h))))
    ensures Accepted(c, h + [m], w) == Accepted(c, h, w)
  {
    AcceptedSnoc(c, h, m, w);
    assert Accepted(c, h, w) + [] == Accepted(c, h, w);
  }

  /** The open windows among those in done hold the extended fold; the others are unchanged. */
  ghost predicate Written<M, S, R>(c: Config, a: Aggregator<M, S, R>, h: seq<Message<M>>, m: Message<M>, closed: int,
                                   st: Store<S>, done: seq<Span>, windows: map<Span, S>)
  {
    && (forall w :: w in windows <==> w in st.windows || (w in done && w.start > closed))
    && (forall w :: w in windows && !(w in done && w.start > closed) ==> windows[w] == st.windows[w])
    && (forall w :: w in done && w.start > closed ==> windows[w] == FoldAll(a, Accepted(c, h + [m], w)))
  }

  ghost predicate Containing<M>(c: Config, m: Message<M>, ranges: seq<Span>)
    requires c.step > 0
  {
    Ascending(ranges) && forall w :: w in ranges ==> IsWindow(c.duration, c.step, w) && Contains(w, m.ts)
  }

  lemma ContainingPrefix<M>(c: Config, m: Message<M>, ranges: seq<Span>)
    requires c.step > 0 && Containing(c, m, ranges) && ranges != []
    ensures Containing(c, m, ranges[..|ranges| - 1]) && ranges[|ranges| - 1] in ranges
    ensures forall v :: v in ranges[..|ranges| - 1] ==> v.start < ranges[|ranges| - 1].start
  {
    var n := |ranges| - 1;
    forall v | v in ranges[..n] ensures v in ranges && v.start < ranges[n].start {
      var i :| 0 <= i < n && ranges[..n][i] == v;
      assert ranges[i] in ranges && ranges[n] in ranges && Before(ranges[i], ranges[n]);
    }
  }

  lemma WrittenNone<M, S, R>(c: Config, a: Aggregator<M, S, R>, h: seq<Message<M>>, m: Message<M>, closed: int,
                             st: Store<S>)
    ensures Written(c, a, h, m, closed, st, [], st.windows)
  {
  }

  lemma WrittenSnoc<M, S, R>(c: Config, a: Aggregator<M, S, R>, h: seq<Message<M>>, m: Message<M>, closed: int,
                             st: Store<S>, done: seq<Span>, windows: map<Span, S>, w: Span)
    requires Written(c, a, h, m, closed, st, done, windows)
    ensures w.start <= closed ==> Written(c, a, h, m, closed, st, done + [w], windows)
    ensures w.start > closed ==>
              Written(c, a, h, m, closed, st, done + [w], windows[w := FoldAll(a, Accepted(c, h + [m], w))])
  {
    hide Accepted, FoldAll;
    assert forall v :: v in done + [w] <==> v in done || v == w;
  }

  lemma {:induction false} UpdateAllWrites<M, S, R>(c: Config, a: Aggregator<M, S, R>, h: seq<Message<M>>,
                                                    m: Message<M>, st: Store<S>, ranges: seq<Span>)
    requires c.Valid() && Exact(c, a, h, st) && Containing(c, m, ranges)
    ensures
      var closed := ClosedStart(c, Max(m.ts, st.latest));
      var s := UpdateAll(a, m, closed, ranges, st);
      && Written(c, a, h, m, closed, st, ranges, s.store.windows)
      && s.store.lastExpired == st.lastExpired
      && (s.store.latest == st.latest || s.store.latest == Max(m.ts, st.latest))
      && (ranges != [] && ranges[|ranges| - 1].start > closed ==> s.store.latest == Max(m.ts, st.latest))
  {
    hide Latest, Accepted, FoldAll, Exact, Written;
    WrittenNone(c, a, h, m, ClosedStart(c, Max(m.ts, st.latest)), st);
    if ranges != [] {
      var n := |ranges| - 1;
      var w, closed := ranges[n], ClosedStart(c, Max(m.ts, st.latest));
      assert ranges == ranges[..n] + [w];
      ContainingPrefix(c, m, ranges);
      UpdateAllWrites(c, a, h, m, st, ranges[..n]);
      WrittenSnoc(c, a, h, m, closed, st, ranges[..n], UpdateAll(a, m, closed, ranges[..n], st).store.windows, w);
      if w.start > closed {
        UpdateOneValue(c, a, h, m, st, w);
        FirstWrite(c, a, h, m, closed, st, ranges[..n], UpdateAll(a, m, closed, ranges[..n], st).store.windows, w);
      }
    }
  }

  /** A window not written yet still has its old value. */
  lemma FirstWrite<M, S, R>(c: Config, a: Aggregator<M, S, R>, h: seq<Message<M>>, m: Message<M>, closed: int,
                            st: Store<S>, done: seq<Span>, windows: map<Span, S>, w: Span)
    requires Written(c, a, h, m, closed, st, done, windows) && forall v :: v in done ==> v.start < w.start
    ensures w in windows <==> w in st.windows
    ensures w in windows ==> windows[w] == st.windows[w]
  {
    hide Accepted, FoldAll;
  }

  /** The emissions of the update loop: the open windows among the ranges, in their order. */
  ghost predicate EmitsOpen<R>(value: Span -> R, closed: int, ranges: seq<Span>, updated: seq<Emission<R>>,
                               late: seq<Span>) {
    && (forall i, j :: 0 <= i < j < |updated| ==> updated[i].span.start < updated[j].span.start)
    && (forall x :: x in updated ==> x.span in ranges && x.span.start > closed && x.value == value(x.span))
    && (forall w :: w in ranges && w.start > closed ==> Emission(w, value(w)) in updated)
    && (forall i, j :: 0 <= i < j < |late| ==> late[i].start < late[j].start)
    && (forall w :: w in late <==> w in ranges && w.start <= closed)
  }

  lemma {:induction false} UpdateAllEmits<M, S, R>(c: Config, a: Aggregator<M, S, R>, h: seq<Message<M>>, m: Message<M>,
                                                   st: Store<S>, ranges: seq<Span>)
    requires c.Valid() && Exact(c, a, h, st) && Containing(c, m, ranges)
    ensures
      var closed := ClosedStart(c, Max(m.ts, st.latest));
      var s := UpdateAll(a, m, closed, ranges, st);
      EmitsOpen(ValueOf(c, a, h + [m]), closed, ranges, s.updated, s.late)
  {
    hide Latest, Accepted, FoldAll, Exact;
    if ranges != [] {
      var n := |ranges| - 1;
      var w, closed := ranges[n], ClosedStart(c, Max(m.ts, st.latest));
      assert ranges == ranges[..n] + [w];
      ContainingPrefix(c, m, ranges);
      UpdateAllEmits(c, a, h, m, st, ranges[..n]);
      UpdateAllWrites(c, a, h, m, st, ranges[..n]);
      if w.start > closed {
        UpdateOneValue(c, a, h, m, st, w);
        FirstWrite(c, a, h, m, closed, st, ranges[..n], UpdateAll(a, m, closed, ranges[..n], st).store.windows, w);
        var x := Emission(w, ValueOf(c, a, h + [m])(w));
        EmitsOpenSnoc(ValueOf(c, a, h + [m]), closed, ranges[..n], w, UpdateAll(a, m, closed, ranges[..n], st).updated,
                      UpdateAll(a, m, closed, ranges[..n], st).late);
      } else {
        EmitsClosedSnoc(ValueOf(c, a, h + [m]), closed, ranges[..n], w,
                        UpdateAll(a, m, closed, ranges[..n], st).updated,
                        UpdateAll(a, m, closed, ranges[..n], st).late);
      }
    }
  }

  lemma EmitsOpenSnoc<R>(value: Span -> R, closed: int, ranges: seq<Span>, w: Span, updated: seq<Emission<R>>,
                         late: seq<Span>)
    requires EmitsOpen(value, closed, ranges, updated, late) && w.start > closed
             && forall v :: v in ranges ==> v.start < w.start
    ensures EmitsOpen(value, closed, ranges + [w], updated + [Emission(w, value(w))], late)
  {
  }

  lemma EmitsClosedSnoc<R>(value: Span -> R, closed: int, ranges: seq<Span>, w: Span, updated: seq<Emission<R>>,
                           late: seq<Span>)
    requires EmitsOpen(value, closed, ranges, updated, late) && w.start <= closed
             && forall v :: v in ranges ==> v.start < w.start
    ensures EmitsOpen(value, closed, ranges + [w], updated, late + [w])
  {
  }

  /** Aggregating into an open window extends the fold over its accepted messages. */
  lemma UpdateOneValue<M, S, R>(c: Config, a: Aggregator<M, S, R>, h: seq<Message<M>>, m: Message<M>, st: Store<S>,
                                w: Span)
    requires c.Valid() && Exact(c, a, h, st) && IsWindow(c.duration, c.step, w) && Contains(w, m.ts)
    requires w.start > ClosedStart(c, Max(m.ts, st.latest))
    ensures FoldAll(a, Accepted(c, h + [m], w))
            == a.agg(if w in st.windows then st.windows[w] else a.initial, m.value, m.ts)
  {
    hide Latest;
    AcceptedSnoc(c, h, m, w);
    FoldAllSnoc(a, Accepted(c, h, w), m);
  }

  lemma {:induction false} EmissionsExact<M, S, R>(a: Aggregator<M, S, R>, windows: map<Span, S>, spans: seq<Span>)
    requires forall s :: s in spans ==> s in windows
    ensures
      var r := Emissions(a, windows, spans);
      && |r| == |spans|
      && forall i :: 0 <= i < |r| ==> r[i] == Emission(spans[i], a.result(windows[spans[i]]))
  {
    if spans != [] {
      var n := |spans| - 1;
      assert spans == spans[..n] + [spans[n]];
      EmissionsExact(a, windows, spans[..n]);
    }
  }

  /** Closing the windows at or below the bound: they come out and are gone; the others stay. */
  lemma ExpireExact<V>(st: Store<V>, closed: int)
    requires -1 <= st.lastExpired && forall w :: w in st.windows ==> w.start > st.lastExpired
    ensures
      var spans, out := ExpiredSpans(st, closed), ExpireWindows(st, closed, true);
      && (forall w :: w in spans <==> w in st.windows && w.start <= closed)
      && (forall w :: w in out.windows <==> w in st.windows && w.start > closed)
      && (forall w :: w in out.windows ==> out.windows[w] == st.windows[w])
      && out.latest == st.latest && -1 <= out.lastExpired <= Max(st.lastExpired, closed)
  {
    var spans := ExpiredSpans(st, closed);
    if spans != [] {
      assert spans[|spans| - 1] in spans;
    }
  }

  /** One message keeps the store exact, updates exactly its open windows, and closes exactly the windows due. */
  lemma ProcessExact<M, S, R>(c: Config, a: Aggregator<M, S, R>, h: seq<Message<M>>, m: Message<M>, st: Store<S>)
    requires c.Valid() && Exact(c, a, h, st) && 0 <= m.ts
    ensures
      var out, value := Process(c, a, m, st), ValueOf(c, a, h + [m]);
      && Exact(c, a, h + [m], out.store)
      && Updated(c, value, m.ts, ClosedStart(c, out.store.latest), out.updated)
      && Closed(c, value, h + [m], ClosedStart(c, st.latest), ClosedStart(c, out.store.latest), out.expired)
      && (forall i, j :: 0 <= i < j < |out.late| ==> out.late[i].start < out.late[j].start)
      && forall w ::
           w in out.late <==>
             IsWindow(c.duration, c.step, w) && Contains(w, m.ts) && w.start <= ClosedStart(c, out.store.latest)
  {
    hide Latest, Accepted, FoldAll, Exact, Live, UpdateAll, Ranges, ValueOf, Closed;
    var ranges, closed := Ranges(m.ts, c.duration, c.step), ClosedStart(c, Max(m.ts, st.latest));
    RangesExact(m.ts, c.duration, c.step);
    UpdateAllWrites(c, a, h, m, st, ranges);
    UpdateAllEmits(c, a, h, m, st, ranges);
    var s := UpdateAll(a, m, closed, ranges, st);
    CloseExact(c, a, h, m, st, s.store);
  }

  /** Expiry after the update loop. */
  lemma CloseExact<M, S, R>(c: Config, a: Aggregator<M, S, R>, h: seq<Message<M>>, m: Message<M>, st: Store<S>,
                            st1: Store<S>)
    requires c.Valid() && Exact(c, a, h, st)
    requires st1.latest == Max(m.ts, st.latest) && st1.lastExpired == st.lastExpired
    requires forall v :: v in Ranges(m.ts, c.duration, c.step) <==> IsWindow(c.duration, c.step, v) && Contains(v, m.ts)
    requires Written(c, a, h, m, ClosedStart(c, st1.latest), st, Ranges(m.ts, c.duration, c.step), st1.windows)
    ensures
      var closed := ClosedStart(c, st1.latest);
      && Exact(c, a, h + [m], ExpireWindows(st1, closed, true))
      && Closed(c, ValueOf(c, a, h + [m]), h + [m], ClosedStart(c, st.latest), closed,
                Emissions(a, st1.windows, ExpiredSpans(st1, closed)))
  {
    hide Latest, Accepted, FoldAll, Ranges, Written, Live;
    LatestSnoc(h, m);
    var closed := ClosedStart(c, st1.latest);
    forall w
      ensures w in st1.windows <==> Live(c, h + [m], w) && w.start > ClosedStart(c, st.latest)
      ensures w in st1.windows ==>
                st1.windows[w] == FoldAll(a, Accepted(c, h + [m], w)) && 0 <= w.start && w.end == w.start + c.duration
    {
      WrittenIff(c, a, h, m, st, st1.windows, w);
    }
    ExpireExact(st1, closed);
    EmissionsExact(a, st1.windows, ExpiredSpans(st1, closed));
    EmissionsClosed(c, a, h + [m], ClosedStart(c, st.latest), closed, st1.windows, ExpiredSpans(st1, closed));
  }

  lemma EmissionsClosed<M, S, R>(c: Config, a: Aggregator<M, S, R>, h: seq<Message<M>>, low: int, high: int,
                                 windows: map<Span, S>, spans: seq<Span>)
    requires c.Valid() && Ascending(spans)
    requires forall w :: w in windows <==> Live(c, h, w) && w.start > low
    requires forall w :: w in windows ==> windows[w] == FoldAll(a, Accepted(c, h, w)) && w.end == w.start + c.duration
    requires forall w :: w in spans <==> w in windows && w.start <= high
    ensures Closed(c, ValueOf(c, a, h), h, low, high, Emissions(a, windows, spans))
  {
    hide Live, Accepted, FoldAll;
    EmissionsExact(a, windows, spans);
    var r := Emissions(a, windows, spans);
    forall i, j | 0 <= i < j < |r| ensures r[i].span.start < r[j].span.start {
      assert Before(spans[i], spans[j]) && spans[i] in spans && spans[j] in spans;
    }
    forall w | Live(c, h, w) && low < w.start <= high ensures Emission(w, ValueOf(c, a, h)(w)) in r {
      var i :| 0 <= i < |spans| && spans[i] == w;
      assert r[i] == Emission(w, ValueOf(c, a, h)(w));
    }
  }

  /** After the update loop, the store holds the live windows that were open before the message. */
  lemma WrittenIff<M, S, R>(c: Config, a: Aggregator<M, S, R>, h: seq<Message<M>>, m: Message<M>, st: Store<S>,
                            windows: map<Span, S>, w: Span)
    requires c.Valid() && Exact(c, a, h, st)
    requires forall v :: v in Ranges(m.ts, c.duration, c.step) <==> IsWindow(c.duration, c.step, v) && Contains(v, m.ts)
    requires Written(c, a, h, m, ClosedStart(c, Max(m.ts, st.latest)), st, Ranges(m.ts, c.duration, c.step), windows)
    ensures w in windows <==> Live(c, h + [m], w) && w.start > ClosedStart(c, st.latest)
    ensures w in windows ==>
              windows[w] == FoldAll(a, Accepted(c, h + [m], w)) && 0 <= w.start && w.end == w.start + c.duration
  {
    hide Latest, FoldAll, Ranges;
    AcceptedSnoc(c, h, m, w);
    if !(w.start <= m.ts < w.end && w.start > ClosedStart(c, Max(m.ts, Latest(h)))) {
      AcceptedSkip(c, h, m, w);
    }
  }
}
