/** How the backward scan ends, and the exactness of one whole scan. */
module SlidingStep {
  import opened Wrappers
  import opened Aggregation
  import opened WindowStore
  import opened Sliding
  import opened SlidingSpec
  import opened SlidingScan

  /** Every stored window around the message has been met. */
  ghost predicate AllMet<S>(ts: int, st: Store<Entry<S>>, seen: set<Span>) {
    forall v :: v in st.windows && v.start <= ts + 1 && v.end > ts ==> v in seen
  }

  /** p's right window is empty before the message and holds the message. */
  ghost predicate Awaiting(c: Config, times: set<int>, ts: int, p: int) {
    p in times && p < ts <= p + 1 + c.duration && !NonEmpty(times, Right(c, p))
  }

  /** The last writes of the scan: the left window, and perhaps the right window of an earlier message. */
  ghost predicate LastWrites<M, S, R>(c: Config, a: Aggregator<M, S, R>, h: seq<Message<M>>, m: Message<M>,
                                      before: map<Span, Entry<S>>, after: map<Span, Entry<S>>, extra: set<int>)
  {
    var left := Left(c, m.ts);
    && after.Keys == before.Keys + {left} + (set p | p in extra :: Right(c, p))
    && (forall p :: p in extra ==>
            Awaiting(c, Times(h), m.ts, p)
            && (Right(c, p) == left || EntryOk(a, h + [m], Right(c, p), after[Right(c, p)])))
    && (forall w :: w in before && w != left && (forall p :: p in extra ==> w != Right(c, p)) ==> after[w] == before[w])
    && EntryOk(a, h + [m], left, after[left])
    && (forall p :: Awaiting(c, Times(h), m.ts, p) ==> Right(c, p) in after)
  }

  /** Each window that becomes due with the message is its left window, its right window, or an awaiting one. */
  lemma NewWindows(c: Config, times: set<int>, ts: int, w: Span)
    requires c.Valid() && Positive(times) && 1 <= ts
    requires Ideal(c, times + {ts}, w) && !Ideal(c, times, w)
    ensures || w == Left(c, ts)
            || (w == Right(c, ts) && exists u :: u in times && ts < u <= ts + 1 + c.duration)
            || (Awaiting(c, times, ts, w.end - c.duration - 1) && w == Right(c, w.end - c.duration - 1))
  {
    var p := w.end - c.duration - 1;
    if w.end in times {
      LeftIdeal(c, times, w.end);
      assert false;
    }
    if w.end != ts {
      assert p in times + {ts};
      assert w == Right(c, p);
      if p == ts {
        var u :| u in times + {ts} && w.start <= u <= w.end;
      } else if NonEmpty(times, w) {
        assert false;
      }
    }
  }

  lemma FinishSound<M, S, R>(c: Config, a: Aggregator<M, S, R>, h: seq<Message<M>>, m: Message<M>, st: Store<Entry<S>>,
                             seen: set<Span>, rightExists: bool, before: map<Span, Entry<S>>,
                             after: map<Span, Entry<S>>, extra: set<int>, w: Span)
    requires Context(c, a, h, m, st) && Written(c, a, h, m, st, seen, rightExists, before) && AllMet(m.ts, st, seen)
    requires LastWrites(c, a, h, m, before, after, extra) && w in after
    ensures Ideal(c, Times(h + [m]), w) && EntryOk(a, h + [m], w, after[w])
  {
    hide Exact, Ideal, FoldAll, Within, Latest;
    ContextFacts(c, a, h, m, st);
    var left := Left(c, m.ts);
    if w == left {
      LeftIdeal(c, Times(h + [m]), m.ts);
    } else if exists p :: p in extra && w == Right(c, p) {
      var p :| p in extra && w == Right(c, p);
      RightIdeal(c, Times(h + [m]), p, m.ts);
    } else if w in st.windows {
      StoredFacts(c, a, h, m, st, w);
      IdealGrows(c, Times(h), m.ts, w);
      if !(w.start <= m.ts <= w.end) {
        KeepOk(a, h, m, w, st.windows[w]);
      }
    } else {
      KeepOk(a, h, m, w, after[w]);
      RightIdeal(c, Times(h + [m]), m.ts, after[w].maxTs);
    }
  }

  lemma FinishComplete<M, S, R>(c: Config, a: Aggregator<M, S, R>, h: seq<Message<M>>, m: Message<M>,
                                st: Store<Entry<S>>, seen: set<Span>, sc: Scan<S, R>, after: map<Span, Entry<S>>,
                                extra: set<int>, w: Span)
    requires Context(c, a, h, m, st) && Met(c, m.ts, st, seen, sc) && AllMet(m.ts, st, seen)
    requires Written(c, a, h, m, st, seen, sc.rightExists, sc.store.windows)
    requires LastWrites(c, a, h, m, sc.store.windows, after, extra)
    requires Ideal(c, Times(h + [m]), w) && w.start > Expired(c, m, st)
    ensures w in after
  {
    hide FoldAll, Within, Latest, IsMax, EntryOk, Times;
    ContextFacts(c, a, h, m, st);
    if !Ideal(c, Times(h), w) {
      NewWindows(c, Times(h), m.ts, w);
      if w == Right(c, m.ts) && exists u :: u in Times(h) && m.ts < u <= m.ts + 1 + c.duration {
        var u :| u in Times(h) && m.ts < u <= m.ts + 1 + c.duration;
        LaterMet(c, a, h, m, st, seen, u);
      }
    }
  }

  /** A later message in reach of the right window: its left window has been met. */
  lemma LaterMet<M, S, R>(c: Config, a: Aggregator<M, S, R>, h: seq<Message<M>>, m: Message<M>, st: Store<Entry<S>>,
                          seen: set<Span>, u: int)
    requires Context(c, a, h, m, st) && AllMet(m.ts, st, seen)
    requires u in Times(h) && m.ts < u <= m.ts + 1 + c.duration
    ensures Left(c, u) in seen && Left(c, u) in st.windows && st.windows[Left(c, u)].maxTs > m.ts
  {
    LeftIdeal(c, Times(h), u);
    ReachingStored(c, a, h, m, st, Left(c, u));
  }

  /** What one whole scan leaves behind. */
  ghost predicate ScanResult<M, S, R>(c: Config, a: Aggregator<M, S, R>, h: seq<Message<M>>, m: Message<M>,
                                      st: Store<Entry<S>>, sc: Scan<S, R>)
  {
    && sc.late == [] && sc.maxDeleted <= Expired(c, m, st)
    && DeletionBound(c, Times(h), m.ts, st.windows, Expired(c, m, st), sc.maxDeleted)
    && sc.store.lastExpired == st.lastExpired && sc.store.lastDeleted == st.lastDeleted
    && sc.store.latest == Max(m.ts, st.latest)
    && Created(m.ts, st.windows, sc.store.windows)
    && Sound(c, a, h + [m], sc.store.windows)
    && Complete(c, Times(h + [m]), sc.store.windows, Expired(c, m, st))
    && UpdatedExact(c, ValueOf(a, h + [m]), Times(h + [m]), m.ts, sc.updated)
  }

  /** Deletion stays a further duration below the expiry mark, or below the window the left window was derived from. */
  ghost predicate DeletionBound<S>(c: Config, times: set<int>, ts: int, windows: map<Span, Entry<S>>, expired: int,
                                   maxDeleted: int) {
    || maxDeleted <= expired - c.duration
    || (!Ideal(c, times, Left(c, ts)) && forall w :: w in windows && Top(c, times, ts, w) ==> maxDeleted < w.start)
  }

  /** No window is lost, and the windows created reach the message. */
  ghost predicate Created<S>(ts: int, before: map<Span, Entry<S>>, after: map<Span, Entry<S>>) {
    before.Keys <= after.Keys && forall w :: w in after && w !in before ==> w.end >= ts
  }

  lemma FinishCreated<M, S, R>(c: Config, a: Aggregator<M, S, R>, h: seq<Message<M>>, m: Message<M>,
                               st: Store<Entry<S>>, seen: set<Span>, sc: Scan<S, R>, after: map<Span, Entry<S>>,
                               extra: set<int>)
    requires c.Valid() && Written(c, a, h, m, st, seen, sc.rightExists, sc.store.windows)
    requires LastWrites(c, a, h, m, sc.store.windows, after, extra)
    ensures Created(m.ts, st.windows, after)
  {
    hide FoldAll, Within, Latest, EntryOk;
  }

  /** The emissions of one message: the left windows of the seen timestamps in [ts, ts + duration], largest first. */
  ghost predicate UpdatedExact<R>(c: Config, value: Span -> R, times: set<int>, ts: int, updated: seq<Emission<R>>) {
    && (forall i, j :: 0 <= i < j < |updated| ==> Before(updated[j].span, updated[i].span))
    && (forall x :: x in updated ==>
                      x.span == Left(c, x.span.end) && x.span.end in times && ts <= x.span.end <= ts + c.duration
                      && x.value == value(x.span))
    && (forall q :: q in times && ts <= q <= ts + c.duration ==> Emission(Left(c, q), value(Left(c, q))) in updated)
  }

  lemma EmittedAll<R>(c: Config, value: Span -> R, times: set<int>, ts: int, seen: set<Span>, updated: seq<Emission<R>>)
    requires c.Valid() && 1 <= ts && ts in times && EmittedSoFar(value, times, ts, seen, updated)
    requires forall w :: w in seen ==> w == Left(c, w.end) && w.end > ts
    requires forall q :: q in times && ts < q <= ts + c.duration ==> Left(c, q) in seen
    ensures UpdatedExact(c, value, times, ts, updated + [Emission(Left(c, ts), value(Left(c, ts)))])
  {
    var all := updated + [Emission(Left(c, ts), value(Left(c, ts)))];
    forall i | 0 <= i < |updated| ensures Before(Left(c, ts), all[i].span) {
      assert updated[i] in updated;
    }
    forall q | q in times && ts <= q <= ts + c.duration ensures Emission(Left(c, q), value(Left(c, q))) in all {
      if q > ts {
        assert Emission(Left(c, q), value(Left(c, q))) in updated;
      } else {
        assert all[|updated|] == Emission(Left(c, q), value(Left(c, q)));
      }
    }
  }

  lemma UpdatedFinish<M, S, R>(c: Config, a: Aggregator<M, S, R>, h: seq<Message<M>>, m: Message<M>,
                               st: Store<Entry<S>>, seen: set<Span>, sc: Scan<S, R>, e: Entry<S>)
    requires Context(c, a, h, m, st) && ScanInv(c, a, h, m, st, seen, sc) && AllMet(m.ts, st, seen)
    requires EntryOk(a, h + [m], Left(c, m.ts), e)
    ensures UpdatedExact(c, ValueOf(a, h + [m]), Times(h + [m]), m.ts,
                         sc.updated + [Emission(Left(c, m.ts), a.result(e.agg))])
  {
    hide FoldAll, Within, Latest, Written, EmittedSoFar, UpdatedExact, Exact;
    ContextFacts(c, a, h, m, st);
    assert ValueOf(a, h + [m])(Left(c, m.ts)) == a.result(e.agg);
    forall w | w in seen ensures w == Left(c, w.end) && w.end > m.ts {
      StoredFacts(c, a, h, m, st, w);
    }
    forall q | q in Times(h + [m]) && m.ts < q <= m.ts + c.duration ensures Left(c, q) in seen {
      LaterMet(c, a, h, m, st, seen, q);
    }
    EmittedAll(c, ValueOf(a, h + [m]), Times(h + [m]), m.ts, seen, sc.updated);
  }

  /** The scan ends well if its last writes are right and it emits the left window last. */
  lemma Finish<M, S, R>(c: Config, a: Aggregator<M, S, R>, h: seq<Message<M>>, m: Message<M>, st: Store<Entry<S>>,
                        seen: set<Span>, sc: Scan<S, R>, sc1: Scan<S, R>, extra: set<int>)
    requires Context(c, a, h, m, st) && ScanInv(c, a, h, m, st, seen, sc) && AllMet(m.ts, st, seen)
    requires LastWrites(c, a, h, m, sc.store.windows, sc1.store.windows, extra)
    requires sc1.late == [] && sc1.maxDeleted <= Expired(c, m, st)
    requires DeletionBound(c, Times(h), m.ts, st.windows, Expired(c, m, st), sc1.maxDeleted)
    requires sc1.store.lastExpired == sc.store.lastExpired && sc1.store.lastDeleted == sc.store.lastDeleted
    requires sc1.store.latest == Max(m.ts, sc.store.latest)
    requires Left(c, m.ts) in sc1.store.windows
    requires sc1.updated == sc.updated + [Emission(Left(c, m.ts), a.result(sc1.store.windows[Left(c, m.ts)].agg))]
    ensures ScanResult(c, a, h, m, st, sc1)
  {
    hide Exact, Ideal, EntryOk, IsMax, FoldAll, Within, Latest, UpdatedExact, EmittedSoFar, Met, Written, LastWrites,
         DeletionBound, Created;
    var after := sc1.store.windows;
    forall w | w in after ensures Ideal(c, Times(h + [m]), w) && EntryOk(a, h + [m], w, after[w]) {
      FinishSound(c, a, h, m, st, seen, sc.rightExists, sc.store.windows, after, extra, w);
    }
    forall w | Ideal(c, Times(h + [m]), w) && w.start > Expired(c, m, st) ensures w in after {
      FinishComplete(c, a, h, m, st, seen, sc, after, extra, w);
    }
    FinishCreated(c, a, h, m, st, seen, sc, after, extra);
    UpdatedFinish(c, a, h, m, st, seen, sc, after[Left(c, m.ts)]);
  }

  /** A timestamp that starts a window met by the scan is followed by a stored right window. */
  lemma StartMeansRight<M, S, R>(c: Config, a: Aggregator<M, S, R>, h: seq<Message<M>>, m: Message<M>,
                                 st: Store<Entry<S>>, seen: set<Span>, sc: Scan<S, R>, p: int)
    requires Context(c, a, h, m, st) && Met(c, m.ts, st, seen, sc) && AllMet(m.ts, st, seen)
    requires p in Times(h) && Left(c, m.ts).start <= p < m.ts
    ensures p + 1 in sc.starts <==> Right(c, p) in st.windows
    ensures p + 1 in sc.starts <==> !Awaiting(c, Times(h), m.ts, p)
  {
    hide FoldAll, Within, Latest;
    ContextFacts(c, a, h, m, st);
    if p + 1 in sc.starts {
      var w :| w in seen && w.start == p + 1;
      StoredFacts(c, a, h, m, st, w);
    }
    if NonEmpty(Times(h), Right(c, p)) {
      var u :| u in Times(h) && p + 1 <= u <= p + 1 + c.duration;
      RightIdeal(c, Times(h), p, u);
      ReachingStored(c, a, h, m, st, Right(c, p));
    }
    if Right(c, p) in st.windows {
      StoredFacts(c, a, h, m, st, Right(c, p));
      assert Right(c, p) in seen;
    }
  }

  /** Only the latest earlier message can be waiting for its right window. */
  lemma AwaitingIsLast(c: Config, times: set<int>, ts: int, q: int, p: int)
    requires c.Valid() && Positive(times) && Awaiting(c, times, ts, q)
    requires p in times && p < ts && forall u :: u in times && u < ts ==> u <= p
    ensures q == p
  {
    if q < p {
      assert false;
    }
  }

  /** Writing the left window alone. */
  lemma WriteLeft<M, S, R>(c: Config, a: Aggregator<M, S, R>, h: seq<Message<M>>, m: Message<M>,
                           before: map<Span, Entry<S>>, e: Entry<S>)
    requires EntryOk(a, h + [m], Left(c, m.ts), e)
    requires forall q :: Awaiting(c, Times(h), m.ts, q) ==> Right(c, q) == Left(c, m.ts)
    ensures LastWrites(c, a, h, m, before, before[Left(c, m.ts) := e], {})
  {
  }

  /** Writing the awaited right window of p, then the left window. */
  lemma WriteBoth<M, S, R>(c: Config, a: Aggregator<M, S, R>, h: seq<Message<M>>, m: Message<M>,
                           before: map<Span, Entry<S>>, p: int, e: Entry<S>)
    requires c.Valid() && 1 <= m.ts && Awaiting(c, Times(h), m.ts, p) && Left(c, m.ts).start <= p
    requires EntryOk(a, h + [m], Left(c, m.ts), e)
    requires forall q :: Awaiting(c, Times(h), m.ts, q) ==> q == p || Right(c, q) == Left(c, m.ts)
    ensures LastWrites(c, a, h, m, before,
                       before[Right(c, p) := Entry(m.ts, a.agg(a.initial, m.value, m.ts))][Left(c, m.ts) := e], {p})
  {
    hide FoldAll, Within, Latest, IsMax;
    AloneOk(a, h, m, Right(c, p));
  }

  /** With the left window stored, an awaiting message is the latest one in it. */
  lemma AwaitingInLeft(c: Config, times: set<int>, ts: int, w: Span, p: int, q: int)
    requires c.Valid() && Positive(times) && 1 <= ts && w == Left(c, ts) && IsMax(times, w, p)
    requires Awaiting(c, times, ts, q)
    ensures q == p && p < ts
  {
    if q != p {
      assert false;
    }
  }

  /** The scan ends at the stored left window. */
  lemma EndLeft<M, S, R>(c: Config, a: Aggregator<M, S, R>, h: seq<Message<M>>, m: Message<M>, st: Store<Entry<S>>,
                         seen: set<Span>, w: Span, sc: Scan<S, R>)
    requires Context(c, a, h, m, st) && ScanInv(c, a, h, m, st, seen, sc) && AllMet(m.ts, st, seen)
    requires w in st.windows && w.end == m.ts && w !in seen
    ensures ScanResult(c, a, h, m, st, ScanStep(c, a, m, Expired(c, m, st), w, st.windows[w], sc))
  {
    hide Exact, Ideal, EntryOk, FoldAll, Within, Latest, UpdatedExact, EmittedSoFar, Met, Written, LastWrites,
         ScanResult, Awaiting;
    var e := st.windows[w];
    var sc1 := ScanStep(c, a, m, Expired(c, m, st), w, e, sc);
    var p := e.maxTs;
    ContextFacts(c, a, h, m, st);
    StoredFacts(c, a, h, m, st, w);
    MaxInside(a, h, w, e);
    BumpOk(c, a, h, m, w, e);
    var e1 := Entry(m.ts, a.agg(e.agg, m.value, m.ts));
    forall q | Awaiting(c, Times(h), m.ts, q) ensures q == p && p < m.ts {
      AwaitingInLeft(c, Times(h), m.ts, w, p, q);
    }
    if p < m.ts {
      StartMeansRight(c, a, h, m, st, seen, sc, p);
    }
    if Awaiting(c, Times(h), m.ts, p) {
      WriteBoth(c, a, h, m, sc.store.windows, p, e1);
      Finish(c, a, h, m, st, seen, sc, sc1, {p});
    } else {
      WriteLeft(c, a, h, m, sc.store.windows, e1);
      Finish(c, a, h, m, st, seen, sc, sc1, {});
    }
  }

  lemma MaxInside<M, S, R>(a: Aggregator<M, S, R>, h: seq<Message<M>>, w: Span, e: Entry<S>)
    requires EntryOk(a, h, w, e)
    ensures IsMax(Times(h), w, e.maxTs) && e.maxTs in Times(h) && w.start <= e.maxTs <= w.end
  {
  }

  /** Below the message, an awaiting message is the latest one, or its right window is the left window. */
  lemma AwaitingBelow(c: Config, times: set<int>, ts: int, p: int, q: int)
    requires c.Valid() && Positive(times) && 1 <= ts && Awaiting(c, times, ts, q)
    requires Left(c, ts).start <= p ==> p in times && p < ts && forall u :: u in times && u < ts ==> u <= p
    requires p < Left(c, ts).start ==> forall u :: u in times && u < ts ==> u < Left(c, ts).start
    ensures (Left(c, ts).start <= p && q == p) || Right(c, q) == Left(c, ts)
  {
    if Left(c, ts).start <= p {
      AwaitingIsLast(c, times, ts, q, p);
    }
  }

  /** The largest window below the message holds the latest earlier message. */
  lemma TopHoldsLast(c: Config, times: set<int>, ts: int, w: Span, p: int, u: int)
    requires c.Valid() && Positive(times) && Top(c, times, ts, w) && IsMax(times, w, p) && u in times && u < ts
    ensures u <= p
  {
    LeftIdeal(c, times, u);
  }

  /** If an earlier message lies in the left window, the window found below it is the one with the largest end. */
  lemma FoundTop<M, S, R>(c: Config, a: Aggregator<M, S, R>, h: seq<Message<M>>, m: Message<M>, st: Store<Entry<S>>,
                          seen: set<Span>, w: Span, q: int)
    requires Context(c, a, h, m, st) && AboveSeen(m.ts, st, seen, w) && BaseStored(c, Times(h), m.ts, st.windows)
    requires w.end < m.ts && forall v :: v in seen ==> v.end > m.ts
    requires q in Times(h) && Left(c, m.ts).start <= q < m.ts
    ensures Top(c, Times(h), m.ts, w)
  {
    hide FoldAll, Within, Latest, Exact, Ideal;
    LeftUnstored(c, a, h, m, st, seen, w);
    var top :| top in st.windows && Top(c, Times(h), m.ts, top);
    StoredFacts(c, a, h, m, st, top);
    StoredFacts(c, a, h, m, st, w);
    assert top.end == w.end;
  }

  /** A window found below the message means the left window is not stored. */
  lemma LeftUnstored<M, S, R>(c: Config, a: Aggregator<M, S, R>, h: seq<Message<M>>, m: Message<M>, st: Store<Entry<S>>,
                              seen: set<Span>, w: Span)
    requires Context(c, a, h, m, st) && AboveSeen(m.ts, st, seen, w)
    requires w.end < m.ts && forall v :: v in seen ==> v.end > m.ts
    ensures !Ideal(c, Times(h), Left(c, m.ts)) && m.ts !in Times(h)
  {
    hide FoldAll, Within, Latest;
    ContextFacts(c, a, h, m, st);
    if Ideal(c, Times(h), Left(c, m.ts)) {
      ReachingStored(c, a, h, m, st, Left(c, m.ts));
    }
    if m.ts in Times(h) {
      LeftIdeal(c, Times(h), m.ts);
    }
  }

  /** The carry: the left window holds the message and exactly what the window below it holds. */
  lemma CarryRange(c: Config, times: set<int>, ts: int, w: Span, p: int, u: int)
    requires c.Valid() && Positive(times) && 1 <= ts && Top(c, times, ts, w) && IsMax(times, w, p)
    requires !Ideal(c, times, Left(c, ts)) && ts !in times
    requires Left(c, ts).start <= p && u in times
    requires forall v :: v in times && v < ts ==> v <= p
    ensures (w.start <= u <= w.end) <==> (Left(c, ts).start <= u <= ts)
  {
    if w.start <= u < Left(c, ts).start {
      RightIdeal(c, times, u, p);
      assert false;
    }
  }

  lemma CarryOk<M, S, R>(c: Config, a: Aggregator<M, S, R>, h: seq<Message<M>>, m: Message<M>, w: Span, e: Entry<S>)
    requires c.Valid() && Positive(Times(h)) && 1 <= m.ts && Top(c, Times(h), m.ts, w) && EntryOk(a, h, w, e)
    requires !Ideal(c, Times(h), Left(c, m.ts)) && m.ts !in Times(h) && Left(c, m.ts).start <= e.maxTs
    requires forall v :: v in Times(h) && v < m.ts ==> v <= e.maxTs
    ensures EntryOk(a, h + [m], Left(c, m.ts), Entry(m.ts, a.agg(e.agg, m.value, m.ts)))
  {
    hide FoldAll, Within, Latest;
    var left := Left(c, m.ts);
    forall u | u in Times(h) ensures (w.start <= u <= w.end) <==> (left.start <= u <= left.end) {
      CarryRange(c, Times(h), m.ts, w, e.maxTs, u);
    }
    WithinSame(h, w.start, w.end, left.start, left.end);
    BumpOk(c, a, h, m, left, e);
  }

  /** The scan ends at the first window below the message. */
  lemma EndBase<M, S, R>(c: Config, a: Aggregator<M, S, R>, h: seq<Message<M>>, m: Message<M>, st: Store<Entry<S>>,
                         seen: set<Span>, w: Span, sc: Scan<S, R>)
    requires Context(c, a, h, m, st) && ScanInv(c, a, h, m, st, seen, sc) && AboveSeen(m.ts, st, seen, w)
    requires BaseStored(c, Times(h), m.ts, st.windows) && w.end < m.ts
    ensures ScanResult(c, a, h, m, st, ScanStep(c, a, m, Expired(c, m, st), w, st.windows[w], sc))
  {
    hide Exact, Ideal, EntryOk, FoldAll, Within, Latest, UpdatedExact, EmittedSoFar, Written, LastWrites, ScanResult,
         Awaiting, Top;
    var e, left := st.windows[w], Left(c, m.ts);
    var sc1 := ScanStep(c, a, m, Expired(c, m, st), w, e, sc);
    var p := e.maxTs;
    ContextFacts(c, a, h, m, st);
    StoredFacts(c, a, h, m, st, w);
    MaxInside(a, h, w, e);
    LeftUnstored(c, a, h, m, st, seen, w);
    assert AllMet(m.ts, st, seen);
    EndBaseBelow(c, a, h, m, st, seen, w);
    EndBaseEntry(c, a, h, m, st, seen, w);
    EndBaseBound(c, a, h, m, st, seen, w);
    var e1 := Entry(m.ts, a.agg(if left.start > p then a.initial else e.agg, m.value, m.ts));
    if left.start <= p {
      StartMeansRight(c, a, h, m, st, seen, sc, p);
    }
    if left.start <= p && Awaiting(c, Times(h), m.ts, p) {
      WriteBoth(c, a, h, m, sc.store.windows, p, e1);
      Finish(c, a, h, m, st, seen, sc, sc1, {p});
    } else {
      WriteLeft(c, a, h, m, sc.store.windows, e1);
      Finish(c, a, h, m, st, seen, sc, sc1, {});
    }
  }

  /**
   * The window met holds the last message below the new one, if the left window reaches it, and
   * only that message can be awaiting.
   */
  lemma EndBaseBelow<M, S, R>(c: Config, a: Aggregator<M, S, R>, h: seq<Message<M>>, m: Message<M>, st: Store<Entry<S>>,
                              seen: set<Span>, w: Span)
    requires Context(c, a, h, m, st) && AboveSeen(m.ts, st, seen, w) && AllMet(m.ts, st, seen)
    requires BaseStored(c, Times(h), m.ts, st.windows) && w.end < m.ts && forall v :: v in seen ==> v.end > m.ts
    ensures var p, left := st.windows[w].maxTs, Left(c, m.ts);
            && (forall u :: u in Times(h) && u < m.ts && (left.start <= p || left.start <= u) ==>
                    left.start <= p && u <= p)
            && forall q :: Awaiting(c, Times(h), m.ts, q) ==> (left.start <= p && q == p) || Right(c, q) == left
  {
    hide Exact, Ideal, EntryOk, FoldAll, Within, Latest, Awaiting, Top;
    var e, left := st.windows[w], Left(c, m.ts);
    var p := e.maxTs;
    ContextFacts(c, a, h, m, st);
    StoredFacts(c, a, h, m, st, w);
    MaxInside(a, h, w, e);
    LeftUnstored(c, a, h, m, st, seen, w);
    forall u | u in Times(h) && u < m.ts && (left.start <= p || left.start <= u) ensures left.start <= p && u <= p {
      FoundTop(c, a, h, m, st, seen, w, if left.start <= p then p else u);
      TopHoldsLast(c, Times(h), m.ts, w, p, u);
    }
    forall q | Awaiting(c, Times(h), m.ts, q) ensures (left.start <= p && q == p) || Right(c, q) == left {
      AwaitingBelow(c, Times(h), m.ts, p, q);
    }
  }

  lemma EndBaseBound<M, S, R>(c: Config, a: Aggregator<M, S, R>, h: seq<Message<M>>, m: Message<M>, st: Store<Entry<S>>,
                              seen: set<Span>, w: Span)
    requires Context(c, a, h, m, st) && AboveSeen(m.ts, st, seen, w)
    requires w.end < m.ts && forall v :: v in seen ==> v.end > m.ts
    ensures DeletionBound(c, Times(h), m.ts, st.windows, Expired(c, m, st), Min(w.start - 1, Expired(c, m, st)))
  {
    hide Exact, Ideal, EntryOk, FoldAll, Within, Latest;
    LeftUnstored(c, a, h, m, st, seen, w);
    StoredFacts(c, a, h, m, st, w);
    forall v | v in st.windows && Top(c, Times(h), m.ts, v) ensures w.start - 1 < v.start {
      StoredFacts(c, a, h, m, st, v);
      assert w.end <= v.end;
    }
  }

  /** The new left window's entry, derived from the window found below the message. */
  lemma EndBaseEntry<M, S, R>(c: Config, a: Aggregator<M, S, R>, h: seq<Message<M>>, m: Message<M>, st: Store<Entry<S>>,
                              seen: set<Span>, w: Span)
    requires Context(c, a, h, m, st) && AboveSeen(m.ts, st, seen, w) && BaseStored(c, Times(h), m.ts, st.windows)
    requires w.end < m.ts && forall v :: v in seen ==> v.end > m.ts
    ensures
      var e, left := st.windows[w], Left(c, m.ts);
      EntryOk(a, h + [m], left, Entry(m.ts, a.agg(if left.start > e.maxTs then a.initial else e.agg, m.value, m.ts)))
  {
    hide Exact, Ideal, FoldAll, Within, Latest;
    var p, left := st.windows[w].maxTs, Left(c, m.ts);
    ContextFacts(c, a, h, m, st);
    StoredFacts(c, a, h, m, st, w);
    MaxInside(a, h, w, st.windows[w]);
    LeftUnstored(c, a, h, m, st, seen, w);
    if left.start <= p {
      FoundTop(c, a, h, m, st, seen, w, p);
      forall u | u in Times(h) && u < m.ts ensures u <= p {
        TopHoldsLast(c, Times(h), m.ts, w, p, u);
      }
      CarryOk(c, a, h, m, w, st.windows[w]);
    } else {
      if NonEmpty(Times(h), left) {
        var u :| u in Times(h) && left.start <= u <= left.end;
        FoundTop(c, a, h, m, st, seen, w, u);
        TopHoldsLast(c, Times(h), m.ts, w, p, u);
      }
      AloneOk(a, h, m, left);
    }
  }

  /** The scan runs out of windows. */
  lemma EndNone<M, S, R>(c: Config, a: Aggregator<M, S, R>, h: seq<Message<M>>, m: Message<M>, st: Store<Entry<S>>,
                         seen: set<Span>, sc: Scan<S, R>)
    requires Context(c, a, h, m, st) && ScanInv(c, a, h, m, st, seen, sc) && BaseStored(c, Times(h), m.ts, st.windows)
    requires forall v :: v in st.windows && Max(0, Left(c, m.ts).start - c.duration) <= v.start <= m.ts + 1 ==>
               v in seen
    ensures ScanResult(c, a, h, m, st, ScanNone(c, a, m, Expired(c, m, st), sc))
  {
    hide Exact, EntryOk, FoldAll, Within, Latest, UpdatedExact, EmittedSoFar, Written, LastWrites, ScanResult;
    var left := Left(c, m.ts);
    var sc1 := ScanNone(c, a, m, Expired(c, m, st), sc);
    ContextFacts(c, a, h, m, st);
    ReachingStored(c, a, h, m, st, left);
    if NonEmpty(Times(h), left) {
      NothingBelow(c, a, h, m, st, seen, sc);
    }
    forall v | v in st.windows && v.start <= m.ts + 1 && v.end > m.ts ensures v in seen {
      StoredFacts(c, a, h, m, st, v);
    }
    AloneOk(a, h, m, left);
    WriteLeft(c, a, h, m, sc.store.windows, Entry(m.ts, a.agg(a.initial, m.value, m.ts)));
    Finish(c, a, h, m, st, seen, sc, sc1, {});
  }

  /** The base of a non-empty left window is in reach of the scan. */
  lemma TopInReach(c: Config, times: set<int>, ts: int, u: int, top: Span)
    requires c.Valid() && Positive(times) && Top(c, times, ts, top) && u in times && Left(c, ts).start <= u < ts
    ensures Max(0, Left(c, ts).start - c.duration) <= top.start <= ts + 1 && top.end < ts
  {
    LeftIdeal(c, times, u);
  }

  /** If only later windows were met, the left window holds no earlier message. */
  lemma NothingBelow<M, S, R>(c: Config, a: Aggregator<M, S, R>, h: seq<Message<M>>, m: Message<M>, st: Store<Entry<S>>,
                              seen: set<Span>, sc: Scan<S, R>)
    requires Context(c, a, h, m, st) && Met(c, m.ts, st, seen, sc) && BaseStored(c, Times(h), m.ts, st.windows)
    requires forall v :: v in st.windows && Max(0, Left(c, m.ts).start - c.duration) <= v.start <= m.ts + 1 ==>
               v in seen
    ensures !NonEmpty(Times(h), Left(c, m.ts))
  {
    hide FoldAll, Within, Latest, Exact, Ideal, Top;
    var left := Left(c, m.ts);
    ContextFacts(c, a, h, m, st);
    if NonEmpty(Times(h), left) {
      ReachingStored(c, a, h, m, st, left);
      var u :| u in Times(h) && left.start <= u <= left.end;
      if Ideal(c, Times(h), left) {
        assert false;
      } else if u == m.ts {
        LeftIdeal(c, Times(h), u);
      } else {
        var top :| top in st.windows && Top(c, Times(h), m.ts, top);
        TopInReach(c, Times(h), m.ts, u, top);
      }
    }
  }

  ghost predicate InReach(c: Config, ts: int, v: Span) {
    Max(0, Left(c, ts).start - c.duration) <= v.start <= ts + 1
  }

  /** The list holds the stored windows in reach that have not been met, all below those met. */
  ghost predicate Remaining<S>(c: Config, ts: int, st: Store<Entry<S>>, seen: set<Span>, spans: seq<Span>) {
    && Ascending(spans)
    && (forall v :: v in spans ==> v in st.windows && v !in seen && InReach(c, ts, v))
    && (forall v, u :: v in spans && u in seen ==> Before(v, u))
    && (forall v :: v in st.windows && InReach(c, ts, v) ==> v in seen || v in spans)
  }

  lemma RemainingNext<S>(c: Config, ts: int, st: Store<Entry<S>>, seen: set<Span>, spans: seq<Span>)
    requires Remaining(c, ts, st, seen, spans) && spans != []
    ensures Remaining(c, ts, st, seen + {spans[|spans| - 1]}, spans[..|spans| - 1])
  {
    var n := |spans| - 1;
    assert spans == spans[..n] + [spans[n]];
    forall v | v in spans[..n] ensures v != spans[n] && v in spans && Before(v, spans[n]) {
      var i :| 0 <= i < n && spans[..n][i] == v;
    }
  }

  /** The whole downward scan, from any point of it. */
  lemma {:induction false} ScanFrom<M, S, R>(c: Config, a: Aggregator<M, S, R>, h: seq<Message<M>>, m: Message<M>,
                                             st: Store<Entry<S>>, seen: set<Span>, spans: seq<Span>, sc: Scan<S, R>)
    requires Context(c, a, h, m, st) && ScanInv(c, a, h, m, st, seen, sc) && BaseStored(c, Times(h), m.ts, st.windows)
    requires Remaining(c, m.ts, st, seen, spans)
    ensures ScanResult(c, a, h, m, st,
                       ScanNone(c, a, m, Expired(c, m, st),
                                ScanDown(c, a, m, Expired(c, m, st), st.windows, spans, sc)))
    decreases |spans|
  {
    hide Exact, Ideal, EntryOk, FoldAll, Within, Latest, EmittedSoFar, Met, Written, ScanResult, BaseStored;
    if spans == [] {
      EndNone(c, a, h, m, st, seen, sc);
    } else {
      var n := |spans| - 1;
      var w := spans[n];
      var sc1 := ScanStep(c, a, m, Expired(c, m, st), w, st.windows[w], sc);
      NextAbove(c, a, h, m, st, seen, spans, sc);
      StoredFacts(c, a, h, m, st, w);
      if w.end < m.ts {
        EndBase(c, a, h, m, st, seen, w, sc);
      } else if w.end == m.ts {
        AllMetAbove(m.ts, st, seen, w);
        EndLeft(c, a, h, m, st, seen, w, sc);
      } else {
        if w.start <= m.ts {
          StepOverlap(c, a, h, m, st, seen, w, sc);
        } else {
          StepRight(c, a, h, m, st, seen, w, sc);
        }
        RemainingNext(c, m.ts, st, seen, spans);
        ScanFrom(c, a, h, m, st, seen + {w}, spans[..n], sc1);
      }
    }
  }

  lemma AllMetAbove<S>(ts: int, st: Store<Entry<S>>, seen: set<Span>, w: Span)
    requires AboveSeen(ts, st, seen, w) && w.end <= ts
    ensures AllMet(ts, st, seen)
  {
  }

  lemma LastIsGreatest(spans: seq<Span>, v: Span)
    requires Ascending(spans) && spans != []
    ensures v in spans ==> v == spans[|spans| - 1] || Before(v, spans[|spans| - 1])
  {
    if v in spans {
      var i :| 0 <= i < |spans| && spans[i] == v;
    }
  }

  /** The next window of the list is the largest one not met yet. */
  lemma NextAbove<M, S, R>(c: Config, a: Aggregator<M, S, R>, h: seq<Message<M>>, m: Message<M>,
                           st: Store<Entry<S>>, seen: set<Span>, spans: seq<Span>, sc: Scan<S, R>)
    requires Context(c, a, h, m, st) && ScanInv(c, a, h, m, st, seen, sc)
    requires Remaining(c, m.ts, st, seen, spans) && spans != []
    ensures AboveSeen(m.ts, st, seen, spans[|spans| - 1])
  {
    hide Exact, Ideal, EntryOk, FoldAll, Within, Latest, EmittedSoFar, Met, Written, ScanInv;
    var w := spans[|spans| - 1];
    StoredFacts(c, a, h, m, st, w);
    forall v | v in st.windows && v.start <= m.ts + 1 && v.end > w.end ensures v in seen {
      StoredFacts(c, a, h, m, st, v);
      LastIsGreatest(spans, v);
    }
  }
}
