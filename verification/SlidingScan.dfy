/** The backward scan computes the exact windows of the extended history. */
module SlidingScan {
  import opened Wrappers
  import opened Aggregation
  import opened WindowStore
  import opened Sliding
  import opened SlidingSpec

  /** The store is exact for h, and m is no more than the grace period behind. */
  ghost predicate Context<M, S, R>(c: Config, a: Aggregator<M, S, R>, h: seq<Message<M>>, m: Message<M>,
                                   st: Store<Entry<S>>) {
    && c.Valid()
    && Exact(c, a, h, st)
    && 1 <= m.ts
    && m.ts >= st.latest - c.grace
  }

  function Expired<M, S>(c: Config, m: Message<M>, st: Store<Entry<S>>): int {
    ExpiredStart(c, Max(m.ts, st.latest))
  }

  /** Windows that reach the message are neither expired nor deleted. */
  lemma ReachingStored<M, S, R>(c: Config, a: Aggregator<M, S, R>, h: seq<Message<M>>, m: Message<M>,
                                st: Store<Entry<S>>, w: Span)
    requires Context(c, a, h, m, st)
    requires w == Left(c, w.end) && w.end >= m.ts
    ensures w.start > Expired(c, m, st)
    ensures Ideal(c, Times(h), w) ==> w in st.windows
  {
  }

  /** The left window of a seen timestamp. */
  lemma LeftIdeal(c: Config, times: set<int>, t: int)
    requires c.Valid() && Positive(times) && t in times
    ensures Ideal(c, times, Left(c, t))
  {
  }

  /** The right window of a seen timestamp that has a later message in reach. */
  lemma RightIdeal(c: Config, times: set<int>, t: int, u: int)
    requires c.Valid() && Positive(times) && t in times && u in times && t < u <= t + 1 + c.duration
    ensures Ideal(c, times, Right(c, t))
  {
    assert Right(c, t) == Left(c, t + 1 + c.duration);
  }

  /** The largest window end below ts. */
  lemma TopExists(c: Config, times: set<int>, ts: int, p: int, e: int) returns (w: Span)
    requires c.Valid() && Positive(times) && p in times && p <= e < ts
    requires forall v :: Ideal(c, times, v) && v.end < ts ==> v.end <= e
    ensures Top(c, times, ts, w) && w.end >= p
    decreases e - p
  {
    LeftIdeal(c, times, p);
    if Ideal(c, times, Left(c, e)) {
      w := Left(c, e);
    } else {
      forall v | Ideal(c, times, v) && v.end < ts ensures v.end <= e - 1 {
        assert v == Left(c, v.end);
      }
      w := TopExists(c, times, ts, p, e - 1);
    }
  }

  /** An updated entry is exact for the extended history. */
  lemma BumpOk<M, S, R>(c: Config, a: Aggregator<M, S, R>, h: seq<Message<M>>, m: Message<M>, w: Span, e: Entry<S>)
    requires EntryOk(a, h, w, e) && w.start <= m.ts <= w.end
    ensures EntryOk(a, h + [m], w, Entry(Max(m.ts, e.maxTs), a.agg(e.agg, m.value, m.ts)))
  {
    TimesSnoc(h, m);
    WithinSnoc(h, m, w.start, w.end);
    FoldAllSnoc(a, Within(h, w.start, w.end), m);
  }

  /** An entry outside the message's reach stays exact. */
  lemma KeepOk<M, S, R>(a: Aggregator<M, S, R>, h: seq<Message<M>>, m: Message<M>, w: Span, e: Entry<S>)
    requires EntryOk(a, h, w, e) && !(w.start <= m.ts <= w.end)
    ensures EntryOk(a, h + [m], w, e)
  {
    TimesSnoc(h, m);
    WithinOutside(h, m, w.start, w.end);
  }

  /** A window the message is alone in. */
  lemma AloneOk<M, S, R>(a: Aggregator<M, S, R>, h: seq<Message<M>>, m: Message<M>, w: Span)
    requires w.start <= m.ts <= w.end && !NonEmpty(Times(h), w)
    ensures EntryOk(a, h + [m], w, Entry(m.ts, a.agg(a.initial, m.value, m.ts)))
  {
    TimesSnoc(h, m);
    WithinSnoc(h, m, w.start, w.end);
    WithinNone(h, w.start, w.end);
    FoldAllSnoc(a, [], m);
    assert [] + [m] == [m];
  }

  /** Ideal windows stay ideal when the history grows. */
  lemma IdealGrows(c: Config, times: set<int>, ts: int, w: Span)
    requires Ideal(c, times, w)
    ensures Ideal(c, times + {ts}, w)
  {
    var u :| u in times && w.start <= u <= w.end;
    assert u in times + {ts};
  }

  /** What the scan has done once the windows in seen are behind it. */
  ghost predicate ScanInv<M, S, R>(c: Config, a: Aggregator<M, S, R>, h: seq<Message<M>>, m: Message<M>,
                                   st: Store<Entry<S>>, seen: set<Span>, sc: Scan<S, R>)
  {
    && !sc.done && sc.late == [] && sc.maxDeleted == Expired(c, m, st) - c.duration
    && sc.store.lastExpired == st.lastExpired && sc.store.lastDeleted == st.lastDeleted
    && (sc.store.latest == st.latest || sc.store.latest == Max(m.ts, st.latest))
    && Met(c, m.ts, st, seen, sc)
    && Written(c, a, h, m, st, seen, sc.rightExists, sc.store.windows)
    && EmittedSoFar(ValueOf(a, h + [m]), Times(h + [m]), m.ts, seen, sc.updated)
  }

  /** The loop variables describe the windows met. */
  ghost predicate Met<S, R>(c: Config, ts: int, st: Store<Entry<S>>, seen: set<Span>, sc: Scan<S, R>) {
    && (forall w :: w in seen ==> w in st.windows && w.end > ts && w.start <= ts + 1)
    && (forall x :: x in sc.starts <==> x == Left(c, ts).start || exists w :: w in seen && w.start == x)
    && (sc.rightExists <==> exists w :: w in seen && st.windows[w].maxTs > ts)
  }

  /** The windows met are updated, the right window is there if it is due, nothing else has changed. */
  ghost predicate Written<M, S, R>(c: Config, a: Aggregator<M, S, R>, h: seq<Message<M>>, m: Message<M>,
                                   st: Store<Entry<S>>, seen: set<Span>, rightExists: bool,
                                   windows: map<Span, Entry<S>>)
  {
    && (rightExists ==> Right(c, m.ts) in windows && EntryOk(a, h, Right(c, m.ts), windows[Right(c, m.ts)]))
    && windows.Keys == st.windows.Keys + (if rightExists then {Right(c, m.ts)} else {})
    && (forall w :: w in st.windows && (w !in seen || w.start > m.ts) ==> windows[w] == st.windows[w])
    && (forall w :: w in st.windows && w in seen && w.start <= m.ts ==> EntryOk(a, h + [m], w, windows[w]))
  }

  /** The emissions so far: the left windows among those seen, largest first. */
  ghost predicate EmittedSoFar<R>(value: Span -> R, times: set<int>, ts: int, seen: set<Span>,
                                  updated: seq<Emission<R>>) {
    && (forall i, j :: 0 <= i < j < |updated| ==> Before(updated[j].span, updated[i].span))
    && (forall x :: x in updated ==> x.value == value(x.span))
    && (forall x :: x in updated ==> x.span in seen && x.span.start <= ts && x.span.end in times)
    && (forall w :: w in seen && w.start <= ts && w.end in times ==> Emission(w, value(w)) in updated)
  }

  /** The windows above w that the scan can meet have all been met. */
  ghost predicate AboveSeen<S>(ts: int, st: Store<Entry<S>>, seen: set<Span>, w: Span) {
    && w in st.windows && w !in seen && w.start <= ts + 1
    && (forall v :: v in st.windows && v.start <= ts + 1 && v.end > w.end ==> v in seen)
    && (forall v :: v in seen ==> Before(w, v))
  }

  /** No window that ends above w reaches a message later than ts. */
  ghost predicate QuietAbove(c: Config, times: set<int>, ts: int, w: Span) {
    forall v, u :: Ideal(c, times, v) && v.start <= ts + 1 && v.end > w.end && u in times && v.start <= u <= v.end ==>
          u <= ts
  }

  lemma CopyRange(c: Config, times: set<int>, ts: int, w: Span, top: int, u: int)
    requires c.Valid() && Positive(times) && 1 <= ts && Ideal(c, times, w)
    requires QuietAbove(c, times, ts, w)
    requires w.start <= ts && IsMax(times, w, top) && top > ts && u in times
    ensures (w.start <= u <= w.end) <==> (ts + 1 <= u <= ts + 1 + c.duration)
  {
    if w.start <= u <= ts {
      RightIdeal(c, times, u, top);
      assert false;
    }
    if w.end < u <= ts + 1 + c.duration {
      LeftIdeal(c, times, u);
      assert false;
    }
  }

  lemma SeenQuiet<M, S, R>(c: Config, a: Aggregator<M, S, R>, h: seq<Message<M>>, m: Message<M>, st: Store<Entry<S>>,
                           seen: set<Span>, w: Span)
    requires Context(c, a, h, m, st) && AboveSeen(m.ts, st, seen, w)
    requires w.end > m.ts && forall v :: v in seen ==> v in st.windows && st.windows[v].maxTs <= m.ts
    ensures QuietAbove(c, Times(h), m.ts, w)
  {
    hide Times, Exact, NonEmpty, FoldAll, Within;
    forall v, u | Ideal(c, Times(h), v) && v.start <= m.ts + 1 && v.end > w.end && u in Times(h)
        && v.start <= u <= v.end
      ensures u <= m.ts
    {
      ReachingStored(c, a, h, m, st, v);
      StoredFacts(c, a, h, m, st, v);
    }
  }

  /**
   * The copy: the first window met that holds a later message holds exactly the
   * messages of the missing right window.
   */
  lemma CopyOk<M, S, R>(c: Config, a: Aggregator<M, S, R>, h: seq<Message<M>>, ts: int, w: Span, e: Entry<S>)
    requires c.Valid() && Positive(Times(h)) && 1 <= ts && Ideal(c, Times(h), w)
    requires QuietAbove(c, Times(h), ts, w)
    requires w.start <= ts < e.maxTs && EntryOk(a, h, w, e)
    ensures EntryOk(a, h, Right(c, ts), e)
  {
    var right := Right(c, ts);
    forall u | u in Times(h) ensures (w.start <= u <= w.end) <==> (right.start <= u <= right.end) {
      CopyRange(c, Times(h), ts, w, e.maxTs, u);
    }
    WithinSame(h, w.start, w.end, right.start, right.end);
  }

  lemma ContextFacts<M, S, R>(c: Config, a: Aggregator<M, S, R>, h: seq<Message<M>>, m: Message<M>, st: Store<Entry<S>>)
    requires Context(c, a, h, m, st)
    ensures Times(h + [m]) == Times(h) + {m.ts}
    ensures Positive(Times(h)) && Positive(Times(h + [m]))
    ensures st.latest == Latest(h) && Max(m.ts, st.latest) == Latest(h + [m])
  {
    TimesSnoc(h, m);
    LatestSnoc(h, m);
  }

  /** What exactness says about one stored window. */
  lemma StoredFacts<M, S, R>(c: Config, a: Aggregator<M, S, R>, h: seq<Message<M>>, m: Message<M>, st: Store<Entry<S>>,
                             w: Span)
    requires Context(c, a, h, m, st) && w in st.windows
    ensures w == Left(c, w.end) && Ideal(c, Times(h), w) && EntryOk(a, h, w, st.windows[w])
    ensures w.end >= m.ts ==> w.start > Expired(c, m, st)
  {
  }

  /** A stored window that starts just after the message is its right window. */
  lemma RightSpan<M, S, R>(c: Config, a: Aggregator<M, S, R>, h: seq<Message<M>>, m: Message<M>, st: Store<Entry<S>>,
                           w: Span)
    requires Context(c, a, h, m, st) && w in st.windows
    ensures w.start == m.ts + 1 <==> w == Right(c, m.ts)
    ensures w.start == m.ts + 1 ==> st.windows[w].maxTs > m.ts
  {
  }

  /** As long as no window met holds a later message, the right window is not stored. */
  lemma RightMissing<M, S, R>(c: Config, a: Aggregator<M, S, R>, h: seq<Message<M>>, m: Message<M>, st: Store<Entry<S>>,
                              seen: set<Span>, w: Span)
    requires Context(c, a, h, m, st) && AboveSeen(m.ts, st, seen, w) && w.start <= m.ts
    requires forall v :: v in seen ==> v in st.windows && st.windows[v].maxTs <= m.ts
    ensures Right(c, m.ts) !in st.windows
  {
    if Right(c, m.ts) in st.windows {
      RightSpan(c, a, h, m, st, Right(c, m.ts));
    }
  }

  lemma AddRight<M, S, R>(c: Config, a: Aggregator<M, S, R>, h: seq<Message<M>>, m: Message<M>, st: Store<Entry<S>>,
                          seen: set<Span>, windows: map<Span, Entry<S>>, e: Entry<S>)
    requires Written(c, a, h, m, st, seen, false, windows)
    requires Right(c, m.ts) !in st.windows && EntryOk(a, h, Right(c, m.ts), e)
    ensures Written(c, a, h, m, st, seen, true, windows[Right(c, m.ts) := e])
  {
  }

  lemma UpdateMet<M, S, R>(c: Config, a: Aggregator<M, S, R>, h: seq<Message<M>>, m: Message<M>, st: Store<Entry<S>>,
                           seen: set<Span>, rightExists: bool, windows: map<Span, Entry<S>>, w: Span, e: Entry<S>)
    requires Written(c, a, h, m, st, seen, rightExists, windows)
    requires w in st.windows && w.start <= m.ts && EntryOk(a, h + [m], w, e)
    ensures Written(c, a, h, m, st, seen + {w}, rightExists, windows[w := e])
  {
    hide EntryOk;
  }

  lemma WrittenOverlap<M, S, R>(c: Config, a: Aggregator<M, S, R>, h: seq<Message<M>>, m: Message<M>,
                                st: Store<Entry<S>>, seen: set<Span>, w: Span, sc: Scan<S, R>)
    requires Context(c, a, h, m, st) && ScanInv(c, a, h, m, st, seen, sc) && AboveSeen(m.ts, st, seen, w)
    requires w.end > m.ts && w.start <= m.ts
    ensures
      var sc1 := ScanOverlapping(c, a, m, Expired(c, m, st), w, st.windows[w], sc);
      Written(c, a, h, m, st, seen + {w}, sc1.rightExists, sc1.store.windows)
  {
    var e := st.windows[w];
    ReachingStored(c, a, h, m, st, w);
    BumpOk(c, a, h, m, w, e);
    var e1 := Entry(Max(m.ts, e.maxTs), a.agg(e.agg, m.value, m.ts));
    if !sc.rightExists && e.maxTs > m.ts {
      SeenQuiet(c, a, h, m, st, seen, w);
      CopyOk(c, a, h, m.ts, w, e);
      RightMissing(c, a, h, m, st, seen, w);
      AddRight(c, a, h, m, st, seen, sc.store.windows, e);
      UpdateMet(c, a, h, m, st, seen, true, sc.store.windows[Right(c, m.ts) := e], w, e1);
    } else {
      UpdateMet(c, a, h, m, st, seen, sc.rightExists, sc.store.windows, w, e1);
    }
  }

  lemma EmittedStep<R>(value: Span -> R, times: set<int>, ts: int, seen: set<Span>, updated: seq<Emission<R>>, w: Span)
    requires EmittedSoFar(value, times, ts, seen, updated)
    requires w.start <= ts && w.end in times && forall v :: v in seen ==> Before(w, v)
    ensures EmittedSoFar(value, times, ts, seen + {w}, updated + [Emission(w, value(w))])
  {
    assert Emission(w, value(w)) in updated + [Emission(w, value(w))];
  }

  lemma EmittedSkip<R>(value: Span -> R, times: set<int>, ts: int, seen: set<Span>, updated: seq<Emission<R>>, w: Span)
    requires EmittedSoFar(value, times, ts, seen, updated) && (w.start > ts || w.end !in times)
    ensures EmittedSoFar(value, times, ts, seen + {w}, updated)
  {
  }

  lemma MetStep<S, R>(c: Config, ts: int, st: Store<Entry<S>>, seen: set<Span>, sc: Scan<S, R>, w: Span,
                      sc1: Scan<S, R>)
    requires Met(c, ts, st, seen, sc) && w in st.windows && w.end > ts && w.start <= ts + 1
    requires sc1.starts == sc.starts + {w.start}
    requires sc1.rightExists == (sc.rightExists || st.windows[w].maxTs > ts)
    ensures Met(c, ts, st, seen + {w}, sc1)
  {
    forall x | x in sc1.starts ensures x == Left(c, ts).start || exists v :: v in seen + {w} && v.start == x {
      if x in sc.starts && x != Left(c, ts).start {
        var v :| v in seen && v.start == x;
        assert v in seen + {w};
      } else if x == w.start {
        assert w in seen + {w};
      }
    }
    if st.windows[w].maxTs > ts {
      assert w in seen + {w};
    }
    if sc.rightExists {
      var v :| v in seen && st.windows[v].maxTs > ts;
      assert v in seen + {w};
    }
  }

  /** One step over a window that ends after the message emits it if it is a left window. */
  lemma EmittedOverlap<M, S, R>(a: Aggregator<M, S, R>, h: seq<Message<M>>, m: Message<M>, seen: set<Span>,
                                updated: seq<Emission<R>>, w: Span, e: Entry<S>)
    requires EmittedSoFar(ValueOf(a, h + [m]), Times(h + [m]), m.ts, seen, updated)
    requires EntryOk(a, h + [m], w, e) && w.start <= m.ts && forall v :: v in seen ==> Before(w, v)
    ensures EmittedSoFar(ValueOf(a, h + [m]), Times(h + [m]), m.ts, seen + {w},
                         if w.end == e.maxTs then updated + [Emission(w, a.result(e.agg))] else updated)
  {
    assert a.result(e.agg) == ValueOf(a, h + [m])(w);
    if w.end == e.maxTs {
      EmittedStep(ValueOf(a, h + [m]), Times(h + [m]), m.ts, seen, updated, w);
    } else {
      EmittedSkip(ValueOf(a, h + [m]), Times(h + [m]), m.ts, seen, updated, w);
    }
  }

  /** One step over a window that ends after the message. */
  lemma StepOverlap<M, S, R>(c: Config, a: Aggregator<M, S, R>, h: seq<Message<M>>, m: Message<M>, st: Store<Entry<S>>,
                             seen: set<Span>, w: Span, sc: Scan<S, R>)
    requires Context(c, a, h, m, st) && ScanInv(c, a, h, m, st, seen, sc) && AboveSeen(m.ts, st, seen, w)
    requires w.end > m.ts && w.start <= m.ts
    ensures ScanInv(c, a, h, m, st, seen + {w}, ScanStep(c, a, m, Expired(c, m, st), w, st.windows[w], sc))
  {
    hide Exact, EntryOk, Ideal, IsMax, Written, EmittedSoFar, Met, ValueOf;
    var e := st.windows[w];
    var sc1 := ScanStep(c, a, m, Expired(c, m, st), w, e, sc);
    StoredFacts(c, a, h, m, st, w);
    MetStep(c, m.ts, st, seen, sc, w, sc1);
    WrittenOverlap(c, a, h, m, st, seen, w, sc);
    BumpOk(c, a, h, m, w, e);
    EmittedOverlap(a, h, m, seen, sc.updated, w, Entry(Max(m.ts, e.maxTs), a.agg(e.agg, m.value, m.ts)));
  }

  /** One step over the right window itself. */
  lemma StepRight<M, S, R>(c: Config, a: Aggregator<M, S, R>, h: seq<Message<M>>, m: Message<M>, st: Store<Entry<S>>,
                           seen: set<Span>, w: Span, sc: Scan<S, R>)
    requires Context(c, a, h, m, st) && ScanInv(c, a, h, m, st, seen, sc) && w in st.windows && w.start == m.ts + 1
    ensures ScanInv(c, a, h, m, st, seen + {w}, ScanStep(c, a, m, Expired(c, m, st), w, st.windows[w], sc))
  {
    hide Exact, Ideal, IsMax, EmittedSoFar, Met, ValueOf, FoldAll, Within;
    var sc1 := ScanStep(c, a, m, Expired(c, m, st), w, st.windows[w], sc);
    RightSpan(c, a, h, m, st, w);
    StoredFacts(c, a, h, m, st, w);
    MetStep(c, m.ts, st, seen, sc, w, sc1);
    EmittedSkip(ValueOf(a, h + [m]), Times(h + [m]), m.ts, seen, sc.updated, w);
    assert Written(c, a, h, m, st, seen + {w}, true, sc1.store.windows);
  }
}
