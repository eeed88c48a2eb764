/** Messages that come after the grace period of their window but are still scanned (windows/sliding.py). */
module SlidingPast {
  import opened Wrappers
  import opened Aggregation
  import opened WindowStore
  import opened Sliding
  import opened SlidingSpec
  import opened SlidingScan
  import opened SlidingRun

  /** Stored windows have the length they should, and their largest timestamp lies inside. */
  ghost predicate Shaped<S>(c: Config, windows: map<Span, Entry<S>>) {
    forall w :: w in windows ==> w == Left(c, w.end) && w.start <= windows[w].maxTs <= w.end
  }

  predicate Holds(w: Span, ts: int) { w.start <= ts <= w.end }

  /** What the message makes of a window's entry. */
  function Bumped<M, S, R>(a: Aggregator<M, S, R>, m: Message<M>, w: Span, e: Entry<S>): Entry<S> {
    if Holds(w, m.ts) then Entry(Max(m.ts, e.maxTs), a.agg(e.agg, m.value, m.ts)) else e
  }

  lemma WriteShaped<S>(c: Config, windows: map<Span, Entry<S>>, w: Span, e: Entry<S>)
    requires Shaped(c, windows) && w == Left(c, w.end) && w.start <= e.maxTs <= w.end
    ensures Shaped(c, windows[w := e])
  {
  }

  lemma OverlappingShaped<M, S, R>(c: Config, a: Aggregator<M, S, R>, m: Message<M>, expired: int, w: Span, e: Entry<S>,
                                   sc: Scan<S, R>)
    requires c.Valid() && 1 <= m.ts && Shaped(c, sc.store.windows)
    requires w == Left(c, w.end) && w.start <= e.maxTs <= w.end && w.start <= m.ts < w.end
    ensures Shaped(c, ScanOverlapping(c, a, m, expired, w, e, sc).store.windows)
  {
    hide Shaped;
    var right := Right(c, m.ts);
    var before := if !sc.rightExists && e.maxTs > m.ts then sc.store.windows[right := e] else sc.store.windows;
    if !sc.rightExists && e.maxTs > m.ts {
      WriteShaped(c, sc.store.windows, right, e);
    }
    WriteShaped(c, before, w, Entry(Max(m.ts, e.maxTs), a.agg(e.agg, m.value, m.ts)));
  }

  lemma LeftShaped<M, S, R>(c: Config, a: Aggregator<M, S, R>, m: Message<M>, expired: int, w: Span, e: Entry<S>,
                            sc: Scan<S, R>)
    requires c.Valid() && 1 <= m.ts && Shaped(c, sc.store.windows)
    requires w == Left(c, w.end) && w.start <= e.maxTs <= w.end == m.ts
    ensures Shaped(c, ScanLeft(c, a, m, expired, w, e, sc).store.windows)
  {
    hide Shaped;
    var alone, later := Entry(m.ts, a.agg(a.initial, m.value, m.ts)), Entry(m.ts, a.agg(e.agg, m.value, m.ts));
    var due := e.maxTs + 1 !in sc.starts && e.maxTs < m.ts;
    var before := if due then sc.store.windows[Right(c, e.maxTs) := alone] else sc.store.windows;
    if due {
      WriteShaped(c, sc.store.windows, Right(c, e.maxTs), alone);
    }
    WriteShaped(c, before, w, later);
  }

  lemma BaseShaped<M, S, R>(c: Config, a: Aggregator<M, S, R>, m: Message<M>, expired: int, w: Span, e: Entry<S>,
                            sc: Scan<S, R>)
    requires c.Valid() && 1 <= m.ts && Shaped(c, sc.store.windows)
    requires w == Left(c, w.end) && w.start <= e.maxTs <= w.end < m.ts
    ensures Shaped(c, ScanBase(c, a, m, expired, w, e, sc).store.windows)
  {
    hide Shaped;
    var left, alone := Left(c, m.ts), Entry(m.ts, a.agg(a.initial, m.value, m.ts));
    var due := e.maxTs + 1 !in sc.starts && e.maxTs + 1 + c.duration >= m.ts;
    var before := if due then sc.store.windows[Right(c, e.maxTs) := alone] else sc.store.windows;
    if due {
      WriteShaped(c, sc.store.windows, Right(c, e.maxTs), alone);
    }
    WriteShaped(c, before, left, Entry(m.ts, a.agg(if left.start > e.maxTs then a.initial else e.agg, m.value, m.ts)));
  }

  lemma StepShaped<M, S, R>(c: Config, a: Aggregator<M, S, R>, m: Message<M>, expired: int, w: Span, e: Entry<S>,
                            sc: Scan<S, R>)
    requires c.Valid() && 1 <= m.ts && Shaped(c, sc.store.windows)
    requires w == Left(c, w.end) && w.start <= e.maxTs <= w.end && w.start <= m.ts + 1
    ensures Shaped(c, ScanStep(c, a, m, expired, w, e, sc).store.windows)
  {
    hide Shaped, ScanOverlapping, ScanLeft, ScanBase;
    var sc1 := sc.(starts := sc.starts + {w.start});
    if w.start == m.ts + 1 {
    } else if w.end > m.ts {
      OverlappingShaped(c, a, m, expired, w, e, sc1);
    } else if w.end == m.ts {
      LeftShaped(c, a, m, expired, w, e, sc1);
    } else {
      BaseShaped(c, a, m, expired, w, e, sc1);
    }
  }

  lemma {:induction false} ScanShaped<M, S, R>(c: Config, a: Aggregator<M, S, R>, m: Message<M>, expired: int,
                                               windows: map<Span, Entry<S>>, spans: seq<Span>, sc: Scan<S, R>)
    requires c.Valid() && 1 <= m.ts && Shaped(c, windows) && Shaped(c, sc.store.windows)
    requires forall s :: s in spans ==> s in windows && s.start <= m.ts + 1
    ensures Shaped(c, ScanDown(c, a, m, expired, windows, spans, sc).store.windows)
    decreases |spans|
  {
    hide ScanStep;
    if !sc.done && spans != [] {
      var n := |spans| - 1;
      assert forall s :: s in spans[..n] ==> s in spans;
      assert spans[n] in spans;
      StepShaped(c, a, m, expired, spans[n], windows[spans[n]], sc);
      ScanShaped(c, a, m, expired, windows, spans[..n], ScanStep(c, a, m, expired, spans[n], windows[spans[n]], sc));
    }
  }

  lemma ProcessShaped<M, S, R>(c: Config, a: Aggregator<M, S, R>, m: Message<M>, st: Store<Entry<S>>)
    requires c.Valid() && 1 <= m.ts && Shaped(c, st.windows)
    ensures Shaped(c, Process(c, a, m, st).store.windows)
  {
    var expired := ExpiredStart(c, Max(m.ts, st.latest));
    hide ScanDown, Candidates, DeleteWindows, ExpireWindows;
    ScanShaped(c, a, m, expired, st.windows, Candidates(c, m.ts, st), ScanStart(c, m.ts, expired, st));
    var sc := FullScan(c, a, m, expired, st);
    CleanupKeeps(sc.store, expired, sc.maxDeleted);
  }

  /** In every run whatsoever the stored windows are well formed. */
  lemma {:induction false} RunsShaped<M, S, R>(c: Config, a: Aggregator<M, S, R>, msgs: seq<Message<M>>)
    requires c.Valid() && forall i :: 0 <= i < |msgs| ==> 1 <= msgs[i].ts
    ensures Shaped(c, Run(c, a, msgs).store.windows)
  {
    hide Process, Shaped;
    if msgs == [] {
      NothingShaped<S>(c);
    } else {
      var n := |msgs| - 1;
      RunsShaped(c, a, msgs[..n]);
      ProcessShaped(c, a, msgs[n], Run(c, a, msgs[..n]).store);
    }
  }

  lemma NothingShaped<S>(c: Config)
    ensures Shaped<S>(c, map[])
  {
  }

  // ----- One unexpired window through the scan -----

  /** The window has had its update, and its emission if it is a left window. */
  ghost predicate Settled<M, S, R>(a: Aggregator<M, S, R>, m: Message<M>, w: Span, e: Entry<S>, sc: Scan<S, R>) {
    var e1 := Bumped(a, m, w, e);
    && w in sc.store.windows && sc.store.windows[w] == e1 && w.start in sc.starts
    && (w.end == e1.maxTs ==> Emission(w, a.result(e1.agg)) in sc.updated)
    && (w.end == m.ts ==> sc.done)
  }

  /** A window that holds the message is still to be met, or settled. */
  ghost predicate OnTrack<M, S, R>(a: Aggregator<M, S, R>, m: Message<M>, w: Span, e: Entry<S>, spans: seq<Span>,
                                   sc: Scan<S, R>) {
    (w in spans && !sc.done) || (w !in spans && Settled(a, m, w, e, sc))
  }

  /** Meeting the window itself settles it. */
  lemma MeetsItself<M, S, R>(c: Config, a: Aggregator<M, S, R>, m: Message<M>, expired: int, w: Span, e: Entry<S>,
                             sc: Scan<S, R>)
    requires c.Valid() && Holds(w, m.ts) && w.start > expired && w == Left(c, w.end) && w.start <= e.maxTs <= w.end
    ensures Settled(a, m, w, e, ScanStep(c, a, m, expired, w, e, sc))
  {
  }

  /** Meeting another window leaves a settled one settled. */
  lemma MeetsOther<M, S, R>(c: Config, a: Aggregator<M, S, R>, m: Message<M>, expired: int, w: Span, e: Entry<S>,
                            v: Span, f: Entry<S>, sc: Scan<S, R>)
    requires c.Valid() && Holds(w, m.ts) && w == Left(c, w.end) && v != w && v == Left(c, v.end) && v.start <= m.ts + 1
    requires Settled(a, m, w, e, sc) && !sc.done
    ensures Settled(a, m, w, e, ScanStep(c, a, m, expired, v, f, sc))
  {
  }

  /** The last of ascending spans comes after all others. */
  lemma LastAfter(spans: seq<Span>, w: Span)
    requires Ascending(spans) && spans != [] && w in spans
    ensures var n := |spans| - 1; w == spans[n] || (w in spans[..n] && Before(w, spans[n]))
    ensures spans[|spans| - 1] !in spans[..|spans| - 1]
  {
    var n := |spans| - 1;
    var i :| 0 <= i < |spans| && spans[i] == w;
    if i < n {
      assert spans[..n][i] == w;
    }
  }

  /** A window still to come that holds the message is not passed by when the scan stops. */
  lemma NotDoneYet<M, S, R>(c: Config, a: Aggregator<M, S, R>, m: Message<M>, expired: int, w: Span, v: Span,
                            f: Entry<S>, sc: Scan<S, R>)
    requires c.Valid() && Holds(w, m.ts) && w == Left(c, w.end) && v == Left(c, v.end) && Before(w, v) && !sc.done
    ensures !ScanStep(c, a, m, expired, v, f, sc).done
  {
  }

  lemma {:induction false} ScanSettles<M, S, R>(c: Config, a: Aggregator<M, S, R>, m: Message<M>, expired: int,
                                                windows: map<Span, Entry<S>>, spans: seq<Span>, w: Span, sc: Scan<S, R>)
    requires c.Valid() && Shaped(c, windows) && Ascending(spans) && w in windows && Holds(w, m.ts) && w.start > expired
    requires forall s :: s in spans ==> s in windows && s.start <= m.ts + 1
    requires OnTrack(a, m, w, windows[w], spans, sc)
    ensures Settled(a, m, w, windows[w], ScanDown(c, a, m, expired, windows, spans, sc))
    decreases |spans|
  {
    hide ScanStep, Settled;
    if !sc.done && spans != [] {
      var n := |spans| - 1;
      var v, rest := spans[n], spans[..n];
      assert forall s :: s in rest ==> s in spans;
      assert v in spans;
      var sc1 := ScanStep(c, a, m, expired, v, windows[v], sc);
      LastAfter(spans, v);
      if v == w {
        MeetsItself(c, a, m, expired, w, windows[w], sc);
      } else if w in spans {
        LastAfter(spans, w);
        NotDoneYet(c, a, m, expired, w, v, windows[v], sc);
      } else {
        MeetsOther(c, a, m, expired, w, windows[w], v, windows[v], sc);
      }
      ScanSettles(c, a, m, expired, windows, rest, w, sc1);
    }
  }

  // ----- A window that does not hold the message -----

  /** A stored right window is met before anything is copied into it. */
  ghost predicate RightKnown<S, R>(c: Config, ts: int, spans: seq<Span>, w: Span, sc: Scan<S, R>) {
    w == Right(c, ts) ==> sc.rightExists || w in spans
  }

  lemma LeavesOther<M, S, R>(c: Config, a: Aggregator<M, S, R>, m: Message<M>, expired: int, w: Span, e: Entry<S>,
                             v: Span, f: Entry<S>, sc: Scan<S, R>)
    requires c.Valid() && 1 <= m.ts && !Holds(w, m.ts) && v == Left(c, v.end) && v.start <= m.ts + 1
             && v.start <= f.maxTs <= v.end
    requires w in sc.store.windows && sc.store.windows[w] == e
    requires w == Right(c, m.ts) ==> sc.rightExists || v == w
    ensures var sc1 := ScanStep(c, a, m, expired, v, f, sc);
            && w in sc1.store.windows && sc1.store.windows[w] == e
            && (w == Right(c, m.ts) ==> sc1.rightExists)
  {
  }

  lemma {:induction false} ScanLeaves<M, S, R>(c: Config, a: Aggregator<M, S, R>, m: Message<M>, expired: int,
                                               windows: map<Span, Entry<S>>, spans: seq<Span>, w: Span, e: Entry<S>,
                                               sc: Scan<S, R>)
    requires c.Valid() && 1 <= m.ts && Shaped(c, windows) && Ascending(spans) && !Holds(w, m.ts)
    requires forall s :: s in spans ==> s in windows && s.start <= m.ts + 1
    requires w in sc.store.windows && sc.store.windows[w] == e && RightKnown(c, m.ts, spans, w, sc)
    ensures var r := ScanDown(c, a, m, expired, windows, spans, sc);
            w in r.store.windows && r.store.windows[w] == e
    decreases |spans|
  {
    hide ScanStep;
    if !sc.done && spans != [] {
      var n := |spans| - 1;
      var v, rest := spans[n], spans[..n];
      assert forall s :: s in rest ==> s in spans;
      assert v in spans;
      if w == Right(c, m.ts) && w in spans {
        LastAfter(spans, w);
        LastIsRight(c, m.ts, w, v);
      }
      LeavesOther(c, a, m, expired, w, e, v, windows[v], sc);
      ScanLeaves(c, a, m, expired, windows, rest, w, e, ScanStep(c, a, m, expired, v, windows[v], sc));
    }
  }

  lemma LastIsRight(c: Config, ts: int, w: Span, v: Span)
    requires c.Valid() && 1 <= ts && w == Right(c, ts) && v == Left(c, v.end) && v.start <= ts + 1
             && (w == v || Before(w, v))
    ensures w == v
  {
  }

  // ----- Deletion stays below the mark -----

  lemma {:induction false} DeletesBelow<M, S, R>(c: Config, a: Aggregator<M, S, R>, m: Message<M>, expired: int,
                                                 windows: map<Span, Entry<S>>, spans: seq<Span>, sc: Scan<S, R>)
    requires (forall s :: s in spans ==> s in windows) && sc.maxDeleted <= expired
    ensures ScanDown(c, a, m, expired, windows, spans, sc).maxDeleted <= expired
    decreases |spans|
  {
    if !sc.done && spans != [] {
      var n := |spans| - 1;
      assert forall s :: s in spans[..n] ==> s in spans;
      DeletesBelow(c, a, m, expired, windows, spans[..n], ScanStep(c, a, m, expired, spans[n], windows[spans[n]], sc));
    }
  }

  // ----- The message as a whole -----

  /**
   * The scan as a whole: every unexpired window gets its update, its emission if it is a left
   * window, and nothing else.
   */
  lemma FullScanKeeps<M, S, R>(c: Config, a: Aggregator<M, S, R>, m: Message<M>, st: Store<Entry<S>>, w: Span)
    requires c.Valid() && 1 <= m.ts && Shaped(c, st.windows)
    requires w in st.windows && w.start > ExpiredStart(c, Max(m.ts, st.latest))
    ensures
      var sc := FullScan(c, a, m, ExpiredStart(c, Max(m.ts, st.latest)), st);
      var e1 := Bumped(a, m, w, st.windows[w]);
      && w in sc.store.windows && sc.store.windows[w] == e1
      && (Holds(w, m.ts) && w.end == e1.maxTs ==> Emission(w, a.result(e1.agg)) in sc.updated)
      && sc.maxDeleted <= ExpiredStart(c, Max(m.ts, st.latest))
  {
    var expired := ExpiredStart(c, Max(m.ts, st.latest));
    var spans, start := Candidates(c, m.ts, st), ScanStart<S, R>(c, m.ts, expired, st);
    hide ScanStep, Candidates;
    DeletesBelow(c, a, m, expired, st.windows, spans, start);
    if Holds(w, m.ts) {
      ScanSettles(c, a, m, expired, st.windows, spans, w, start);
    } else {
      ScanLeaves(c, a, m, expired, st.windows, spans, w, st.windows[w], start);
    }
    hide ScanDown;
  }

  /**
   * Any message that is scanned, however far behind: every stored window that has not expired stays
   * the fold of exactly its messages, and if it is a left window that holds the message it is handed on.
   */
  lemma UnexpiredStayExact<M, S, R>(c: Config, a: Aggregator<M, S, R>, h: seq<Message<M>>, m: Message<M>,
                                    st: Store<Entry<S>>, w: Span)
    requires c.Valid() && 1 <= m.ts && Shaped(c, st.windows)
    requires var expired := ExpiredStart(c, Max(m.ts, st.latest));
             m.ts > expired && w in st.windows && w.start > expired && EntryOk(a, h, w, st.windows[w])
    ensures
      var out := Process(c, a, m, st);
      && w in out.store.windows && EntryOk(a, h + [m], w, out.store.windows[w])
      && (Holds(w, m.ts) && w.end in Times(h + [m]) ==> Emission(w, ValueOf(a, h + [m])(w)) in out.updated)
  {
    var expired := ExpiredStart(c, Max(m.ts, st.latest));
    var sc := FullScan(c, a, m, expired, st);
    FullScanKeeps(c, a, m, st, w);
    CleanupKeeps(sc.store, expired, sc.maxDeleted);
    if Holds(w, m.ts) {
      BumpOk(c, a, h, m, w, st.windows[w]);
    } else {
      KeepOk(a, h, m, w, st.windows[w]);
    }
    hide FullScan, ExpireWindows, DeleteWindows, LeftEmissions, FoldAll, Within;
    InReverse(sc.updated, Emission(w, a.result(sc.store.windows[w].agg)));
  }

  // ----- Whole runs, without any assumption on lateness -----

  lemma {:induction false} ScanLatest<M, S, R>(c: Config, a: Aggregator<M, S, R>, m: Message<M>, expired: int,
                                               windows: map<Span, Entry<S>>, spans: seq<Span>, sc: Scan<S, R>)
    requires forall s :: s in spans ==> s in windows
    ensures ScanDown(c, a, m, expired, windows, spans, sc).store.latest <= Max(m.ts, sc.store.latest)
    decreases |spans|
  {
    if !sc.done && spans != [] {
      var n := |spans| - 1;
      assert forall s :: s in spans[..n] ==> s in spans;
      ScanLatest(c, a, m, expired, windows, spans[..n], ScanStep(c, a, m, expired, spans[n], windows[spans[n]], sc));
    }
  }

  lemma ProcessLatest<M, S, R>(c: Config, a: Aggregator<M, S, R>, m: Message<M>, st: Store<Entry<S>>)
    ensures Process(c, a, m, st).store.latest <= Max(m.ts, st.latest)
  {
    var expired := ExpiredStart(c, Max(m.ts, st.latest));
    hide ScanDown, Candidates, DeleteWindows, ExpireWindows, LeftEmissions;
    ScanLatest(c, a, m, expired, st.windows, Candidates(c, m.ts, st), ScanStart(c, m.ts, expired, st));
    var sc := FullScan(c, a, m, expired, st);
    CleanupKeeps(sc.store, expired, sc.maxDeleted);
  }

  lemma {:induction false} StoreLatest<M, S, R>(c: Config, a: Aggregator<M, S, R>, msgs: seq<Message<M>>)
    ensures Run(c, a, msgs).store.latest <= Latest(msgs)
  {
    hide Process;
    if msgs != [] {
      var n := |msgs| - 1;
      assert msgs == msgs[..n] + [msgs[n]];
      StoreLatest(c, a, msgs[..n]);
      LatestSnoc(msgs[..n], msgs[n]);
      ProcessLatest(c, a, msgs[n], Run(c, a, msgs[..n]).store);
    }
  }

  /** The window is stored as the fold of exactly its messages. */
  ghost predicate StoredExact<M, S, R>(c: Config, a: Aggregator<M, S, R>, msgs: seq<Message<M>>, w: Span) {
    var windows := Run(c, a, msgs).store.windows;
    w in windows && EntryOk(a, msgs, w, windows[w])
  }

  lemma KeepsOne<M, S, R>(c: Config, a: Aggregator<M, S, R>, h: seq<Message<M>>, m: Message<M>, w: Span)
    requires c.Valid() && 1 <= m.ts && Shaped(c, Run(c, a, h).store.windows) && StoredExact(c, a, h, w)
    requires w.start > ExpiredStart(c, Latest(h + [m]))
    ensures StoredExact(c, a, h + [m], w)
  {
    hide Process, Latest, EntryOk, Shaped;
    var st := Run(c, a, h).store;
    assert (h + [m])[..|h|] == h;
    StoreLatest(c, a, h);
    LatestSnoc(h, m);
    if m.ts > ExpiredStart(c, Max(m.ts, st.latest)) {
      UnexpiredStayExact(c, a, h, m, st, w);
    } else {
      DroppedKeeps(c, a, m, st);
      KeepOk(a, h, m, w, st.windows[w]);
    }
  }

  lemma DroppedKeeps<M, S, R>(c: Config, a: Aggregator<M, S, R>, m: Message<M>, st: Store<Entry<S>>)
    requires m.ts <= ExpiredStart(c, Max(m.ts, st.latest))
    ensures Process(c, a, m, st).store == st
  {
  }

  /** Any run: a window that is exact at some point stays exact, whatever follows, until it expires. */
  lemma {:induction false} OnceExact<M, S, R>(c: Config, a: Aggregator<M, S, R>, h: seq<Message<M>>,
                                              more: seq<Message<M>>, w: Span)
    requires c.Valid() && (forall i :: 0 <= i < |h + more| ==> 1 <= (h + more)[i].ts)
    requires StoredExact(c, a, h, w) && w.start > ExpiredStart(c, Latest(h + more))
    ensures StoredExact(c, a, h + more, w)
    decreases |more|
  {
    hide StoredExact, Latest, Shaped;
    if more == [] {
      assert h + more == h;
    } else {
      var n := |more| - 1;
      var before, m := h + more[..n], more[n];
      assert before + [m] == h + more;
      assert forall i :: 0 <= i < |before| ==> before[i] == (h + more)[i];
      assert (h + more)[|before|] == m;
      LatestSnoc(before, m);
      OnceExact(c, a, h, more[..n], w);
      RunsShaped(c, a, before);
      KeepsOne(c, a, before, m, w);
    }
  }

  /** A scan that first meets a window ending before the message writes and emits the left window and stops. */
  lemma FirstEndsScan<M, S, R>(c: Config, a: Aggregator<M, S, R>, m: Message<M>, expired: int,
                               windows: map<Span, Entry<S>>, spans: seq<Span>, sc: Scan<S, R>)
    requires c.Valid() && !sc.done && spans != [] && forall s :: s in spans ==> s in windows
    requires var v := spans[|spans| - 1]; v.start <= v.end < m.ts
    ensures var r := ScanDown(c, a, m, expired, windows, spans, sc);
            && r.done && r.late == sc.late && Left(c, m.ts) in r.store.windows
            && r.updated != [] && r.updated[|r.updated| - 1].span == Left(c, m.ts)
  {
    var v := spans[|spans| - 1];
    var sc1 := ScanStep(c, a, m, expired, v, windows[v], sc);
    assert sc1.done && sc1.late == sc.late && Left(c, m.ts) in sc1.store.windows;
    assert sc1.updated[|sc1.updated| - 1].span == Left(c, m.ts);
    hide ScanStep;
  }

  /**
   * A message whose left window has expired, with a window ending before it first in the scan: the
   * expired left window is written and handed on all the same, and no window is reported as late.
   */
  lemma ExpiredLeftIsEmitted<M, S, R>(c: Config, a: Aggregator<M, S, R>, m: Message<M>, st: Store<Entry<S>>)
    requires c.Valid() && 1 <= m.ts && Shaped(c, st.windows)
    requires var expired := ExpiredStart(c, Max(m.ts, st.latest)); Left(c, m.ts).start <= expired < m.ts
    requires var spans := Candidates(c, m.ts, st); spans != [] && spans[|spans| - 1].end < m.ts
    ensures
      var sc := FullScan(c, a, m, ExpiredStart(c, Max(m.ts, st.latest)), st);
      && Left(c, m.ts) in sc.store.windows
      && (exists x :: x in Process(c, a, m, st).updated && x.span == Left(c, m.ts))
      && Process(c, a, m, st).late == []
  {
    hide LeftEmissions, ExpireWindows, DeleteWindows, Candidates;
    var expired := ExpiredStart(c, Max(m.ts, st.latest));
    var spans := Candidates(c, m.ts, st);
    assert spans[|spans| - 1] in spans;
    FirstEndsScan(c, a, m, expired, st.windows, spans, ScanStart(c, m.ts, expired, st));
    var sc := ScanDown(c, a, m, expired, st.windows, spans, ScanStart(c, m.ts, expired, st));
    assert FullScan(c, a, m, expired, st) == sc;
    hide FullScan, ScanDown;
    InReverse(sc.updated, sc.updated[|sc.updated| - 1]);
  }

  // ----- What becomes of an expired left window -----

  ghost predicate HandsOn<R>(updated: seq<Emission<R>>, w: Span) {
    exists x :: x in updated && x.span == w
  }

  ghost predicate EndsBefore(spans: seq<Span>, ts: int) {
    exists v :: v in spans && v.end < ts
  }

  /** A window ending after the message is met: nothing happens to the left window. */
  lemma MeetsLonger<M, S, R>(c: Config, a: Aggregator<M, S, R>, m: Message<M>, expired: int, v: Span, f: Entry<S>,
                             sc: Scan<S, R>)
    requires c.Valid() && v.end > m.ts && !sc.done
    ensures var sc1 := ScanStep(c, a, m, expired, v, f, sc);
            && !sc1.done && (HandsOn(sc1.updated, Left(c, m.ts)) ==> HandsOn(sc.updated, Left(c, m.ts)))
            && (Left(c, m.ts) in sc1.late ==> Left(c, m.ts) in sc.late)
  {
  }

  /** The expired left window itself is met: it is reported as late, and the scan stops. */
  lemma MeetsLeft<M, S, R>(c: Config, a: Aggregator<M, S, R>, m: Message<M>, expired: int, f: Entry<S>, sc: Scan<S, R>)
    requires c.Valid() && 1 <= m.ts && Left(c, m.ts).start <= expired && !sc.done
    ensures var sc1 := ScanStep(c, a, m, expired, Left(c, m.ts), f, sc);
            sc1.done && sc1.updated == sc.updated && sc1.late == sc.late + [Left(c, m.ts)]
  {
  }

  /** A window ending before the message is met: the left window is written and handed on, and the scan stops. */
  lemma MeetsShorter<M, S, R>(c: Config, a: Aggregator<M, S, R>, m: Message<M>, expired: int, v: Span, f: Entry<S>,
                              sc: Scan<S, R>)
    requires c.Valid() && v.start <= v.end < m.ts && !sc.done
    ensures var sc1 := ScanStep(c, a, m, expired, v, f, sc);
            && sc1.done && sc1.late == sc.late && Left(c, m.ts) in sc1.store.windows
            && sc1.updated != [] && sc1.updated[|sc1.updated| - 1].span == Left(c, m.ts)
  {
  }

  /** The left window comes after every window that ends before the message. */
  lemma LeftAfterShorter(c: Config, ts: int, v: Span)
    requires c.Valid() && 1 <= ts && v == Left(c, v.end) && v.end < ts
    ensures Before(v, Left(c, ts))
  {
  }

  lemma {:induction false} ScanExpiredLeft<M, S, R>(c: Config, a: Aggregator<M, S, R>, m: Message<M>, expired: int,
                                                    windows: map<Span, Entry<S>>, spans: seq<Span>, sc: Scan<S, R>)
    requires c.Valid() && 1 <= m.ts && Shaped(c, windows) && Ascending(spans)
    requires (forall s :: s in spans ==> s in windows) && Left(c, m.ts).start <= expired && !sc.done
    requires !HandsOn(sc.updated, Left(c, m.ts)) && Left(c, m.ts) !in sc.late
    ensures var r := ScanDown(c, a, m, expired, windows, spans, sc);
            && (HandsOn(r.updated, Left(c, m.ts)) <==> Left(c, m.ts) !in spans && EndsBefore(spans, m.ts))
            && (HandsOn(r.updated, Left(c, m.ts)) ==> Left(c, m.ts) in r.store.windows)
            && (Left(c, m.ts) in r.late <==> Left(c, m.ts) in spans)
    decreases |spans|
  {
    hide ScanStep, HandsOn;
    if spans != [] {
      var n := |spans| - 1;
      var v, rest, left := spans[n], spans[..n], Left(c, m.ts);
      assert spans == rest + [v];
      LastAfter(spans, v);
      var sc1 := ScanStep(c, a, m, expired, v, windows[v], sc);
      if v.end > m.ts {
        MeetsLonger(c, a, m, expired, v, windows[v], sc);
        ScanExpiredLeft(c, a, m, expired, windows, rest, sc1);
      } else if v.end == m.ts {
        MeetsLeft(c, a, m, expired, windows[v], sc);
      } else {
        MeetsShorter(c, a, m, expired, v, windows[v], sc);
        LeftAfterShorter(c, m.ts, v);
        if left in spans {
          LastAfter(spans, left);
        }
        LastHandsOn(sc1.updated, left);
      }
    }
  }

  lemma LastHandsOn<R>(updated: seq<Emission<R>>, w: Span)
    requires updated != [] && updated[|updated| - 1].span == w
    ensures HandsOn(updated, w)
  {
    assert updated[|updated| - 1] in updated;
  }

  lemma HandsOnReverse<R>(updated: seq<Emission<R>>, w: Span)
    ensures HandsOn(Reverse(updated), w) <==> HandsOn(updated, w)
  {
    if HandsOn(updated, w) {
      var x :| x in updated && x.span == w;
      InReverse(updated, x);
    }
    if HandsOn(Reverse(updated), w) {
      var i :| 0 <= i < |updated| && Reverse(updated)[i].span == w;
      assert updated[|updated| - 1 - i] in updated;
    }
  }

  /**
   * The exact condition for a scanned message whose left window has expired: if that window is
   * stored, it is reported as late and not handed on; if it is not, it is never reported, and it is
   * written and handed on if and only if some window in reach of the scan ends before the message.
   */
  lemma ExpiredLeftIff<M, S, R>(c: Config, a: Aggregator<M, S, R>, m: Message<M>, st: Store<Entry<S>>)
    requires c.Valid() && 1 <= m.ts && Shaped(c, st.windows)
    requires var expired := ExpiredStart(c, Max(m.ts, st.latest)); Left(c, m.ts).start <= expired < m.ts
    ensures
      var left, out := Left(c, m.ts), Process(c, a, m, st);
      && (left in out.late <==> left in st.windows)
      && (HandsOn(out.updated, left) <==>
            && left !in st.windows
            && exists v :: v in st.windows && Max(0, left.start - c.duration) <= v.start && v.end < m.ts)
      && (HandsOn(out.updated, left) ==>
            left in FullScan(c, a, m, ExpiredStart(c, Max(m.ts, st.latest)), st).store.windows)
  {
    hide LeftEmissions, ExpireWindows, DeleteWindows, ScanDown, HandsOn;
    var expired, left := ExpiredStart(c, Max(m.ts, st.latest)), Left(c, m.ts);
    var spans := Candidates(c, m.ts, st);
    NothingHandedOn<R>(left);
    ScanExpiredLeft(c, a, m, expired, st.windows, spans, ScanStart(c, m.ts, expired, st));
    HandsOnReverse(FullScan(c, a, m, expired, st).updated, left);
    assert left in st.windows <==> left in spans;
    forall v | v in st.windows && v.end < m.ts ensures v.start <= m.ts + 1 {
    }
  }

  lemma NothingHandedOn<R>(w: Span)
    ensures !HandsOn<R>([], w)
  {
  }

  // ----- What is reported as late -----

  /** The windows ordered by start are ordered by end. */
  lemma EndsOrdered(c: Config, v: Span, w: Span)
    requires c.Valid() && v == Left(c, v.end) && w == Left(c, w.end) && Before(v, w)
    ensures v.end < w.end
  {
  }

  /** Later windows first. */
  ghost predicate Descending(spans: seq<Span>) {
    forall i, j :: 0 <= i < j < |spans| ==> Before(spans[j], spans[i])
  }

  predicate IsOverdue(ts: int, expired: int, w: Span) { w.start <= expired && w.end >= ts }

  /** What one window met adds to the report, and whether the scan goes on. */
  lemma StepLate<M, S, R>(c: Config, a: Aggregator<M, S, R>, m: Message<M>, expired: int, v: Span, f: Entry<S>,
                          sc: Scan<S, R>)
    requires c.Valid() && expired < m.ts && v == Left(c, v.end) && !sc.done
    ensures var sc1 := ScanStep(c, a, m, expired, v, f, sc);
            && sc1.late == (if IsOverdue(m.ts, expired, v) then sc.late + [v] else sc.late)
            && (sc1.done <==> v.end <= m.ts && v.start != m.ts + 1)
  {
  }

  lemma {:induction false} ScanLate<M, S, R>(c: Config, a: Aggregator<M, S, R>, m: Message<M>, expired: int,
                                             windows: map<Span, Entry<S>>, spans: seq<Span>, sc: Scan<S, R>)
    requires c.Valid() && expired < m.ts && Shaped(c, windows) && Ascending(spans) && !sc.done
    requires forall s :: s in spans ==> s in windows
    requires Descending(sc.late) && forall x, s :: x in sc.late && s in spans ==> Before(s, x)
    ensures var r := ScanDown(c, a, m, expired, windows, spans, sc);
            && Descending(r.late)
            && forall w :: w in r.late <==> w in sc.late || (w in spans && IsOverdue(m.ts, expired, w))
    decreases |spans|
  {
    hide ScanStep;
    if spans != [] {
      var n := |spans| - 1;
      var v, rest := spans[n], spans[..n];
      assert spans == rest + [v];
      LastAfter(spans, v);
      var sc1 := ScanStep(c, a, m, expired, v, windows[v], sc);
      StepLate(c, a, m, expired, v, windows[v], sc);
      forall s | s in rest ensures Before(s, v) && s.end < v.end {
        LastAfter(spans, s);
        EndsOrdered(c, s, v);
      }
      if !sc1.done {
        ScanLate(c, a, m, expired, windows, rest, sc1);
      }
    }
  }

  /**
   * The late callback: a message that is scanned has it called for exactly the expired windows that
   * end at or after it and that the scan reaches, each once, later ones first; a message that is not
   * scanned, for its left window alone, and nothing else happens.
   */
  lemma LateIff<M, S, R>(c: Config, a: Aggregator<M, S, R>, m: Message<M>, st: Store<Entry<S>>)
    requires c.Valid() && Shaped(c, st.windows)
    ensures
      var expired, left, out := ExpiredStart(c, Max(m.ts, st.latest)), Left(c, m.ts), Process(c, a, m, st);
      && (m.ts > expired ==>
            && Descending(out.late)
            && forall w :: w in out.late <==>
                             && w in st.windows && w.start <= expired && w.end >= m.ts
                             && Max(0, left.start - c.duration) <= w.start)
      && (m.ts <= expired ==> out == Outcome(st, [], [], [left]))
  {
    hide LeftEmissions, ExpireWindows, DeleteWindows, ScanDown;
    var expired := ExpiredStart(c, Max(m.ts, st.latest));
    if m.ts > expired {
      ScanLate(c, a, m, expired, st.windows, Candidates(c, m.ts, st), ScanStart(c, m.ts, expired, st));
    }
  }
}
