/** The sliding window as the object that updates the state of a key (windows/sliding.py). */
module SlidingOperator {
  import opened Wrappers
  import opened Aggregation
  import opened CountCollection
  import opened WindowStore
  import opened WindowState
  import opened Sliding

  class SlidingWindow<!M, !S, R> {
    const c: Config
    /** The idle one if there is none. */
    const a: Aggregator<M, S, R>
    const collect: bool

    constructor (c: Config, a: Aggregator<M, S, R>, collect: bool)
      ensures this.c == c && this.a == a && this.collect == collect
    {
      this.c, this.a, this.collect := c, a, collect;
    }

    method UpdateWindow(state: WindowedState<Entry<S>, M>, w: Span, e: Entry<S>, ts: int) returns (x: Emission<R>)
      modifies state
      ensures state.Value() == WindowStore.UpdateWindow(old(state.Value()), w, e, ts)
              && state.Values() == old(state.Values())
      ensures x == Emission(w, a.result(e.agg))
    {
      state.Update(w, e, ts);
      x := Emission(w, a.result(e.agg));
    }

    /** The loop body: what one window met by the scan causes. */
    method ScanWindow(m: Message<M>, state: WindowedState<Entry<S>, M>, maxExpiredStart: int, w: Span, e: Entry<S>,
                      sc: Scan<S, R>)
      returns (starts: set<int>, rightExists: bool, updated: seq<Emission<R>>, late: seq<Span>, maxDeletedStart: int,
               settled: bool)
      requires state.Value() == sc.store
      modifies state
      ensures Scan(state.Value(), starts, rightExists, updated, late, maxDeletedStart, settled)
           == ScanStep(c, a, m, maxExpiredStart, w, e, sc)
      ensures state.Values() == old(state.Values())
    {
      rightExists, updated, late, maxDeletedStart, settled := sc.rightExists, sc.updated, sc.late, sc.maxDeleted,
          sc.done;
      starts := sc.starts + {w.start};
      if w.start == m.ts + 1 {
        rightExists := true;
      } else if w.end > m.ts {
        if !rightExists && e.maxTs > m.ts {
          var _ := UpdateWindow(state, Right(c, m.ts), e, m.ts);
          rightExists := true;
        }
        if w.start > maxExpiredStart {
          var maxTs := Max(m.ts, e.maxTs);
          var x := UpdateWindow(state, w, Entry(maxTs, a.agg(e.agg, m.value, m.ts)), m.ts);
          if w.end == maxTs {
            updated := updated + [x];
          }
        } else {
          late := late + [w];
        }
        assert Scan(state.Value(), starts, rightExists, updated, late, maxDeletedStart, settled)
            == ScanOverlapping(c, a, m, maxExpiredStart, w, e, sc.(starts := starts));
      } else if w.end == m.ts {
        if e.maxTs + 1 !in starts && e.maxTs < m.ts {
          var _ := UpdateWindow(state, Right(c, e.maxTs), Entry(m.ts, a.agg(a.initial, m.value, m.ts)), m.ts);
        }
        if w.start > maxExpiredStart {
          var x := UpdateWindow(state, w, Entry(m.ts, a.agg(e.agg, m.value, m.ts)), m.ts);
          updated := updated + [x];
        } else {
          late := late + [w];
        }
        settled := true;
        assert Scan(state.Value(), starts, rightExists, updated, late, maxDeletedStart, settled)
            == ScanLeft(c, a, m, maxExpiredStart, w, e, sc.(starts := starts));
      } else {
        if e.maxTs + 1 !in starts && e.maxTs + 1 + c.duration >= m.ts {
          var _ := UpdateWindow(state, Right(c, e.maxTs), Entry(m.ts, a.agg(a.initial, m.value, m.ts)), m.ts);
        }
        var left := Left(c, m.ts);
        var agg := if left.start > e.maxTs then a.initial else e.agg;
        var x := UpdateWindow(state, left, Entry(m.ts, a.agg(agg, m.value, m.ts)), m.ts);
        updated := updated + [x];
        maxDeletedStart := Min(w.start - 1, maxExpiredStart);
        settled := true;
        assert Scan(state.Value(), starts, rightExists, updated, late, maxDeletedStart, settled)
            == ScanBase(c, a, m, maxExpiredStart, w, e, sc.(starts := starts));
      }
      hide ScanOverlapping, ScanLeft, ScanBase;
    }

    /**
     * One message. The new state and the results are those of Process, which RunsExact ties to the
     * message history, the lists and the collection those of Gather, which RunsCollect ties to it;
     * late lists the windows reported to the late-message callback.
     */
    method ProcessWindow(m: Message<M>, state: WindowedState<Entry<S>, M>)
      returns (updated: seq<Emission<R>>, expired: seq<Emission<R>>, collected: seq<seq<M>>, late: seq<Span>)
      modifies state
      ensures Outcome(state.Value(), updated, expired, late) == Process(c, a, m, old(state.Value()))
      ensures
        var st, col := old(state.Value()), old(state.Values());
        if m.ts <= ExpiredStart(c, Max(m.ts, st.latest)) then collected == [] && state.Values() == col
        else if collect then
          && collected == Lists(true, Added(col, m.ts, m.value).values, 1, expired)
          && state.Values() == Trimmed(Added(col, m.ts, m.value), DeletedStart(c, a, m, st))
        else collected == Lists(false, col.values, 1, expired) && state.Values() == col
    {
      hide Lists, Trimmed, FullScan, DeleteWindows, ExpireWindows, LeftEmissions, ExpiredSpans;
      var latest := Max(m.ts, state.latest);
      var maxExpiredEnd := latest - c.grace - 1;
      var maxExpiredStart := maxExpiredEnd - c.duration;
      updated, expired, collected, late := [], [], [], [];
      if m.ts <= maxExpiredStart {
        late := [Left(c, m.ts)];
        return;
      }
      var maxDeletedStart;
      updated, late, maxDeletedStart := ScanWindows(m, state, maxExpiredStart);
      if collect {
        state.AddToCollection(m.ts, m.value);
      }
      expired, collected := ExpiredWindows(state, maxExpiredStart);
      state.Delete(maxDeletedStart, collect);
      updated := Reverse(updated);
    }

    /** The backward loop over the stored windows, and the left window if nothing settled it. */
    method ScanWindows(m: Message<M>, state: WindowedState<Entry<S>, M>, maxExpiredStart: int)
      returns (updated: seq<Emission<R>>, late: seq<Span>, maxDeletedStart: int)
      modifies state
      ensures
        var sc := FullScan(c, a, m, maxExpiredStart, old(state.Value()));
        state.Value() == sc.store && updated == sc.updated && late == sc.late && maxDeletedStart == sc.maxDeleted
      ensures state.Values() == old(state.Values())
    {
      hide ScanStep, GetWindows, ScanDown;
      ghost var st := state.Value();
      updated, late, maxDeletedStart := [], [], maxExpiredStart - c.duration;
      var left := Left(c, m.ts);
      var rightExists, starts, settled := false, {left.start}, false;
      var windows, spans := state.windows, Candidates(c, m.ts, state.Value());
      ghost var start := ScanStart<S, R>(c, m.ts, maxExpiredStart, st);
      ghost var final := ScanDown(c, a, m, maxExpiredStart, windows, spans, start);
      var i := |spans|;
      assert spans[..i] == spans;
      while i > 0 && !settled
        invariant 0 <= i <= |spans|
        invariant state.Values() == old(state.Values())
        invariant forall s :: s in spans ==> s in windows
        invariant ScanDown(c, a, m, maxExpiredStart, windows, spans[..i],
                           Scan(state.Value(), starts, rightExists, updated, late, maxDeletedStart, settled)) == final
      {
        i := i - 1;
        var sc := Scan(state.Value(), starts, rightExists, updated, late, maxDeletedStart, settled);
        ScanDownNext(c, a, m, maxExpiredStart, windows, spans, i, sc);
        starts, rightExists, updated, late, maxDeletedStart, settled :=
          ScanWindow(m, state, maxExpiredStart, spans[i], windows[spans[i]], sc);
      }
      ScanDownEnd(c, a, m, maxExpiredStart, windows, spans[..i],
                  Scan(state.Value(), starts, rightExists, updated, late, maxDeletedStart, settled));
      if !settled && left.start > maxExpiredStart {
        var x := UpdateWindow(state, left, Entry(m.ts, a.agg(a.initial, m.value, m.ts)), m.ts);
        updated := updated + [x];
      }
    }

    /**
     * Marks the windows up to the bound as expired and keeps the left windows among them, each with
     * what it collected.
     */
    method ExpiredWindows(state: WindowedState<Entry<S>, M>, maxExpiredStart: int)
      returns (expired: seq<Emission<R>>, collected: seq<seq<M>>)
      modifies state
      ensures state.Value() == ExpireWindows(old(state.Value()), maxExpiredStart, false)
              && state.Values() == old(state.Values())
      ensures expired == LeftEmissions(a, old(state.windows), ExpiredSpans(old(state.Value()), maxExpiredStart))
      ensures collected == Lists(collect, old(state.values), 1, expired)
    {
      hide LeftEmissions, Lists, ExpiredSpans, ExpireWindows, TrimmedTo, Details, Gathered;
      ghost var spans, windows, values := ExpiredSpans(state.Value(), maxExpiredStart), state.windows, state.values;
      ReportedStored(state.Value(), maxExpiredStart);
      DetailsAt(windows, collect, values, 1, spans);
      NeverTrimmed(collect, state.Values(), spans);
      var details := state.Expire(maxExpiredStart, false, collect, true);
      ghost var store, col := state.Value(), state.Values();
      expired, collected := [], [];
      NothingOut(a, windows, collect, values);
      for i := 0 to |details|
        invariant spans[..i] <= spans && (forall s :: s in spans[..i] ==> s in windows)
                  && expired == LeftEmissions(a, windows, spans[..i])
        invariant collected == Lists(collect, values, 1, expired) && state.Value() == store && state.Values() == col
      {
        LeftEmissionsNext(a, windows, spans, i);
        var d := details[i];
        if d.span.end == d.value.maxTs {
          var x := Emission(d.span, a.result(d.value.agg));
          ListsSnoc(collect, values, 1, expired, x);
          expired := expired + [x];
          collected := collected + [d.collected];
        }
      }
      assert spans[..|spans|] == spans;
    }
  }

  lemma ScanDownNext<M, S, R>(c: Config, a: Aggregator<M, S, R>, m: Message<M>, expired: int,
                              windows: map<Span, Entry<S>>, spans: seq<Span>, i: nat, sc: Scan<S, R>)
    requires !sc.done && i < |spans| && forall s :: s in spans ==> s in windows
    ensures spans[i] in windows
    ensures ScanDown(c, a, m, expired, windows, spans[..i + 1], sc)
         == ScanDown(c, a, m, expired, windows, spans[..i], ScanStep(c, a, m, expired, spans[i], windows[spans[i]], sc))
  {
    hide ScanStep;
    assert spans[..i + 1][..i] == spans[..i];
    assert spans[i] in spans;
  }

  lemma ScanDownEnd<M, S, R>(c: Config, a: Aggregator<M, S, R>, m: Message<M>, expired: int,
                             windows: map<Span, Entry<S>>, spans: seq<Span>, sc: Scan<S, R>)
    requires (sc.done || spans == []) && forall s :: s in spans ==> s in windows
    ensures ScanDown(c, a, m, expired, windows, spans, sc) == sc
  {
  }

  lemma NothingOut<M, S, R>(a: Aggregator<M, S, R>, windows: map<Span, Entry<S>>, collect: bool, values: map<Span, M>)
    ensures LeftEmissions(a, windows, []) == [] && Lists<M, R>(collect, values, 1, []) == []
  {
  }

  lemma NeverTrimmed<M>(collect: bool, col: Collection<M>, spans: seq<Span>)
    ensures TrimmedTo(false, collect, col, spans) == col
  {
  }

  lemma LeftEmissionsNext<M, S, R>(a: Aggregator<M, S, R>, windows: map<Span, Entry<S>>, spans: seq<Span>, i: nat)
    requires i < |spans| && forall s :: s in spans ==> s in windows
    ensures spans[i] in windows && forall s :: s in spans[..i + 1] ==> s in windows
    ensures
      var w := spans[i];
      LeftEmissions(a, windows, spans[..i + 1])
      == LeftEmissions(a, windows, spans[..i])
         + if w.end == windows[w].maxTs then [Emission(w, a.result(windows[w].agg))] else []
  {
    assert spans[..i + 1][..i] == spans[..i];
    assert spans[i] in spans;
  }
}
