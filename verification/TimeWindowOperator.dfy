/** The tumbling or hopping window as the object that updates the state of a key (windows/time_based.py). */
module TimeWindowOperator {
  import opened Wrappers
  import opened Aggregation
  import opened CountCollection
  import opened WindowStore
  import opened WindowState
  import opened WindowRanges
  import opened TimeWindow
  import opened TimeWindowRun

  class TimeWindows<!M, !S, R> {
    const c: Config
    const a: Aggregator<M, S, R>
    const aggregate: bool
    const collect: bool

    constructor (c: Config, a: Aggregator<M, S, R>, aggregate: bool, collect: bool)
      ensures this.c == c && this.a == a && this.aggregate == aggregate && this.collect == collect
    {
      this.c, this.a, this.aggregate, this.collect := c, a, aggregate, collect;
    }

    /** Without aggregators a window only marks its existence. */
    function Used(): Aggregator<M, S, R> { if aggregate then a else Idle(a) }

    /** Closes the windows due, in key order, each with what it collected, and deletes them. */
    method ExpireByKey(state: WindowedState<S, M>, maxExpiredStart: int)
      returns (expired: seq<Emission<R>>, collected: seq<seq<M>>)
      modifies state
      ensures state.Value() == ExpireWindows(old(state.Value()), maxExpiredStart, true)
      ensures state.Values()
              == TrimmedTo(true, collect, old(state.Values()), ExpiredSpans(old(state.Value()), maxExpiredStart))
      ensures expired == Emissions(Used(), old(state.windows), ExpiredSpans(old(state.Value()), maxExpiredStart))
      ensures collected == Lists(collect, old(state.values), 0, expired)
    {
      hide Emissions, Lists, ExpiredSpans, ExpireWindows, TrimmedTo, Details, Gathered, Used;
      ghost var spans, windows, values := ExpiredSpans(state.Value(), maxExpiredStart), state.windows, state.values;
      ReportedStored(state.Value(), maxExpiredStart);
      DetailsAt(windows, collect, values, 0, spans);
      ghost var used := Used();
      UsedResult();
      var details := state.Expire(maxExpiredStart, true, collect, false);
      ghost var store, col := state.Value(), state.Values();
      expired, collected := [], [];
      NothingOut(used, windows, collect, values);
      for i := 0 to |details|
        invariant spans[..i] <= spans && (forall s :: s in spans[..i] ==> s in windows)
                  && expired == Emissions(used, windows, spans[..i])
        invariant collected == Lists(collect, values, 0, expired) && state.Value() == store && state.Values() == col
      {
        EmissionsNext(used, windows, spans, i);
        var x := Emission(details[i].span, a.result(details[i].value));
        ListsSnoc(collect, values, 0, expired, x);
        expired := expired + [x];
        collected := collected + [details[i].collected];
      }
      assert spans[..|spans|] == spans;
    }

    lemma UsedResult()
      ensures Used().result == a.result
    {
    }

    /**
     * One message. The results are those of Process, which RunsFinal ties to the message history,
     * and the lists and the collection those of Gather, which RunsCollect ties to it.
     */
    method ProcessWindow(m: Message<M>, state: WindowedState<S, M>)
      returns (updated: seq<Emission<R>>, expired: seq<Emission<R>>, collected: seq<seq<M>>, late: seq<Span>)
      requires c.Valid()
      modifies state
      ensures
        var out := Process(c, Used(), m, old(state.Value()));
        && state.Value() == out.store && expired == out.expired && late == out.late
        && updated == if aggregate then out.updated else []
      ensures
        var col := if collect then Added(old(state.Values()), m.ts, m.value) else old(state.Values());
        collected == Lists(collect, col.values, 0, expired) && state.Values() == AfterClosing(collect, col, expired)
    {
      hide ExpireWindows, ExpiredSpans, Emissions, Lists, Trimmed;
      ghost var st := state.Value();
      var ranges := GetWindowRanges(m.ts, c.duration, c.step);
      var latest := Max(m.ts, state.latest);
      var maxExpiredEnd := latest - c.grace;
      var maxExpiredStart := maxExpiredEnd - c.duration;
      updated, late := [], [];
      ghost var all: seq<Emission<R>> := [];
      for i := 0 to |ranges|
        invariant Step(state.Value(), all, late) == UpdateAll(Used(), m, maxExpiredStart, ranges[..i], st)
        invariant updated == if aggregate then all else []
        invariant state.Values() == old(state.Values())
      {
        assert ranges[..i + 1][..i] == ranges[..i];
        var w := ranges[i];
        if w.start <= maxExpiredStart {
          late := late + [w];
          continue;
        }
        var aggregated := a.initial;
        if aggregate {
          var current := if w in state.windows then state.windows[w] else a.initial;
          aggregated := a.agg(current, m.value, m.ts);
          updated := updated + [Emission(w, a.result(aggregated))];
        }
        all := all + [Emission(w, a.result(aggregated))];
        state.Update(w, aggregated, m.ts);
      }
      assert ranges[..|ranges|] == ranges;
      if collect {
        state.AddToCollection(m.ts, m.value);
      }
      ghost var st1 := state.Value();
      expired, collected := ExpireByKey(state, maxExpiredStart);
      TrimmedByExpired(Used(), st1, maxExpiredStart, collect,
                       if collect then Added(old(state.Values()), m.ts, m.value) else old(state.Values()));
    }
  }

  lemma NothingOut<M, S, R>(a: Aggregator<M, S, R>, windows: map<Span, S>, collect: bool, values: map<Span, M>)
    ensures Emissions(a, windows, []) == [] && Lists<M, R>(collect, values, 0, []) == []
  {
  }

  lemma EmissionsNext<M, S, R>(a: Aggregator<M, S, R>, windows: map<Span, S>, spans: seq<Span>, i: nat)
    requires i < |spans| && forall s :: s in spans ==> s in windows
    ensures spans[i] in windows && forall s :: s in spans[..i + 1] ==> s in windows
    ensures Emissions(a, windows, spans[..i + 1])
            == Emissions(a, windows, spans[..i]) + [Emission(spans[i], a.result(windows[spans[i]]))]
  {
    assert spans[..i + 1][..i] == spans[..i];
    assert spans[i] in spans;
  }

  lemma TrimmedByExpired<M, S, R>(a: Aggregator<M, S, R>, st: Store<S>, closed: int, collect: bool, col: Collection<M>)
    ensures TrimmedTo(true, collect, col, ExpiredSpans(st, closed))
         == AfterClosing(collect, col, Emissions(a, st.windows, ExpiredSpans(st, closed)))
  {
    hide Trimmed;
    EmissionsExact(a, st.windows, ExpiredSpans(st, closed));
  }
}
