/** Collecting sliding windows over whole runs: what each left window that expires has collected. */
module SlidingCollect {
  import opened Wrappers
  import opened Aggregation
  import opened WindowStore
  import opened WindowState
  import opened CountCollection
  import opened Gathering
  import opened Sliding
  import opened SlidingRun
  import opened SlidingPast
  import opened SlidingLefts
  import opened SlidingLoss

  /** A run of a collecting window beside Run, whose expired windows it follows; a dropped message is not collected. */
  function Gather<M, S, R>(c: Config, a: Aggregator<M, S, R>, msgs: seq<Message<M>>): Gathers<M> {
    if msgs == [] then Gathers(NoValues(), [])
    else
      var h, m := msgs[..|msgs| - 1], msgs[|msgs| - 1];
      var g, st := Gather(c, a, h), Run(c, a, h).store;
      if m.ts <= ExpiredStart(c, Max(m.ts, st.latest)) then g
      else
        var col := Added(g.col, m.ts, m.value);
        Gathers(Trimmed(col, DeletedStart(c, a, m, st)),
                g.lists + Lists(true, col.values, 1, Process(c, a, m, st).expired))
  }

  /** Each window that came out collected exactly the messages inside it, both ends included. */
  ghost predicate ListsExact<M, R>(h: seq<Message<M>>, out: seq<Emission<R>>, lists: seq<seq<M>>) {
    |lists| == |out|
    && forall i :: 0 <= i < |out| ==> lists[i] == InTimeOrder(h, out[i].span.start, out[i].span.end + 1)
  }

  lemma DeletesUpToMark<M, S, R>(c: Config, a: Aggregator<M, S, R>, m: Message<M>, st: Store<Entry<S>>)
    requires c.Valid()
    ensures DeletedStart(c, a, m, st) <= ExpiredStart(c, Max(m.ts, st.latest))
  {
    var expired := ExpiredStart(c, Max(m.ts, st.latest));
    hide ScanDown, Candidates;
    DeletesBelow(c, a, m, expired, st.windows, Candidates(c, m.ts, st), ScanStart<S, R>(c, m.ts, expired, st));
  }

  /** What the scan of one message brings out has been collected in full, although values have been dropped. */
  lemma NewLists<M, R>(c: Config, h: seq<Message<M>>, low: int, high: int, times: set<int>, col: Collection<M>,
                       out: seq<Emission<R>>)
    requires Kept(h, low, col) && LeftSpans(c, times, low, high, out)
    ensures ListsExact(h, out, Lists(true, col.values, 1, out))
  {
    hide Kept, InTimeOrder, Collected, HandsOn;
    ListsAt(true, col.values, 1, out);
    forall i | 0 <= i < |out|
      ensures Lists(true, col.values, 1, out)[i] == InTimeOrder(h, out[i].span.start, out[i].span.end + 1)
    {
      assert out[i] in out;
      CollectedBetween(h, low, col, out[i].span.start, out[i].span.end + 1);
    }
  }

  /** What came out before lies behind the grace period, and so behind the message. */
  lemma StaysExact<M, R>(c: Config, h: seq<Message<M>>, m: Message<M>, times: set<int>, low: int, latest: int,
                         out: seq<Emission<R>>, lists: seq<seq<M>>)
    requires c.Valid() && ListsExact(h, out, lists) && LeftSpans(c, times, low, ExpiredStart(c, latest), out)
    requires m.ts >= latest - c.grace
    ensures ListsExact(h + [m], out, lists)
  {
    hide InTimeOrder, HandsOn;
    forall i | 0 <= i < |out| ensures lists[i] == InTimeOrder(h + [m], out[i].span.start, out[i].span.end + 1) {
      assert out[i] in out;
      InTimeOrderOutside(h, m, out[i].span.start, out[i].span.end + 1);
    }
  }

  lemma JoinLists<M, R>(h: seq<Message<M>>, out: seq<Emission<R>>, lists: seq<seq<M>>, out1: seq<Emission<R>>,
                        lists1: seq<seq<M>>)
    requires ListsExact(h, out, lists) && ListsExact(h, out1, lists1)
    ensures ListsExact(h, out + out1, lists + lists1)
  {
    hide InTimeOrder;
  }

  /**
   * The left windows at or below the mark came out, each exactly once and in order, and each
   * collected exactly the values of the messages inside it over the complete history.
   */
  ghost predicate CollectsExact<M, R>(c: Config, msgs: seq<Message<M>>, out: seq<Emission<R>>, lists: seq<seq<M>>) {
    && LeftSpans(c, Times(msgs), ExpiredStart(c, 0), ExpiredStart(c, Latest(msgs)), out)
    && ListsExact(msgs, out, lists)
  }

  /**
   * Whole runs of collecting windows: while messages are at most the grace period behind, every run
   * collects exactly, by timestamp and then in arrival order. Values are dropped along the way, and
   * the aggregates of the same run may be wrong.
   */
  lemma {:induction false} RunsCollect<M, S, R>(c: Config, a: Aggregator<M, S, R>, msgs: seq<Message<M>>)
    requires c.Valid() && LateBy(1, c.grace, msgs)
    ensures CollectsExact(c, msgs, Run(c, a, msgs).expired, Gather(c, a, msgs).lists)
    ensures Kept(msgs, ExpiredStart(c, Latest(msgs)), Gather(c, a, msgs).col)
  {
    hide LeftsOk, LeftSpans, Latest, Times, ListsExact, Kept, Run, Gather, ExpiredStart;
    RunsLefts(c, a, msgs);
    if msgs == [] {
      CollectNone(c, a, msgs);
    } else {
      var n := |msgs| - 1;
      var h, m := msgs[..n], msgs[n];
      assert h + [m] == msgs;
      FewerLate(c, msgs);
      RunsCollect(c, a, h);
      RunsLefts(c, a, h);
      CollectStep(c, a, h, m);
    }
  }

  lemma CollectStep<M, S, R>(c: Config, a: Aggregator<M, S, R>, h: seq<Message<M>>, m: Message<M>)
    requires c.Valid() && LeftsOk(c, h, Run(c, a, h).store) && 1 <= m.ts && m.ts >= Latest(h) - c.grace
    requires CollectsExact(c, h, Run(c, a, h).expired, Gather(c, a, h).lists)
             && Kept(h, ExpiredStart(c, Latest(h)), Gather(c, a, h).col)
    ensures ListsExact(h + [m], Run(c, a, h + [m]).expired, Gather(c, a, h + [m]).lists)
    ensures Kept(h + [m], ExpiredStart(c, Latest(h + [m])), Gather(c, a, h + [m]).col)
  {
    hide *;
    var msgs, r, g := h + [m], Run(c, a, h), Gather(c, a, h);
    var low, high, col := ExpiredStart(c, Latest(h)), ExpiredStart(c, Latest(msgs)), Added(g.col, m.ts, m.value);
    var out := Process(c, a, m, r.store).expired;
    LatestIs(c, h, r.store);
    MarkMoves(c, a, h, m, r);
    GatherSnoc(c, a, h, m);
    ProcessLefts(c, a, h, m, r.store);
    KeptAdded(h, low, g.col, m);
    NewLists(c, msgs, low, high, Times(msgs), col, out);
    Parts(c, h, r.expired, g.lists);
    StaysExact(c, h, m, Times(h), ExpiredStart(c, 0), Latest(h), r.expired, g.lists);
    JoinLists(msgs, r.expired, g.lists, out, Lists(true, col.values, 1, out));
    DeletesUpToMark(c, a, m, r.store);
    KeptTrimmed(msgs, low, col, DeletedStart(c, a, m, r.store), high);
  }

  lemma Parts<M, R>(c: Config, msgs: seq<Message<M>>, out: seq<Emission<R>>, lists: seq<seq<M>>)
    requires CollectsExact(c, msgs, out, lists)
    ensures LeftSpans(c, Times(msgs), ExpiredStart(c, 0), ExpiredStart(c, Latest(msgs)), out)
    ensures ListsExact(msgs, out, lists)
  {
  }

  /** A message within the grace period is scanned, and only moves the mark up. */
  lemma MarkMoves<M, S, R>(c: Config, a: Aggregator<M, S, R>, h: seq<Message<M>>, m: Message<M>, r: RunState<S, R>)
    requires c.Valid() && m.ts >= Latest(h) - c.grace && r.store.latest == Latest(h)
    ensures m.ts > ExpiredStart(c, Latest(h + [m])) && r.store.latest - c.grace <= m.ts
    ensures ExpiredStart(c, Max(m.ts, r.store.latest)) == ExpiredStart(c, Latest(h + [m])) >= ExpiredStart(c, Latest(h))
  {
    hide Latest;
    LatestSnoc(h, m);
  }

  lemma GatherSnoc<M, S, R>(c: Config, a: Aggregator<M, S, R>, h: seq<Message<M>>, m: Message<M>)
    requires var st := Run(c, a, h).store; m.ts > ExpiredStart(c, Max(m.ts, st.latest))
    ensures
      var g, r, col := Gather(c, a, h), Run(c, a, h), Added(Gather(c, a, h).col, m.ts, m.value);
      && Run(c, a, h + [m]).expired == r.expired + Process(c, a, m, r.store).expired
      && Gather(c, a, h + [m]).col == Trimmed(col, DeletedStart(c, a, m, r.store))
      && Gather(c, a, h + [m]).lists == g.lists + Lists(true, col.values, 1, Process(c, a, m, r.store).expired)
  {
    hide Process, Trimmed, Lists, DeletedStart;
    assert (h + [m])[..|h|] == h;
  }

  lemma CollectNone<M, S, R>(c: Config, a: Aggregator<M, S, R>, none: seq<Message<M>>)
    requires none == []
    ensures ListsExact(none, Run(c, a, none).expired, Gather(c, a, none).lists)
    ensures Kept(none, ExpiredStart(c, Latest(none)), Gather(c, a, none).col)
  {
  }

  /**
   * The exact condition: with messages at most lateness behind, every run of collecting windows is
   * exact if and only if the grace period covers the lateness.
   */
  lemma CollectCondition(c: Config, lateness: int)
    requires c.Valid() && 0 <= lateness
    ensures lateness <= c.grace
       <==> forall msgs: seq<Message<int>> :: LateBy(1, lateness, msgs) ==>
              CollectsExact(c, msgs, Run(c, Counter(), msgs).expired, Gather(c, Counter(), msgs).lists)
  {
    hide CollectsExact, Run, Gather, LateBy, TooLateRun;
    if lateness <= c.grace {
      forall msgs: seq<Message<int>> | LateBy(1, lateness, msgs)
        ensures CollectsExact(c, msgs, Run(c, Counter(), msgs).expired, Gather(c, Counter(), msgs).lists)
      {
        LaterStill(lateness, c.grace, msgs);
        RunsCollect(c, Counter(), msgs);
      }
    } else {
      var p := c.duration + 1;
      TooLateLoses(c, lateness, p);
      TooLateExpires(c, p);
      TooLateTimes(c, p);
      NeverCollected(c, TooLateRun(c, p), Gather(c, Counter(), TooLateRun(c, p)).lists, p);
    }
  }

  lemma LaterStill<M>(lateness: int, more: int, msgs: seq<Message<M>>)
    requires LateBy(1, lateness, msgs) && lateness <= more
    ensures LateBy(1, more, msgs)
  {
    hide Latest;
  }

  /** The too late message's window should have come out, and nothing did. */
  lemma NeverCollected(c: Config, msgs: seq<Message<int>>, lists: seq<seq<int>>, p: int)
    requires p in Times(msgs) && ExpiredStart(c, 0) < Left(c, p).start <= ExpiredStart(c, Latest(msgs))
    ensures !CollectsExact<int, int>(c, msgs, [], lists)
  {
    hide Times, Latest;
  }

  // ----- What the collection still holds -----

  /** The bound up to which windows, and values, are deleted after each message. */
  function Bounds<M, S, R>(c: Config, a: Aggregator<M, S, R>, msgs: seq<Message<M>>): seq<int> {
    if msgs == [] then []
    else
      var h := msgs[..|msgs| - 1];
      Bounds(c, a, h) + [DeletedStart(c, a, msgs[|msgs| - 1], Run(c, a, h).store)]
  }

  /** The largest id deleted before each message. */
  function Passed<M, S, R>(c: Config, a: Aggregator<M, S, R>, msgs: seq<Message<M>>): seq<int> {
    if msgs == [] then []
    else Passed(c, a, msgs[..|msgs| - 1]) + [Gather(c, a, msgs[..|msgs| - 1]).col.lastDeleted]
  }

  /**
   * Within the grace period, a value is still stored if and only if no deletion since its arrival
   * reached past it, or the deletion index had passed it when it arrived: then it stays for good.
   */
  lemma {:induction false} RunsStored<M, S, R>(c: Config, a: Aggregator<M, S, R>, msgs: seq<Message<M>>)
    requires c.Valid() && LateBy(1, c.grace, msgs)
    ensures StoredExactly(msgs, Passed(c, a, msgs), Bounds(c, a, msgs), Gather(c, a, msgs).col)
    ensures Gather(c, a, msgs).col.lastDeleted >= -1
  {
    hide StoredExactly, Added, Trimmed, Lists, Run, Gather, Latest, Process, DeletedStart, LeftsOk, LeftSpans;
    if msgs == [] {
      NothingStored(c, a, msgs);
    } else {
      var n := |msgs| - 1;
      var h, m := msgs[..n], msgs[n];
      assert h + [m] == msgs;
      FewerLate(c, msgs);
      RunsStored(c, a, h);
      RunsLefts(c, a, h);
      LatestIs(c, h, Run(c, a, h).store);
      MarkMoves(c, a, h, m, Run(c, a, h));
      GatherSnoc(c, a, h, m);
      StoredStep(h, m, Passed(c, a, h), Bounds(c, a, h), Gather(c, a, h).col,
                 DeletedStart(c, a, m, Run(c, a, h).store));
    }
  }

  lemma NothingStored<M, S, R>(c: Config, a: Aggregator<M, S, R>, none: seq<Message<M>>)
    requires none == []
    ensures StoredExactly(none, [], [], Gather(c, a, none).col) && Gather(c, a, none).col.lastDeleted == -1
  {
  }
}
