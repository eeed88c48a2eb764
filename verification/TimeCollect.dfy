/** Collecting tumbling and hopping windows over whole runs: what each window that closes has collected. */
module TimeCollect {
  import opened Wrappers
  import opened Aggregation
  import opened WindowStore
  import opened WindowState
  import opened CountCollection
  import opened Gathering
  import opened TimeWindow
  import opened TimeWindowRun
  import opened TimeWindowFinal

  /** A run of a collecting window beside Run, whose closed windows it follows. */
  function Gather<M, S, R>(c: Config, a: Aggregator<M, S, R>, msgs: seq<Message<M>>): Gathers<M>
    requires c.step > 0
  {
    if msgs == [] then Gathers(NoValues(), [])
    else
      var h, m := msgs[..|msgs| - 1], msgs[|msgs| - 1];
      var g := Gather(c, a, h);
      var out := Process(c, a, m, Run(c, a, h).store);
      var col := Added(g.col, m.ts, m.value);
      Gathers(AfterClosing(true, col, out.expired), g.lists + Lists(true, col.values, 0, out.expired))
  }

  /** Message i falls into the window, which is still open when it arrives. */
  predicate TakenAt<M>(c: Config, h: seq<Message<M>>, w: Span, i: int)
    requires 0 <= i < |h|
  {
    w.start <= h[i].ts < w.end && w.start > ClosedStart(c, Latest(h[..i + 1]))
  }

  function TakenKeys<M>(c: Config, h: seq<Message<M>>, w: Span): set<Span> {
    set i | 0 <= i < |h| && TakenAt(c, h, w, i) :: Span(h[i].ts, i)
  }

  /** The values of the messages a window took in, by timestamp and then in arrival order. */
  function Taken<M>(c: Config, h: seq<Message<M>>, w: Span): seq<M> {
    ValuesAt(h, Sorted(TakenKeys(c, h, w)))
  }

  lemma TakenPrefix<M>(c: Config, h: seq<Message<M>>, m: Message<M>, w: Span, i: int)
    requires 0 <= i < |h|
    ensures (h + [m])[i] == h[i] && TakenAt(c, h + [m], w, i) == TakenAt(c, h, w, i)
  {
    assert (h + [m])[..i + 1] == h[..i + 1];
  }

  lemma TakenLast<M>(c: Config, h: seq<Message<M>>, m: Message<M>, w: Span)
    ensures TakenAt(c, h + [m], w, |h|) <==> w.start <= m.ts < w.end && w.start > ClosedStart(c, Max(Latest(h), m.ts))
  {
    assert (h + [m])[..|h| + 1] == h + [m];
    LatestSnoc(h, m);
  }

  lemma TakenSnoc<M>(c: Config, h: seq<Message<M>>, m: Message<M>, w: Span)
    ensures TakenKeys(c, h + [m], w)
         == TakenKeys(c, h, w) +
         if w.start <= m.ts < w.end && w.start > ClosedStart(c, Max(Latest(h), m.ts)) then {Span(m.ts, |h|)} else {}
  {
    hide TakenAt, Latest, ClosedStart;
    var h1 := h + [m];
    TakenLast(c, h, m, w);
    assert h1[|h|] == m;
    forall i | 0 <= i < |h| ensures h1[i] == h[i] && TakenAt(c, h1, w, i) == TakenAt(c, h, w, i) {
      TakenPrefix(c, h, m, w, i);
    }
    forall s ensures s in TakenKeys(c, h1, w)
        <==> s in TakenKeys(c, h, w) || (TakenAt(c, h1, w, |h|) && s == Span(m.ts, |h|)) {
      if s in TakenKeys(c, h, w) {
        assert TakenAt(c, h1, w, s.end);
      }
    }
  }
  /** A window that has closed takes in nothing more. */
  lemma ClosedTaken<M>(c: Config, h: seq<Message<M>>, m: Message<M>, w: Span)
    requires w.start <= ClosedStart(c, Latest(h))
    ensures Taken(c, h + [m], w) == Taken(c, h, w)
  {
    hide TakenKeys, Sorted, Latest;
    TakenSnoc(c, h, m, w);
    assert TakenKeys(c, h + [m], w) == TakenKeys(c, h, w);
    TakenInside(c, h, w);
    ValuesAtLonger(h, m, Sorted(TakenKeys(c, h, w)));
  }

  lemma TakenInside<M>(c: Config, h: seq<Message<M>>, w: Span)
    ensures forall s :: s in TakenKeys(c, h, w) ==> 0 <= s.end < |h|
  {
  }

  /** A window that is still open has taken in every message of its range. */
  lemma {:induction false} OpenTaken<M>(c: Config, h: seq<Message<M>>, w: Span)
    requires w.start > ClosedStart(c, Latest(h))
    ensures TakenKeys(c, h, w) == KeysBetween(h, w.start, w.end)
  {
    hide TakenKeys, KeysBetween, Latest, TakenAt;
    if h == [] {
      NothingTaken(c, h, w);
    } else {
      var rest, m := h[..|h| - 1], h[|h| - 1];
      assert h == rest + [m];
      LatestSnoc(rest, m);
      OpenTaken(c, rest, w);
      TakenSnoc(c, rest, m, w);
      KeysSnoc(rest, m, w.start, w.end);
    }
  }

  lemma NothingTaken<M>(c: Config, h: seq<Message<M>>, w: Span)
    requires h == []
    ensures TakenKeys(c, h, w) == {} == KeysBetween(h, w.start, w.end)
  {
  }

  /** The message that closes a window lies behind it. */
  lemma ClosingTaken<M>(c: Config, h: seq<Message<M>>, m: Message<M>, w: Span)
    requires c.Valid() && w.end == w.start + c.duration
    requires ClosedStart(c, Latest(h)) < w.start <= ClosedStart(c, Latest(h + [m]))
    ensures Taken(c, h + [m], w) == InTimeOrder(h + [m], w.start, w.end)
  {
    hide TakenKeys, KeysBetween, Latest, TakenAt, Sorted;
    LatestSnoc(h, m);
    OpenTaken(c, h, w);
    TakenSnoc(c, h, m, w);
    KeysSnoc(h, m, w.start, w.end);
    assert TakenKeys(c, h + [m], w) == KeysBetween(h + [m], w.start, w.end);
  }

  /** Each window that came out collected exactly what it took in. */
  ghost predicate ListsExact<M, R>(c: Config, h: seq<Message<M>>, out: seq<Emission<R>>, lists: seq<seq<M>>) {
    |lists| == |out| && forall i :: 0 <= i < |out| ==> lists[i] == Taken(c, h, out[i].span)
  }

  /** What one message brings out has been collected in full, although earlier closings have dropped values. */
  lemma NewLists<M, R>(c: Config, value: Span -> R, h: seq<Message<M>>, m: Message<M>, col: Collection<M>,
                       out: seq<Emission<R>>)
    requires c.Valid() && Kept(h, ClosedStart(c, Latest(h)), col)
    requires Closed(c, value, h + [m], ClosedStart(c, Latest(h)), ClosedStart(c, Latest(h + [m])), out)
    ensures ListsExact(c, h + [m], out, Lists(true, Added(col, m.ts, m.value).values, 0, out))
  {
    hide Kept, Latest, Taken, Collected, InTimeOrder, Accepted, Added;
    var col1 := Added(col, m.ts, m.value);
    KeptAdded(h, ClosedStart(c, Latest(h)), col, m);
    ListsAt(true, col1.values, 0, out);
    forall i | 0 <= i < |out| ensures Lists(true, col1.values, 0, out)[i] == Taken(c, h + [m], out[i].span) {
      var w := out[i].span;
      assert out[i] in out;
      ClosingTaken(c, h, m, w);
      CollectedBetween(h + [m], ClosedStart(c, Latest(h)), col1, w.start, w.end);
    }
  }

  /** Closing drops only values from before every open window. */
  lemma KeptClosing<M, R>(c: Config, value: Span -> R, h: seq<Message<M>>, m: Message<M>, col: Collection<M>,
                          out: seq<Emission<R>>)
    requires c.Valid() && Kept(h, ClosedStart(c, Latest(h)), col)
    requires Closed(c, value, h + [m], ClosedStart(c, Latest(h)), ClosedStart(c, Latest(h + [m])), out)
    ensures Kept(h + [m], ClosedStart(c, Latest(h + [m])), AfterClosing(true, Added(col, m.ts, m.value), out))
  {
    hide Kept, Latest, Live, Added, Trimmed;
    var col1, low, high := Added(col, m.ts, m.value), ClosedStart(c, Latest(h)), ClosedStart(c, Latest(h + [m]));
    LatestSnoc(h, m);
    KeptAdded(h, low, col, m);
    if out != [] {
      assert out[|out| - 1] in out;
      KeptTrimmed(h + [m], low, col1, out[|out| - 1].span.start, high);
    } else {
      KeptLater(h + [m], low, col1, high);
    }
  }

  lemma StaysExact<M, R>(c: Config, h: seq<Message<M>>, m: Message<M>, out: seq<Emission<R>>, lists: seq<seq<M>>)
    requires ListsExact(c, h, out, lists) && forall x :: x in out ==> x.span.start <= ClosedStart(c, Latest(h))
    ensures ListsExact(c, h + [m], out, lists)
  {
    hide Latest, Taken;
    forall i | 0 <= i < |out| ensures lists[i] == Taken(c, h + [m], out[i].span) {
      assert out[i] in out;
      ClosedTaken(c, h, m, out[i].span);
    }
  }

  lemma JoinLists<M, R>(c: Config, h: seq<Message<M>>, out: seq<Emission<R>>, lists: seq<seq<M>>,
                        out1: seq<Emission<R>>, lists1: seq<seq<M>>)
    requires ListsExact(c, h, out, lists) && ListsExact(c, h, out1, lists1)
    ensures ListsExact(c, h, out + out1, lists + lists1)
  {
    hide Taken;
  }

  /**
   * Whole runs of collecting windows, over any messages whatsoever: each window that came out (once,
   * by RunsFinal) collected exactly the values of the messages it took in, by timestamp and then in
   * arrival order, although values are dropped as windows close.
   */
  lemma {:induction false} RunsCollect<M, S, R>(c: Config, a: Aggregator<M, S, R>, msgs: seq<Message<M>>)
    requires c.Valid() && NonNegative(msgs)
    ensures ListsExact(c, msgs, Run(c, a, msgs).expired, Gather(c, a, msgs).lists)
    ensures Kept(msgs, ClosedStart(c, Latest(msgs)), Gather(c, a, msgs).col)
  {
    hide Process, Latest, ListsExact, Kept, AfterClosing, Added, Exact, CurrentExact, ValueOf;
    if msgs == [] {
      CollectNone(c, a, msgs);
    } else {
      var n := |msgs| - 1;
      var h, m := msgs[..n], msgs[n];
      var r, g := Run(c, a, h), Gather(c, a, h);
      var out, value := Process(c, a, m, r.store), ValueOf(c, a, msgs);
      assert h + [m] == msgs;
      RunsCollect(c, a, h);
      RunsFinal(c, a, h);
      RunClosed(c, a, h, m);
      NewLists(c, value, h, m, g.col, out.expired);
      KeptClosing(c, value, h, m, g.col, out.expired);
      StaysExact(c, h, m, r.expired, g.lists);
      JoinLists(c, msgs, r.expired, g.lists, out.expired,
                Lists(true, Added(g.col, m.ts, m.value).values, 0, out.expired));
    }
  }

  lemma CollectNone<M, S, R>(c: Config, a: Aggregator<M, S, R>, none: seq<Message<M>>)
    requires c.Valid() && none == []
    ensures ListsExact(c, none, Run(c, a, none).expired, Gather(c, a, none).lists)
    ensures Kept(none, ClosedStart(c, Latest(none)), Gather(c, a, none).col)
  {
  }

  lemma RunClosed<M, S, R>(c: Config, a: Aggregator<M, S, R>, h: seq<Message<M>>, m: Message<M>)
    requires c.Valid() && Exact(c, a, h, Run(c, a, h).store) && 0 <= m.ts
    ensures Closed(c, ValueOf(c, a, h + [m]), h + [m], ClosedStart(c, Latest(h)), ClosedStart(c, Latest(h + [m])),
                   Process(c, a, m, Run(c, a, h).store).expired)
  {
    hide Process, Latest, Closed, Live, Accepted;
    ProcessExact(c, a, h, m, Run(c, a, h).store);
  }

  /** A window took in all messages of its range if and only if it was open at each of them. */
  lemma TakesAllIff<M>(c: Config, h: seq<Message<M>>, w: Span)
    ensures TakenKeys(c, h, w) == KeysBetween(h, w.start, w.end) <==> OpenThroughout(c, h, w)
  {
    hide Latest, ClosedStart;
    if TakenKeys(c, h, w) == KeysBetween(h, w.start, w.end) {
      forall i: nat | i < |h| ensures OpenAt(c, h, w, i) {
        if w.start <= h[i].ts < w.end {
          assert Span(h[i].ts, i) in KeysBetween(h, w.start, w.end);
        }
      }
    }
    if OpenThroughout(c, h, w) {
      forall i | 0 <= i < |h| && w.start <= h[i].ts < w.end ensures TakenAt(c, h, w, i) {
        assert OpenAt(c, h, w, i);
      }
    }
  }

  // ----- What the collection still holds -----

  /** After each message, the start of the last window it closed; 0 if it closed none. */
  function Bounds<M, S, R>(c: Config, a: Aggregator<M, S, R>, msgs: seq<Message<M>>): seq<int>
    requires c.step > 0
  {
    if msgs == [] then []
    else
      var h := msgs[..|msgs| - 1];
      var out := Process(c, a, msgs[|msgs| - 1], Run(c, a, h).store).expired;
      Bounds(c, a, h) + [if out == [] then 0 else out[|out| - 1].span.start]
  }

  /** The largest id deleted before each message. */
  function Passed<M, S, R>(c: Config, a: Aggregator<M, S, R>, msgs: seq<Message<M>>): seq<int>
    requires c.step > 0
  {
    if msgs == [] then []
    else Passed(c, a, msgs[..|msgs| - 1]) + [Gather(c, a, msgs[..|msgs| - 1]).col.lastDeleted]
  }

  /**
   * Over any messages whatsoever, a value is still stored if and only if no window that closed since
   * its arrival starts above it, or the deletion index had passed it when it arrived: then it stays
   * for good.
   */
  lemma {:induction false} RunsStored<M, S, R>(c: Config, a: Aggregator<M, S, R>, msgs: seq<Message<M>>)
    requires c.step > 0 && NonNegative(msgs)
    ensures StoredExactly(msgs, Passed(c, a, msgs), Bounds(c, a, msgs), Gather(c, a, msgs).col)
    ensures Gather(c, a, msgs).col.lastDeleted >= -1
  {
    hide Process, StoredExactly, Added, Trimmed, Lists;
    if msgs == [] {
      StoredNone<M>();
    } else {
      var n := |msgs| - 1;
      var h, m := msgs[..n], msgs[n];
      var out, g := Process(c, a, m, Run(c, a, h).store).expired, Gather(c, a, h);
      assert h + [m] == msgs;
      RunsStored(c, a, h);
      StoredStep(h, m, Passed(c, a, h), Bounds(c, a, h), g.col, if out == [] then 0 else out[|out| - 1].span.start);
      TrimmedNothing(Added(g.col, m.ts, m.value));
    }
  }
}
