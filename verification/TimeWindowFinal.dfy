/** Runs of tumbling and hopping windows: each window closes once, for good, and completely if lateness is bounded. */
module TimeWindowFinal {
  import opened Aggregation
  import opened WindowStore
  import opened WindowRanges
  import opened TimeWindow
  import opened TimeWindowRun

  /** The store, the closed windows in the order they come out, and the updated windows message by message. */
  datatype RunState<S, R> = RunState(store: Store<S>, expired: seq<Emission<R>>, updated: seq<seq<Emission<R>>>)

  /** The messages of one key processed one by one. */
  function Run<M, S, R>(c: Config, a: Aggregator<M, S, R>, msgs: seq<Message<M>>): RunState<S, R>
    requires c.step > 0
  {
    if msgs == [] then RunState(Empty(), [], [])
    else
      var r := Run(c, a, msgs[..|msgs| - 1]);
      var out := Process(c, a, msgs[|msgs| - 1], r.store);
      RunState(out.store, r.expired + out.expired, r.updated + [out.updated])
  }

  ghost predicate NonNegative<M>(msgs: seq<Message<M>>) {
    forall i :: 0 <= i < |msgs| ==> 0 <= msgs[i].ts
  }

  /** A window that has closed takes in no later message. */
  lemma ClosedForGood<M>(c: Config, h: seq<Message<M>>, m: Message<M>, w: Span)
    requires w.start <= ClosedStart(c, Latest(h))
    ensures Accepted(c, h + [m], w) == Accepted(c, h, w)
  {
    AcceptedSkip(c, h, m, w);
  }

  /** Each message handed on exactly its windows that were still open, with the folds over what they had accepted. */
  ghost predicate CurrentExact<M, S, R>(c: Config, a: Aggregator<M, S, R>, msgs: seq<Message<M>>,
                                        updated: seq<seq<Emission<R>>>)
    requires c.step > 0
  {
    && |updated| == |msgs|
    && forall i :: 0 <= i < |msgs| ==>
                     var h := msgs[..i + 1];
                     Updated(c, ValueOf(c, a, h), msgs[i].ts, ClosedStart(c, Latest(h)), updated[i])
  }

  lemma CurrentSnoc<M, S, R>(c: Config, a: Aggregator<M, S, R>, h: seq<Message<M>>, m: Message<M>,
                             before: seq<seq<Emission<R>>>, updated: seq<Emission<R>>)
    requires c.step > 0 && CurrentExact(c, a, h, before)
    requires Updated(c, ValueOf(c, a, h + [m]), m.ts, ClosedStart(c, Latest(h + [m])), updated)
    ensures CurrentExact(c, a, h + [m], before + [updated])
  {
    hide Updated, Latest;
    var msgs := h + [m];
    forall i | 0 <= i < |msgs|
      ensures Updated(c, ValueOf(c, a, msgs[..i + 1]), msgs[i].ts, ClosedStart(c, Latest(msgs[..i + 1])),
                      (before + [updated])[i])
    {
      if i < |h| {
        assert msgs[..i + 1] == h[..i + 1];
      } else {
        assert msgs[..i + 1] == msgs;
      }
    }
  }

  /**
   * Finality: after any messages whatsoever, the windows that have come out are exactly those at or
   * below the closing mark that accepted a message, each exactly once, with strictly increasing
   * starts, and each with the fold of exactly the messages it accepted over the whole run; and each
   * message handed on exactly its open windows with their folds so far.
   */
  lemma {:induction false} RunsFinal<M, S, R>(c: Config, a: Aggregator<M, S, R>, msgs: seq<Message<M>>)
    requires c.Valid() && NonNegative(msgs)
    ensures
      var r := Run(c, a, msgs);
      && Exact(c, a, msgs, r.store)
      && Closed(c, ValueOf(c, a, msgs), msgs, ClosedStart(c, 0), ClosedStart(c, Latest(msgs)), r.expired)
      && CurrentExact(c, a, msgs, r.updated)
  {
    hide CurrentExact, Accepted, FoldAll, Process, ValueOf, Live;
    if msgs == [] {
      FinalNone(c, a, msgs);
    } else {
      var n := |msgs| - 1;
      var h, m := msgs[..n], msgs[n];
      RunsFinal(c, a, h);
      assert h + [m] == msgs;
      ProcessExact(c, a, h, m, Run(c, a, h).store);
      LatestSnoc(h, m);
      ClosedStays(c, a, h, m, Run(c, a, h).expired, Process(c, a, m, Run(c, a, h).store).expired);
      CurrentSnoc(c, a, h, m, Run(c, a, h).updated, Process(c, a, m, Run(c, a, h).store).updated);
    }
  }

  lemma FinalNone<M, S, R>(c: Config, a: Aggregator<M, S, R>, none: seq<Message<M>>)
    requires c.Valid() && none == []
    ensures Exact(c, a, none, Run(c, a, none).store)
    ensures Closed(c, ValueOf(c, a, none), none, ClosedStart(c, 0), ClosedStart(c, Latest(none)),
                   Run(c, a, none).expired)
    ensures CurrentExact(c, a, none, Run(c, a, none).updated)
  {
  }

  /** What came out before the message keeps its value and does not come out again. */
  lemma ClosedStays<M, S, R>(c: Config, a: Aggregator<M, S, R>, h: seq<Message<M>>, m: Message<M>,
                             first: seq<Emission<R>>, second: seq<Emission<R>>)
    requires c.Valid()
    requires Closed(c, ValueOf(c, a, h), h, ClosedStart(c, 0), ClosedStart(c, Latest(h)), first)
    requires Closed(c, ValueOf(c, a, h + [m]), h + [m], ClosedStart(c, Latest(h)), ClosedStart(c, Latest(h + [m])),
                    second)
    ensures Closed(c, ValueOf(c, a, h + [m]), h + [m], ClosedStart(c, 0), ClosedStart(c, Latest(h + [m])),
                   first + second)
  {
    hide Accepted, FoldAll, Latest;
    LatestSnoc(h, m);
    forall w: Span | w.start <= ClosedStart(c, Latest(h))
      ensures ValueOf(c, a, h)(w) == ValueOf(c, a, h + [m])(w) && Accepted(c, h, w) == Accepted(c, h + [m], w)
    {
      ClosedForGood(c, h, m, w);
    }
    var all := first + second;
    forall i, j | 0 <= i < j < |all| ensures all[i].span.start < all[j].span.start {
      if i < |first| <= j {
        assert first[i] in first && second[j - |first|] in second;
      }
    }
  }

  /** If message i falls into the window, the window is still open when it arrives. */
  ghost predicate OpenAt<M>(c: Config, h: seq<Message<M>>, w: Span, i: nat)
    requires i < |h|
  {
    w.start <= h[i].ts < w.end ==> w.start > ClosedStart(c, Latest(h[..i + 1]))
  }

  /** The window is still open at each of its messages. */
  ghost predicate OpenThroughout<M>(c: Config, h: seq<Message<M>>, w: Span) {
    forall i: nat :: i < |h| ==> OpenAt(c, h, w, i)
  }

  /** A window is the batch group-by over [start, end) if and only if it was open at each of its messages. */
  lemma {:induction false} CompleteIff<M>(c: Config, h: seq<Message<M>>, w: Span)
    ensures |Accepted(c, h, w)| <= |Within(h, w.start, w.end - 1)|
    ensures Accepted(c, h, w) == Within(h, w.start, w.end - 1) <==> OpenThroughout(c, h, w)
  {
    if h != [] {
      var n := |h| - 1;
      CompleteIff(c, h[..n], w);
      AcceptedLast(c, h, w);
      OpenLast(c, h, w);
      hide Latest, Accepted, Within, OpenThroughout, ClosedStart;
      SnocSame(Accepted(c, h[..n], w), Within(h[..n], w.start, w.end - 1), h[n]);
    }
  }

  /** What the last message adds to the accepted messages, and to all messages inside the window. */
  lemma AcceptedLast<M>(c: Config, h: seq<Message<M>>, w: Span)
    requires h != []
    ensures var rest, last := h[..|h| - 1], h[|h| - 1];
            var inside := w.start <= last.ts < w.end;
            && Accepted(c, h, w)
               == (if inside && w.start > ClosedStart(c, Latest(h)) then Accepted(c, rest, w) + [last]
                   else Accepted(c, rest, w))
            && Within(h, w.start, w.end - 1)
               == (if inside then Within(rest, w.start, w.end - 1) + [last] else Within(rest, w.start, w.end - 1))
  {
    hide Latest;
  }

  lemma OpenLast<M>(c: Config, h: seq<Message<M>>, w: Span)
    requires h != []
    ensures OpenThroughout(c, h, w)
       <==> && OpenThroughout(c, h[..|h| - 1], w)
            && (w.start <= h[|h| - 1].ts < w.end ==> w.start > ClosedStart(c, Latest(h)))
  {
    hide OpenAt, Latest, ClosedStart;
    var n := |h| - 1;
    OpenAtLast(c, h, w);
    forall i: nat | i < n ensures OpenAt(c, h, w, i) == OpenAt(c, h[..n], w, i) {
      OpenAtPrefix(c, h, w, i);
    }
  }

  lemma OpenAtLast<M>(c: Config, h: seq<Message<M>>, w: Span)
    requires h != []
    ensures OpenAt(c, h, w, |h| - 1) <==> (w.start <= h[|h| - 1].ts < w.end ==> w.start > ClosedStart(c, Latest(h)))
  {
    assert h[..|h| - 1 + 1] == h;
  }

  lemma OpenAtPrefix<M>(c: Config, h: seq<Message<M>>, w: Span, i: nat)
    requires i < |h| - 1
    ensures OpenAt(c, h, w, i) == OpenAt(c, h[..|h| - 1], w, i)
  {
    assert h[..|h| - 1][..i + 1] == h[..i + 1];
  }

  lemma SnocSame<T>(x: seq<T>, y: seq<T>, t: T)
    ensures x + [t] == y + [t] <==> x == y
  {
    if x + [t] == y + [t] {
      assert x == (x + [t])[..|x|] && y == (y + [t])[..|y|];
    }
  }

  /** Every window of the configuration equals the batch group-by. */
  ghost predicate AllComplete<M>(c: Config, msgs: seq<Message<M>>)
    requires c.step > 0
  {
    forall w :: IsWindow(c.duration, c.step, w) ==> Accepted(c, msgs, w) == Within(msgs, w.start, w.end - 1)
  }

  lemma LateComplete<M>(c: Config, lateness: int, msgs: seq<Message<M>>)
    requires c.Valid() && LateBy(0, lateness, msgs) && lateness <= c.grace
    ensures AllComplete(c, msgs)
  {
    hide Latest, Accepted, Within, IsWindow, LateBy;
    forall w | IsWindow(c.duration, c.step, w) ensures Accepted(c, msgs, w) == Within(msgs, w.start, w.end - 1) {
      forall i: nat | i < |msgs| ensures OpenAt(c, msgs, w, i) {
        LateOpen(c, lateness, msgs, w, i);
      }
      CompleteIff(c, msgs, w);
    }
  }

  lemma LateOpen<M>(c: Config, lateness: int, msgs: seq<Message<M>>, w: Span, i: nat)
    requires c.Valid() && LateBy(0, lateness, msgs) && lateness <= c.grace && i < |msgs|
    requires IsWindow(c.duration, c.step, w)
    ensures OpenAt(c, msgs, w, i)
  {
    hide Latest, IsWindow, LateBy;
    var h, m := msgs[..i], msgs[i];
    assert msgs[..i + 1] == h + [m];
    LatestSnoc(h, m);
    WindowEnd(c, w);
    LateAt(lateness, msgs, i);
  }

  lemma LateAt<M>(lateness: int, msgs: seq<Message<M>>, i: nat)
    requires LateBy(0, lateness, msgs) && i < |msgs|
    ensures msgs[i].ts >= Latest(msgs[..i]) - lateness
  {
    hide Latest;
  }

  lemma WindowEnd(c: Config, w: Span)
    requires c.Valid() && IsWindow(c.duration, c.step, w)
    ensures 0 <= w.start && w.end == w.start + c.duration
  {
  }

  /** The value of a window in the batch group-by. */
  function BatchValue<M, S, R>(a: Aggregator<M, S, R>, msgs: seq<Message<M>>, w: Span): R {
    a.result(FoldAll(a, Within(msgs, w.start, w.end - 1)))
  }

  /** A window that holds a message and is due to have come out. */
  ghost predicate IsDue<M>(c: Config, msgs: seq<Message<M>>, w: Span)
    requires c.step > 0
  {
    && IsWindow(c.duration, c.step, w) && w.start <= ClosedStart(c, Latest(msgs))
    && Within(msgs, w.start, w.end - 1) != []
  }

  /**
   * What came out is the batch group-by: the windows due, each once, in order, with the fold over
   * all their messages.
   */
  ghost predicate BatchExact<M, S, R>(c: Config, a: Aggregator<M, S, R>, msgs: seq<Message<M>>, out: seq<Emission<R>>)
    requires c.step > 0
  {
    && (forall i, j :: 0 <= i < j < |out| ==> out[i].span.start < out[j].span.start)
    && (forall x :: x in out ==> IsDue(c, msgs, x.span) && x.value == BatchValue(a, msgs, x.span))
    && (forall w :: IsDue(c, msgs, w) ==> Emission(w, BatchValue(a, msgs, w)) in out)
  }

  /** Complete windows come out as the batch group-by. */
  lemma CompleteComesOut<M, S, R>(c: Config, a: Aggregator<M, S, R>, msgs: seq<Message<M>>, out: seq<Emission<R>>)
    requires c.Valid() && AllComplete(c, msgs)
    requires Closed(c, ValueOf(c, a, msgs), msgs, ClosedStart(c, 0), ClosedStart(c, Latest(msgs)), out)
    ensures BatchExact(c, a, msgs, out)
  {
    hide Latest, FoldAll, Within, Accepted, IsWindow;
    forall w | IsDue(c, msgs, w) ensures Emission(w, BatchValue(a, msgs, w)) in out {
      WindowEnd(c, w);
      assert Live(c, msgs, w) && ValueOf(c, a, msgs)(w) == BatchValue(a, msgs, w);
    }
  }

  /** Runs within the grace period hand out the batch group-by. */
  lemma RunsComplete<M, S, R>(c: Config, a: Aggregator<M, S, R>, lateness: int, msgs: seq<Message<M>>)
    requires c.Valid() && LateBy(0, lateness, msgs) && lateness <= c.grace
    ensures BatchExact(c, a, msgs, Run(c, a, msgs).expired)
  {
    hide Exact, CurrentExact, Closed, AllComplete, BatchExact, Run, Latest;
    LateComplete(c, lateness, msgs);
    RunsFinal(c, a, msgs);
    CompleteComesOut(c, a, msgs, Run(c, a, msgs).expired);
  }

  /**
   * The exact condition for completeness: with messages at most lateness behind, every run hands
   * out the batch group-by if and only if the grace period covers the lateness, and exactly then is
   * every window of every run complete.
   */
  lemma LatenessCondition<S(!new), R(!new)>(c: Config, a: Aggregator<int, S, R>, lateness: int)
    requires c.Valid() && 0 <= lateness
    ensures lateness <= c.grace
       <==> forall msgs: seq<Message<int>> :: LateBy(0, lateness, msgs) ==>
         BatchExact(c, a, msgs, Run(c, a, msgs).expired)
    ensures lateness <= c.grace
            <==> forall msgs: seq<Message<int>> :: LateBy(0, lateness, msgs) ==> AllComplete(c, msgs)
  {
    hide LateBy, AllComplete, BatchExact, Run, LateRun;
    if lateness <= c.grace {
      forall msgs: seq<Message<int>> | LateBy(0, lateness, msgs)
        ensures AllComplete(c, msgs) && BatchExact(c, a, msgs, Run(c, a, msgs).expired)
      {
        LateComplete(c, lateness, msgs);
        RunsComplete(c, a, lateness, msgs);
      }
    } else {
      LateLoses(c, lateness);
      LateHandsOut(c, a, lateness);
    }
  }

  function LateRun(c: Config, lateness: int): seq<Message<int>> {
    [Message(c.duration - 1 + lateness, 0), Message(c.duration - 1, 0)]
  }

  /** The first window is due, holds a message, and does not come out. */
  lemma LateHandsOut<S, R>(c: Config, a: Aggregator<int, S, R>, lateness: int)
    requires c.Valid() && lateness > c.grace
    ensures !BatchExact(c, a, LateRun(c, lateness), Run(c, a, LateRun(c, lateness)).expired)
  {
    hide Latest, Run, Within, Accepted, Exact, CurrentExact, Closed, BatchExact, IsWindow, LateRun;
    var msgs, w := LateRun(c, lateness), Span(0, c.duration);
    LossyLatest(c, lateness);
    LossyTakes(c, lateness);
    FirstWindow(c);
    RunsFinal(c, a, msgs);
    MissingOne(c, a, msgs, Run(c, a, msgs).expired, w);
  }

  lemma FirstWindow(c: Config)
    requires c.Valid()
    ensures IsWindow(c.duration, c.step, Span(0, c.duration))
  {
    ModOfMultiple(0, c.step);
  }

  /** A due window that took in nothing is missing from what came out. */
  lemma MissingOne<M, S, R>(c: Config, a: Aggregator<M, S, R>, msgs: seq<Message<M>>, out: seq<Emission<R>>, w: Span)
    requires c.Valid() && IsDue(c, msgs, w) && Accepted(c, msgs, w) == []
    requires Closed(c, ValueOf(c, a, msgs), msgs, ClosedStart(c, 0), ClosedStart(c, Latest(msgs)), out)
    ensures !BatchExact(c, a, msgs, out)
  {
    hide Latest, FoldAll, Within, Accepted, IsWindow;
    assert !Live(c, msgs, w);
  }

  lemma LossyTakes(c: Config, lateness: int)
    requires c.Valid() && lateness > c.grace
    ensures var msgs := LateRun(c, lateness);
            Accepted(c, msgs, Span(0, c.duration)) == [] && Within(msgs, 0, c.duration - 1) != []
  {
    var msgs, w := LateRun(c, lateness), Span(0, c.duration);
    LossyLatest(c, lateness);
    assert msgs[..1 + 1] == msgs && msgs[..1] == [msgs[0]] && msgs[..1][..0] == [];
    hide Latest;
    assert Accepted(c, msgs[..1], w) == [];
  }

  /** A message at the very end of the first window, just too late for it. */
  lemma LateLoses(c: Config, lateness: int)
    requires c.Valid() && lateness > c.grace
    ensures var msgs := LateRun(c, lateness); LateBy(0, lateness, msgs) && !AllComplete(c, msgs)
  {
    var msgs := LateRun(c, lateness);
    var w := Span(0, c.duration);
    LossyLatest(c, lateness);
    ModOfMultiple(0, c.step);
    hide Latest, Accepted, Within;
    assert IsWindow(c.duration, c.step, w);
    assert !OpenAt(c, msgs, w, 1);
    CompleteIff(c, msgs, w);
  }

  lemma LossyLatest(c: Config, lateness: int)
    requires c.Valid() && lateness >= 0
    ensures var msgs := LateRun(c, lateness);
            && LateBy(0, lateness, msgs) && |msgs| == 2 && msgs[..1 + 1] == msgs
            && Latest(msgs[..1 + 1]) == c.duration - 1 + lateness
  {
    var msgs := LateRun(c, lateness);
    LatestPair(msgs[0], msgs[1]);
    assert msgs[..0] == [] && msgs[..1] == [msgs[0]] && msgs[..2] == msgs;
    hide Latest;
    forall i | 0 <= i < |msgs| ensures 0 <= msgs[i].ts && msgs[i].ts >= Latest(msgs[..i]) - lateness {
      assert i == 0 || i == 1;
    }
  }

  lemma LatestPair<M>(m: Message<M>, n: Message<M>)
    requires m.ts >= n.ts && m.ts >= 0
    ensures Latest<M>([]) == 0 && Latest([m]) == m.ts && Latest([m, n]) == m.ts
  {
    assert [] + [m] == [m] && [m] + [n] == [m, n];
    LatestSnoc([], m);
    LatestSnoc([m], n);
  }
}
