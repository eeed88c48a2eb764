/** Tumbling and hopping windows with the key closing strategy (windows/time_based.py). */
module TimeWindow {
  import opened Wrappers
  import opened Aggregation
  import opened WindowStore
  import opened WindowRanges

  datatype Config = Config(duration: int, step: int, grace: int) {
    ghost predicate Valid() { 1 <= duration && 1 <= step <= duration && 0 <= grace }
  }

  /** Windows that start here or below are closed when the latest timestamp is given. */
  function ClosedStart(c: Config, latest: int): int { latest - c.grace - c.duration }

  datatype Step<S, R> = Step(store: Store<S>, updated: seq<Emission<R>>, late: seq<Span>)

  /** One of the message's windows: skip it if it is closed, else aggregate. */
  function UpdateOne<M, S, R>(a: Aggregator<M, S, R>, m: Message<M>, closed: int, w: Span, s: Step<S, R>): Step<S, R> {
    if w.start <= closed then s.(late := s.late + [w])
    else
      var current := if w in s.store.windows then s.store.windows[w] else a.initial;
      var agg := a.agg(current, m.value, m.ts);
      s.(store := UpdateWindow(s.store, w, agg, m.ts), updated := s.updated + [Emission(w, a.result(agg))])
  }

  function UpdateAll<M, S, R>(a: Aggregator<M, S, R>, m: Message<M>, closed: int, ranges: seq<Span>,
                              st: Store<S>): Step<S, R> {
    if ranges == [] then Step(st, [], [])
    else UpdateOne(a, m, closed, ranges[|ranges| - 1], UpdateAll(a, m, closed, ranges[..|ranges| - 1], st))
  }

  function Emissions<M, S, R>(a: Aggregator<M, S, R>, windows: map<Span, S>, spans: seq<Span>): seq<Emission<R>>
    requires forall s :: s in spans ==> s in windows
  {
    if spans == [] then []
    else
      var w := spans[|spans| - 1];
      Emissions(a, windows, spans[..|spans| - 1]) + [Emission(w, a.result(windows[w]))]
  }

  datatype Outcome<S, R> = Outcome(store: Store<S>, updated: seq<Emission<R>>, expired: seq<Emission<R>>,
                                   late: seq<Span>)

  /** process_window followed by the exhaustion of its expired windows. */
  function Process<M, S, R>(c: Config, a: Aggregator<M, S, R>, m: Message<M>, st: Store<S>): Outcome<S, R>
    requires c.step > 0
  {
    var closed := ClosedStart(c, Max(m.ts, st.latest));
    var s := UpdateAll(a, m, closed, Ranges(m.ts, c.duration, c.step), st);
    Outcome(ExpireWindows(s.store, closed, true), s.updated,
            Emissions(a, s.store.windows, ExpiredSpans(s.store, closed)), s.late)
  }

  /** The messages a window has taken in: those inside it that arrived before it closed. */
  function Accepted<M>(c: Config, h: seq<Message<M>>, w: Span): seq<Message<M>> {
    if h == [] then []
    else
      var rest, last := h[..|h| - 1], h[|h| - 1];
      Accepted(c, rest, w) + (if w.start <= last.ts < w.end && w.start > ClosedStart(c, Latest(h)) then [last] else [])
  }

  ghost predicate Live<M>(c: Config, h: seq<Message<M>>, w: Span)
    requires c.step > 0
  {
    IsWindow(c.duration, c.step, w) && Accepted(c, h, w) != []
  }

  /** The stored windows are the open ones with an accepted message, each with the fold over its accepted messages. */
  ghost predicate Exact<M, S, R>(c: Config, a: Aggregator<M, S, R>, h: seq<Message<M>>, st: Store<S>)
    requires c.step > 0
  {
    && st.latest == Latest(h)
    && -1 <= st.lastExpired <= Max(-1, ClosedStart(c, st.latest))
    && (forall w :: w in st.windows <==> Live(c, h, w) && w.start > ClosedStart(c, st.latest))
    && (forall w :: w in st.windows ==> st.windows[w] == FoldAll(a, Accepted(c, h, w)))
  }

  function ValueOf<M, S, R>(c: Config, a: Aggregator<M, S, R>, h: seq<Message<M>>): Span -> R {
    (w: Span) => a.result(FoldAll(a, Accepted(c, h, w)))
  }

  /** The windows with an accepted message and low < start <= high, in key order, each once with its value. */
  ghost predicate Closed<M, R>(c: Config, value: Span -> R, h: seq<Message<M>>, low: int, high: int,
                               emitted: seq<Emission<R>>)
    requires c.step > 0
  {
    && (forall i, j :: 0 <= i < j < |emitted| ==> emitted[i].span.start < emitted[j].span.start)
    && (forall x :: x in emitted ==> Live(c, h, x.span) && low < x.span.start <= high && x.value == value(x.span))
    && (forall w :: Live(c, h, w) && low < w.start <= high ==> Emission(w, value(w)) in emitted)
  }

  /** The open windows of one message, in key order, each once with its new value. */
  ghost predicate Updated<R>(c: Config, value: Span -> R, ts: int, closed: int, updated: seq<Emission<R>>)
    requires c.step > 0
  {
    && (forall i, j :: 0 <= i < j < |updated| ==> updated[i].span.start < updated[j].span.start)
    && (forall x :: x in updated ==>
                      IsWindow(c.duration, c.step, x.span) && Contains(x.span, ts) && x.span.start > closed
                      && x.value == value(x.span))
    && (forall w :: IsWindow(c.duration, c.step, w) && Contains(w, ts) && w.start > closed ==>
            Emission(w, value(w)) in updated)
  }
}
