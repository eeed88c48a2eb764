/** One message through a sliding window, as a function of the store (windows/sliding.py). */
module Sliding {
  import opened Wrappers
  import opened Aggregation
  import opened WindowStore

  datatype Config = Config(duration: int, grace: int) {
    ghost predicate Valid() { 1 <= duration && 0 <= grace }
  }

  /** A stored window: the largest timestamp inside it and the aggregate of its messages. */
  datatype Entry<S> = Entry(maxTs: int, agg: S)

  /** The window that ends at a message. */
  function Left(c: Config, t: int): Span { Span(Max(0, t - c.duration), t) }

  /** The window that begins just after a message. */
  function Right(c: Config, t: int): Span { Span(t + 1, t + 1 + c.duration) }

  /** Windows that start here or below are expired when the latest timestamp is given. */
  function ExpiredStart(c: Config, latest: int): int { latest - c.grace - 1 - c.duration }

  /** The loop variables of the backward scan. */
  datatype Scan<S, R> = Scan(
    store: Store<Entry<S>>,
    starts: set<int>,
    rightExists: bool,
    updated: seq<Emission<R>>,
    late: seq<Span>,
    maxDeleted: int,
    done: bool)

  /** An existing window that ends after the message: copy it into the right window if that is due, then update it. */
  function ScanOverlapping<M, S, R>(c: Config, a: Aggregator<M, S, R>, m: Message<M>, expired: int, w: Span,
                                    e: Entry<S>, sc: Scan<S, R>): Scan<S, R>
  {
    var sc1 := if !sc.rightExists && e.maxTs > m.ts
               then sc.(store := UpdateWindow(sc.store, Right(c, m.ts), e, m.ts), rightExists := true)
               else sc;
    if w.start > expired then
      var e1 := Entry(Max(m.ts, e.maxTs), a.agg(e.agg, m.value, m.ts));
      sc1.(store := UpdateWindow(sc1.store, w, e1, m.ts),
           updated := if w.end == e1.maxTs then sc1.updated + [Emission(w, a.result(e1.agg))] else sc1.updated)
    else
      sc1.(late := sc1.late + [w])
  }

  /** The left window is already stored: update it and stop. */
  function ScanLeft<M, S, R>(c: Config, a: Aggregator<M, S, R>, m: Message<M>, expired: int, w: Span, e: Entry<S>,
                             sc: Scan<S, R>): Scan<S, R>
  {
    var sc1 := if e.maxTs + 1 !in sc.starts && e.maxTs < m.ts
               then sc.(store := UpdateWindow(sc.store, Right(c, e.maxTs),
                                              Entry(m.ts, a.agg(a.initial, m.value, m.ts)), m.ts))
               else sc;
    if w.start > expired then
      var agg := a.agg(e.agg, m.value, m.ts);
      sc1.(store := UpdateWindow(sc1.store, w, Entry(m.ts, agg), m.ts),
           updated := sc1.updated + [Emission(w, a.result(agg))],
           done := true)
    else
      sc1.(late := sc1.late + [w], done := true)
  }

  /** The first window that ends before the message: derive the left window from it and stop. */
  function ScanBase<M, S, R>(c: Config, a: Aggregator<M, S, R>, m: Message<M>, expired: int, w: Span, e: Entry<S>,
                             sc: Scan<S, R>): Scan<S, R>
  {
    var sc1 := if e.maxTs + 1 !in sc.starts && e.maxTs + 1 + c.duration >= m.ts
               then sc.(store := UpdateWindow(sc.store, Right(c, e.maxTs),
                                              Entry(m.ts, a.agg(a.initial, m.value, m.ts)), m.ts))
               else sc;
    var left := Left(c, m.ts);
    var agg := a.agg(if left.start > e.maxTs then a.initial else e.agg, m.value, m.ts);
    sc1.(store := UpdateWindow(sc1.store, left, Entry(m.ts, agg), m.ts),
         updated := sc1.updated + [Emission(left, a.result(agg))],
         maxDeleted := Min(w.start - 1, expired),
         done := true)
  }

  function ScanStep<M, S, R>(c: Config, a: Aggregator<M, S, R>, m: Message<M>, expired: int, w: Span, e: Entry<S>,
                             sc: Scan<S, R>): Scan<S, R>
  {
    var sc := sc.(starts := sc.starts + {w.start});
    if w.start == m.ts + 1 then sc.(rightExists := true)
    else if w.end > m.ts then ScanOverlapping(c, a, m, expired, w, e, sc)
    else if w.end == m.ts then ScanLeft(c, a, m, expired, w, e, sc)
    else ScanBase(c, a, m, expired, w, e, sc)
  }

  /** The scan of an ascending list of windows, last one first; it stops once the left window is settled. */
  function ScanDown<M, S, R>(c: Config, a: Aggregator<M, S, R>, m: Message<M>, expired: int,
                             windows: map<Span, Entry<S>>, spans: seq<Span>, sc: Scan<S, R>): Scan<S, R>
    requires forall s :: s in spans ==> s in windows
  {
    if sc.done || spans == [] then sc
    else
      var w := spans[|spans| - 1];
      ScanDown(c, a, m, expired, windows, spans[..|spans| - 1], ScanStep(c, a, m, expired, w, windows[w], sc))
  }

  /** No stored window settled the left window: create it from the message alone. */
  function ScanNone<M, S, R>(c: Config, a: Aggregator<M, S, R>, m: Message<M>, expired: int,
                             sc: Scan<S, R>): Scan<S, R> {
    var left := Left(c, m.ts);
    if sc.done || left.start <= expired then sc
    else
      var agg := a.agg(a.initial, m.value, m.ts);
      sc.(store := UpdateWindow(sc.store, left, Entry(m.ts, agg), m.ts),
          updated := sc.updated + [Emission(left, a.result(agg))])
  }

  function ScanStart<S, R>(c: Config, ts: int, expired: int, st: Store<Entry<S>>): Scan<S, R> {
    Scan(st, {Left(c, ts).start}, false, [], [], expired - c.duration, false)
  }

  /** The windows the scan looks at: from two durations below the message to its right window. */
  function Candidates<S>(c: Config, ts: int, st: Store<Entry<S>>): (r: seq<Span>)
    ensures Ascending(r)
    ensures forall s :: s in r <==> s in st.windows && Max(0, Left(c, ts).start - c.duration) <= s.start <= ts + 1
  {
    GetWindows(st, Max(0, Left(c, ts).start - c.duration) - 1, ts + 1)
  }

  function FullScan<M, S, R>(c: Config, a: Aggregator<M, S, R>, m: Message<M>, expired: int,
                             st: Store<Entry<S>>): Scan<S, R> {
    ScanNone(c, a, m, expired,
             ScanDown(c, a, m, expired, st.windows, Candidates(c, m.ts, st), ScanStart(c, m.ts, expired, st)))
  }

  /** The expired left windows among the given spans, in their order. */
  function LeftEmissions<M, S, R>(a: Aggregator<M, S, R>, windows: map<Span, Entry<S>>,
                                  spans: seq<Span>): seq<Emission<R>>
    requires forall s :: s in spans ==> s in windows
  {
    if spans == [] then []
    else
      var w := spans[|spans| - 1];
      LeftEmissions(a, windows, spans[..|spans| - 1])
      + if w.end == windows[w].maxTs then [Emission(w, a.result(windows[w].agg))] else []
  }

  /** What the scan leaves as the bound of deletion. */
  function DeletedStart<M, S, R>(c: Config, a: Aggregator<M, S, R>, m: Message<M>, st: Store<Entry<S>>): int {
    FullScan(c, a, m, ExpiredStart(c, Max(m.ts, st.latest)), st).maxDeleted
  }

  datatype Outcome<S, R> = Outcome(store: Store<Entry<S>>, updated: seq<Emission<R>>, expired: seq<Emission<R>>,
                                   late: seq<Span>)

  /** process_window: reject a late message, else scan, expire, delete. */
  function Process<M, S, R>(c: Config, a: Aggregator<M, S, R>, m: Message<M>, st: Store<Entry<S>>): Outcome<S, R> {
    var expired := ExpiredStart(c, Max(m.ts, st.latest));
    if m.ts <= expired then Outcome(st, [], [], [Left(c, m.ts)])
    else
      var sc := FullScan(c, a, m, expired, st);
      var st1 := ExpireWindows(sc.store, expired, false);
      Outcome(DeleteWindows(st1, sc.maxDeleted),
              Reverse(sc.updated),
              LeftEmissions(a, sc.store.windows, ExpiredSpans(sc.store, expired)),
              sc.late)
  }
}
