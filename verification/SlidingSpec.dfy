/** What a sliding-window store must hold for a given message history. */
module SlidingSpec {
  import opened Wrappers
  import opened Aggregation
  import opened WindowStore
  import opened Sliding

  ghost predicate NonEmpty(times: set<int>, w: Span) {
    exists u :: u in times && w.start <= u <= w.end
  }

  /** w is the left window of a seen timestamp, or the right window of one, and holds a message. */
  ghost predicate Ideal(c: Config, times: set<int>, w: Span) {
    && w == Left(c, w.end)
    && (w.end in times || w.end - c.duration - 1 in times)
    && NonEmpty(times, w)
  }

  ghost predicate IsMax(times: set<int>, w: Span, x: int) {
    && x in times && w.start <= x <= w.end
    && forall u :: u in times && w.start <= u <= w.end ==> u <= x
  }

  /** The entry is the fold, in arrival order, of exactly the messages inside the window. */
  ghost predicate EntryOk<M, S, R>(a: Aggregator<M, S, R>, h: seq<Message<M>>, w: Span, e: Entry<S>) {
    && IsMax(Times(h), w, e.maxTs)
    && e.agg == FoldAll(a, Within(h, w.start, w.end))
  }

  ghost predicate Sound<M, S, R>(c: Config, a: Aggregator<M, S, R>, h: seq<Message<M>>, windows: map<Span, Entry<S>>) {
    forall w :: w in windows ==> Ideal(c, Times(h), w) && EntryOk(a, h, w, windows[w])
  }

  ghost predicate Complete<S>(c: Config, times: set<int>, windows: map<Span, Entry<S>>, above: int) {
    forall w :: Ideal(c, times, w) && w.start > above ==> w in windows
  }

  ghost predicate Positive(times: set<int>) {
    forall t :: t in times ==> 1 <= t
  }

  /** Stored windows are exact, and every window that is not expired is stored. */
  ghost predicate Exact<M, S, R>(c: Config, a: Aggregator<M, S, R>, h: seq<Message<M>>, st: Store<Entry<S>>) {
    && Positive(Times(h))
    && st.latest == Latest(h)
    && Sound(c, a, h, st.windows)
    && Complete(c, Times(h), st.windows, ExpiredStart(c, st.latest))
  }

  /** Expired windows that are still stored lie at or below the expiration index. */
  ghost predicate Marked<S>(c: Config, st: Store<Entry<S>>) {
    && -1 <= st.lastExpired <= Max(-1, ExpiredStart(c, st.latest))
    && forall w :: w in st.windows && w.start <= ExpiredStart(c, st.latest) ==> w.start <= st.lastExpired
  }

  /** w is the window with the largest end below ts. */
  ghost predicate Top(c: Config, times: set<int>, ts: int, w: Span) {
    && w.end < ts && Ideal(c, times, w)
    && forall v :: Ideal(c, times, v) && v.end < ts ==> v.end <= w.end
  }

  /** If the left window is new and not empty, the window it is derived from has not been deleted. */
  ghost predicate BaseStored<S>(c: Config, times: set<int>, ts: int, windows: map<Span, Entry<S>>) {
    forall p :: p in times && Left(c, ts).start <= p < ts && !Ideal(c, times, Left(c, ts)) ==>
                  exists w :: w in windows && Top(c, times, ts, w)
  }

  /** What a window must emit: the projected fold of the messages inside it. */
  function ValueOf<M, S, R>(a: Aggregator<M, S, R>, h: seq<Message<M>>): Span -> R {
    (w: Span) => a.result(FoldAll(a, Within(h, w.start, w.end)))
  }
}
