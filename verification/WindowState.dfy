/** The windowed state as an object that its callers update in place (state/rocksdb/windowed/transaction.py). */
module WindowState {
  import opened Wrappers
  import opened WindowStore
  import opened CountCollection

  datatype Detail<V, M> = Detail(span: Span, value: V, collected: seq<M>)

  /** The values collected between the bounds of a window, its end included if past is 1. */
  function Gathered<M>(collect: bool, values: map<Span, M>, w: Span, past: int): seq<M> {
    if collect then Collected(values, w.start, w.end + past) else []
  }

  /** What is stored and collected for each span, in the order given. */
  function Details<V, M>(windows: map<Span, V>, collect: bool, values: map<Span, M>, past: int,
                         spans: seq<Span>): seq<Detail<V, M>>
    requires forall s :: s in spans ==> s in windows
  {
    seq(|spans|, i requires 0 <= i < |spans| =>
      assert spans[i] in spans; Detail(spans[i], windows[spans[i]], Gathered(collect, values, spans[i], past)))
  }

  /** What was collected for each window that comes out. */
  function Lists<M, R>(collect: bool, values: map<Span, M>, past: int, out: seq<Emission<R>>): (r: seq<seq<M>>)
    ensures |r| == |out|
  {
    if out == [] then [] else
      var n := |out| - 1;
      Lists(collect, values, past, out[..n]) + [Gathered(collect, values, out[n].span, past)]
  }

  lemma {:induction false} ListsAt<M, R>(collect: bool, values: map<Span, M>, past: int, out: seq<Emission<R>>)
    ensures forall i :: 0 <= i < |out| ==>
              Lists(collect, values, past, out)[i] == Gathered(collect, values, out[i].span, past)
  {
    hide Gathered;
    if out != [] {
      ListsAt(collect, values, past, out[..|out| - 1]);
    }
  }

  lemma ListsSnoc<M, R>(collect: bool, values: map<Span, M>, past: int, out: seq<Emission<R>>, x: Emission<R>)
    ensures Lists(collect, values, past, out + [x])
            == Lists(collect, values, past, out) + [Gathered(collect, values, x.span, past)]
  {
    assert (out + [x])[..|out|] == out;
  }

  lemma DetailsAt<V, M>(windows: map<Span, V>, collect: bool, values: map<Span, M>, past: int, spans: seq<Span>)
    requires forall s :: s in spans ==> s in windows
    ensures
      var r := Details(windows, collect, values, past, spans);
      && |r| == |spans|
      && forall i :: 0 <= i < |r| ==> spans[i] in windows
                                      && r[i] == Detail(spans[i], windows[spans[i]],
                                                        Gathered(collect, values, spans[i], past))
  {
    hide Gathered;
    forall i | 0 <= i < |spans| ensures spans[i] in windows {
      assert spans[i] in spans;
    }
  }

  lemma DetailSpans<V, M>(windows: map<Span, V>, collect: bool, values: map<Span, M>, past: int, spans: seq<Span>)
    requires forall s :: s in spans ==> s in windows
    ensures forall w: Span ::
              (exists d :: d in Details(windows, collect, values, past, spans) && d.span == w) <==> w in spans
  {
    hide Gathered;
    var r := Details(windows, collect, values, past, spans);
    forall w | w in spans ensures exists d :: d in r && d.span == w {
      var i :| 0 <= i < |spans| && spans[i] == w;
      assert r[i] in r && r[i].span == w;
    }
    forall d | d in r ensures d.span in spans {
      var i :| 0 <= i < |r| && r[i] == d;
    }
  }

  /** The reported windows are stored ones. */
  lemma ReportedStored<V>(st: Store<V>, maxStart: int)
    ensures forall s :: s in ExpiredSpans(st, maxStart) ==> s in st.windows
  {
  }

  lemma ExpiredSpansAre<V>(st: Store<V>, maxStart: int)
    ensures var spans := ExpiredSpans(st, maxStart);
            && (forall i, j :: 0 <= i < j < |spans| ==> Before(spans[i], spans[j]))
            && forall w :: w in spans <==> w in st.windows && Max(-1, st.lastExpired) < w.start <= maxStart
  {
  }

  /**
   * One call of expire_windows: what it reports, in key order, what it leaves, and where the index
   * then stands: at the last start reported.
   */
  lemma ExpireIs<V, M>(st: Store<V>, collect: bool, values: map<Span, M>, past: int, maxStart: int, delete: bool)
    ensures
      var left, out := ExpireWindows(st, maxStart, delete).windows,
                       Details(st.windows, collect, values, past, ExpiredSpans(st, maxStart));
      && (forall i, j :: 0 <= i < j < |out| ==> Before(out[i].span, out[j].span))
      && (forall d :: d in out ==>
                        && d.span in st.windows && d.value == st.windows[d.span]
                        && d.collected == if collect then Collected(values, d.span.start, d.span.end + past) else [])
      && ExpireWindows(st, maxStart, delete).lastExpired
         == (if out == [] then st.lastExpired else out[|out| - 1].span.start)
      && (forall w: Span ::
            (exists d :: d in out && d.span == w) <==> w in st.windows && Max(-1, st.lastExpired) < w.start <= maxStart)
      && (forall w :: w in left <==>
                        w in st.windows && !(delete && Max(-1, st.lastExpired) < w.start <= maxStart))
      && (forall w :: w in left ==> left[w] == st.windows[w])
  {
    var spans := ExpiredSpans(st, maxStart);
    ExpiredSpansAre(st, maxStart);
    hide Details, ExpiredSpans, Before, Collected;
    DetailsAt(st.windows, collect, values, past, spans);
    DetailSpans(st.windows, collect, values, past, spans);
    var out := Details(st.windows, collect, values, past, spans);
    forall d | d in out ensures d.span in st.windows && d.value == st.windows[d.span]
                                && d.collected == Gathered(collect, values, d.span, past) {
      var i :| 0 <= i < |out| && out[i] == d;
    }
  }

  /** One call of delete_windows: what it leaves; the index then is the last start deleted, unless that is 0. */
  lemma DeleteIs<V>(st: Store<V>, maxStart: int)
    ensures
      var out := DeleteWindows(st, maxStart);
      && (forall w :: w in out.windows <==> w in st.windows && !(Max(-1, st.lastDeleted) < w.start <= maxStart))
      && (forall w :: w in out.windows ==> out.windows[w] == st.windows[w])
      && (forall w :: w in st.windows && w !in out.windows && w.start != 0 ==> w.start <= out.lastDeleted)
      && (out.lastDeleted == st.lastDeleted
          || exists w :: w in st.windows && w !in out.windows && w.start == out.lastDeleted != 0)
  {
    var spans := DeletedSpans(st, maxStart);
    hide Sorted;
    if spans != [] {
      assert spans[|spans| - 1] in spans;
      forall w | w in spans ensures w.start <= spans[|spans| - 1].start {
        var i :| 0 <= i < |spans| && spans[i] == w;
      }
    }
  }

  /** Values before the start of the last window reported are dropped with the windows. */
  function TrimmedTo<M>(delete: bool, collect: bool, col: Collection<M>, spans: seq<Span>): Collection<M> {
    if delete && collect && spans != [] then Trimmed(col, spans[|spans| - 1].start) else col
  }

  /** The same, told by what comes out. */
  function AfterClosing<M, R>(collect: bool, col: Collection<M>, out: seq<Emission<R>>): Collection<M> {
    if collect && out != [] then Trimmed(col, out[|out| - 1].span.start) else col
  }

  class WindowedState<V, M> {
    var windows: map<Span, V>
    var latest: int
    var lastExpired: int
    var lastDeleted: int
    var values: map<Span, M>
    var counter: int
    var lastDeletedId: int

    function Value(): Store<V>
      reads this
    {
      Store(windows, latest, lastExpired, lastDeleted)
    }

    function Values(): Collection<M>
      reads this
    {
      Collection(values, counter, lastDeletedId)
    }

    constructor ()
      ensures Value() == Empty() && Values() == NoValues()
    {
      windows, latest, lastExpired, lastDeleted := map[], 0, -1, -1;
      values, counter, lastDeletedId := map[], -1, -1;
    }

    method Update(s: Span, v: V, ts: int)
      modifies this
      ensures Value() == UpdateWindow(old(Value()), s, v, ts) && Values() == old(Values())
    {
      windows := windows[s := v];
      latest := if ts > latest then ts else latest;
    }

    method AddToCollection(id: int, v: M)
      modifies this`values, this`counter
      ensures Values() == Added(old(Values()), id, v)
    {
      counter := counter + 1;
      values := values[Span(id, counter) := v];
    }

    /**
     * Drops the values with ids from the given start, or else from the deletion index, up to the
     * bound, and no others; the index becomes the largest id dropped.
     */
    method DeleteFromCollection(upTo: int, start: Option<int>)
      modifies this`values, this`lastDeletedId
      ensures
        var from := Max(0, if start.Some? then start.value else old(lastDeletedId));
        && (forall s :: s in values <==> s in old(values) && !(from <= s.start < upTo))
        && (forall s :: s in values ==> values[s] == old(values)[s])
        && (forall s :: s in old(values) && from <= s.start < upTo ==> s.start <= lastDeletedId)
        && (lastDeletedId == old(lastDeletedId)
            || exists s :: s in old(values) && from <= s.start < upTo && s.start == lastDeletedId)
      ensures Values() == if start.Some? then TrimmedFrom(old(Values()), start.value, upTo)
              else Trimmed(old(Values()), upTo)
    {
      hide Sorted, Gone, Pruned;
      var from := if start.Some? then start.value else lastDeletedId;
      ghost var col := Values();
      values, lastDeletedId := Prune(values, from, upTo, lastDeletedId);
      assert Values() == TrimmedFrom(col, from, upTo);
      hide TrimmedFrom;
      TrimmedIs(col, from, upTo);
    }

    method DeleteAll(spans: seq<Span>)
      modifies this`windows
      ensures windows == map s | s in old(windows) && s !in spans :: old(windows)[s]
    {
      for i := 0 to |spans|
        invariant windows == map s | s in old(windows) && s !in spans[..i] :: old(windows)[s]
      {
        assert spans[..i + 1] == spans[..i] + [spans[i]];
        windows := windows - {spans[i]};
      }
      assert spans[..|spans|] == spans;
    }

    /**
     * Reports the windows above the expiration index with what they collected, moves the index, and
     * if asked to deletes them and the values from before the last of them.
     */
    method Expire(maxStart: int, delete: bool, collect: bool, endInclusive: bool) returns (expired: seq<Detail<V, M>>)
      modifies this
      ensures Value() == ExpireWindows(old(Value()), maxStart, delete)
      ensures Values() == TrimmedTo(delete, collect, old(Values()), ExpiredSpans(old(Value()), maxStart))
      ensures expired == Details(old(windows), collect, old(values),
                                 if endInclusive then 1 else 0, ExpiredSpans(old(Value()), maxStart))
    {
      hide Gathered, Trimmed;
      var from := if lastExpired > -1 then lastExpired else -1;
      var spans := GetWindows(Value(), from, maxStart);
      expired := Details(windows, collect, values, if endInclusive then 1 else 0, spans);
      if spans == [] {
        return;
      }
      lastExpired := spans[|spans| - 1].start;
      if delete {
        DeleteAll(spans);
        if collect {
          DeleteFromCollection(spans[|spans| - 1].start, None);
        }
      }
    }

    /** Deletes the windows above the deletion index up to the bound, and if asked to the values from before it. */
    method Delete(maxStart: int, deleteValues: bool)
      modifies this
      ensures Value() == DeleteWindows(old(Value()), maxStart)
      ensures Values() == if deleteValues then Trimmed(old(Values()), maxStart) else old(Values())
    {
      hide Trimmed;
      var from := if lastDeleted > -1 then lastDeleted else -1;
      var spans := GetWindows(Value(), from, maxStart);
      DeleteAll(spans);
      if spans != [] && spans[|spans| - 1].start != 0 {
        lastDeleted := spans[|spans| - 1].start;
      }
      if deleteValues {
        DeleteFromCollection(maxStart, None);
      }
    }
  }
}
