/** A sliding window whose grace period is too short for its lateness drops a message that it accepted. */
module SlidingLoss {
  import opened Wrappers
  import opened Aggregation
  import opened WindowStore
  import opened Sliding
  import opened SlidingSpec
  import opened SlidingRun
  import opened SlidingLateness
  import opened SlidingPast

  function Counter(): Aggregator<int, int, int> {
    Aggregator(0, (s: int, v: int, ts: int) => s + 1, (s: int) => s)
  }

  /** A scan that meets only windows ending after the message neither stops nor moves the deletion bound. */
  lemma {:induction false} ScanAllLater(c: Config, m: Message<int>, expired: int, windows: map<Span, Entry<int>>,
                                        spans: seq<Span>, sc: Scan<int, int>)
    requires forall s :: s in spans ==> s in windows && s.end > m.ts
    requires !sc.done
    ensures var r := ScanDown(c, Counter(), m, expired, windows, spans, sc);
            && !r.done && r.maxDeleted == sc.maxDeleted && r.store.lastDeleted == sc.store.lastDeleted
            && forall w :: w in r.store.windows ==> w in sc.store.windows || w in spans || w == Right(c, m.ts)
    decreases |spans|
  {
    if spans != [] {
      var n := |spans| - 1;
      assert forall s :: s in spans[..n] ==> s in spans;
      ScanAllLater(c, m, expired, windows, spans[..n],
                   ScanStep(c, Counter(), m, expired, spans[n], windows[spans[n]], sc));
    }
  }

  /** With no base in reach, the left window starts from the message alone. */
  lemma AloneStep(c: Config, m: Message<int>, st: Store<Entry<int>>)
    requires c.Valid() && 1 <= m.ts && m.ts >= st.latest - c.grace
    requires forall w :: w in st.windows && Max(0, Left(c, m.ts).start - c.duration) <= w.start <= m.ts + 1 ==>
               w.end > m.ts
    ensures Emission(Left(c, m.ts), 1) in Process(c, Counter(), m, st).updated
  {
    hide ExpireWindows, DeleteWindows, LeftEmissions;
    var expired := ExpiredStart(c, Max(m.ts, st.latest));
    ScanAllLater(c, m, expired, st.windows, Candidates(c, m.ts, st), ScanStart(c, m.ts, expired, st));
    InReverse(FullScan(c, Counter(), m, expired, st).updated, Emission(Left(c, m.ts), 1));
  }

  /** A scan with no candidates writes the left window and nothing else. */
  lemma FirstScan(c: Config, m: Message<int>, st: Store<Entry<int>>)
    requires c.Valid() && m.ts >= st.latest
    requires forall w :: w in st.windows ==> w.start < Max(0, Left(c, m.ts).start - c.duration)
    ensures
      var sc := FullScan(c, Counter(), m, ExpiredStart(c, m.ts), st);
      && sc.store == Store(st.windows[Left(c, m.ts) := Entry(m.ts, 1)], m.ts, st.lastExpired, st.lastDeleted)
      && sc.maxDeleted == ExpiredStart(c, m.ts) - c.duration
  {
    assert InRange(st, Max(0, Left(c, m.ts).start - c.duration) - 1, m.ts + 1) == {};
  }

  lemma DeletesNothing(st: Store<Entry<int>>, maxExpired: int, maxStart: int)
    requires forall w :: w in st.windows ==> w.start > maxStart
    ensures
      var out := DeleteWindows(ExpireWindows(st, maxExpired, false), maxStart);
      out.windows == st.windows && out.lastDeleted == st.lastDeleted && out.latest == st.latest
  {
    var marked := ExpireWindows(st, maxExpired, false);
    assert InRange(marked, if marked.lastDeleted > -1 then marked.lastDeleted else -1, maxStart) == {};
    assert (map s | s in st.windows && s !in DeletedSpans(marked, maxStart) :: st.windows[s]) == st.windows;
  }

  /** With no stored window in reach, the left window is all that is added, and only far older windows go. */
  lemma FirstStep(c: Config, m: Message<int>, st: Store<Entry<int>>)
    requires c.Valid() && 1 <= m.ts && m.ts >= st.latest
    requires forall w :: w in st.windows ==>
                           w.start < Max(0, Left(c, m.ts).start - c.duration)
                           && w.start > ExpiredStart(c, m.ts) - c.duration
    ensures var out := Process(c, Counter(), m, st).store;
            && out.windows == st.windows[Left(c, m.ts) := Entry(m.ts, 1)]
            && out.latest == m.ts && out.lastDeleted == st.lastDeleted
  {
    hide FullScan, DeleteWindows, ExpireWindows;
    FirstScan(c, m, st);
    var sc := FullScan(c, Counter(), m, ExpiredStart(c, m.ts), st);
    DeletesNothing(sc.store, ExpiredStart(c, m.ts), sc.maxDeleted);
  }

  /** A list of distinct spans with one member. */
  lemma Single(spans: seq<Span>, w: Span)
    requires Ascending(spans) && w in spans && forall s :: s in spans ==> s == w
    ensures spans == [w]
  {
    assert forall i :: 0 <= i < |spans| ==> spans[i] in spans;
    assert |spans| > 1 ==> Before(spans[0], spans[1]);
  }

  /** A scan whose only candidate b ends before the message. */
  lemma BaseScan(c: Config, m: Message<int>, st: Store<Entry<int>>, b: Span)
    requires b in st.windows && b.start <= b.end < m.ts
    requires forall v :: v in st.windows && Max(0, Left(c, m.ts).start - c.duration) <= v.start <= m.ts + 1 <==> v == b
    ensures
      var expired := ExpiredStart(c, m.ts);
      FullScan(c, Counter(), m, expired, st)
      == ScanStep(c, Counter(), m, expired, b, st.windows[b], ScanStart(c, m.ts, expired, st))
  {
    var expired := ExpiredStart(c, m.ts);
    Single(Candidates(c, m.ts, st), b);
    var start := ScanStart<int, int>(c, m.ts, expired, st);
    assert [b][..0] == [];
    assert ScanDown(c, Counter(), m, expired, st.windows, [b], start)
           == ScanStep(c, Counter(), m, expired, b, st.windows[b], start);
  }

  /** What such a scan writes, and how far it lets deletion go. */
  lemma BaseScanWrites(c: Config, m: Message<int>, st: Store<Entry<int>>, b: Span)
    requires c.Valid() && m.ts >= st.latest && b in st.windows && b.start <= b.end < m.ts
    requires forall v :: v in st.windows && Max(0, Left(c, m.ts).start - c.duration) <= v.start <= m.ts + 1 <==> v == b
    ensures
      var sc := FullScan(c, Counter(), m, ExpiredStart(c, m.ts), st);
      && sc.store.latest == m.ts && sc.store.lastDeleted == st.lastDeleted
      && sc.maxDeleted == Min(b.start - 1, ExpiredStart(c, m.ts))
      && forall v :: v in sc.store.windows ==> v in st.windows || v.end >= m.ts
  {
    hide FullScan;
    BaseScan(c, m, st, b);
  }

  lemma DeleteRemoves(st: Store<Entry<int>>, maxExpired: int, maxStart: int, w: Span)
    requires st.lastDeleted < w.start <= maxStart && -1 <= st.lastDeleted
    ensures
      var out := DeleteWindows(ExpireWindows(st, maxExpired, false), maxStart);
      w !in out.windows && out.windows.Keys <= st.windows.Keys && out.latest == st.latest
  {
  }

  /** The base of the new left window is b; the older window w, which has expired, is deleted. */
  lemma BaseStep(c: Config, m: Message<int>, st: Store<Entry<int>>, b: Span, w: Span)
    requires c.Valid() && 1 <= m.ts && m.ts >= st.latest && st.lastDeleted == -1
    requires b in st.windows && b.start <= b.end < m.ts
    requires forall v :: v in st.windows && Max(0, Left(c, m.ts).start - c.duration) <= v.start <= m.ts + 1 <==> v == b
    requires forall v :: v in st.windows ==> v == w || v == b
    requires 0 <= w.start < b.start && w.start <= ExpiredStart(c, m.ts) && w.end < m.ts
    ensures var out := Process(c, Counter(), m, st).store;
            && out.latest == m.ts && w !in out.windows
            && forall v :: v in out.windows ==> v == b || v.end >= m.ts
  {
    hide FullScan, DeleteWindows, ExpireWindows;
    BaseScanWrites(c, m, st, b);
    var sc := FullScan(c, Counter(), m, ExpiredStart(c, m.ts), st);
    DeleteRemoves(sc.store, ExpiredStart(c, m.ts), sc.maxDeleted, w);
  }

  /** The four messages: one, two far later ones, and a late one that shares a window with the first. */
  function LossyRun(c: Config, lateness: int, p: int): seq<Message<int>> {
    [Message(p, 0), Message(p + c.duration + lateness - 1, 0), Message(p + c.duration + lateness, 0),
     Message(p + c.duration, 0)]
  }

  /** In that run no message is later than allowed, yet what the last one hands on misses the first. */
  lemma LateLoses(c: Config, lateness: int, p: int)
    requires c.Valid() && 2 <= lateness <= c.grace < lateness + c.duration && p > c.duration
    ensures LateBy(1, lateness, LossyRun(c, lateness, p))
    ensures var msgs := LossyRun(c, lateness, p);
            !CurrentExact(c, Counter(), msgs, Run(c, Counter(), msgs).updated)
  {
    var msgs := LossyRun(c, lateness, p);
    LossyLateness(c, lateness, p);
    LossyEmits(c, lateness, p);
    LossyValue(c, lateness, p);
    assert |msgs| == 4 && msgs[..3 + 1] == msgs;
    hide *;
    WrongEmission(c, msgs, Run(c, Counter(), msgs).updated, 3, Emission(Left(c, p + c.duration), 1));
  }

  lemma LossyValue(c: Config, lateness: int, p: int)
    requires c.Valid() && 2 <= lateness && p > c.duration
    ensures ValueOf(Counter(), LossyRun(c, lateness, p))(Left(c, p + c.duration)) == 2
  {
    LossyCount(c, lateness, p);
    hide FoldAll, Within, LossyRun;
  }

  lemma WrongEmission(c: Config, msgs: seq<Message<int>>, updated: seq<seq<Emission<int>>>, i: nat, x: Emission<int>)
    requires i < |msgs| == |updated| && x in updated[i] && x.value != ValueOf(Counter(), msgs[..i + 1])(x.span)
    ensures !CurrentExact(c, Counter(), msgs, updated)
  {
    hide ValueOf;
  }

  lemma ExactIsCurrent(c: Config, msgs: seq<Message<int>>, r: RunState<int, int>)
    requires RunExact(c, Counter(), msgs, r)
    ensures CurrentExact(c, Counter(), msgs, r.updated)
  {
    hide Exact, Marked, LeftWindows, CurrentExact;
  }

  lemma LossyLateness(c: Config, lateness: int, p: int)
    requires c.Valid() && 2 <= lateness && p > c.duration
    ensures LateBy(1, lateness, LossyRun(c, lateness, p))
  {
    var msgs := LossyRun(c, lateness, p);
    assert Latest(msgs[..0]) == 0;
    forall i: nat | i < 4
      ensures Latest(msgs[..i + 1]) == if msgs[i].ts > Latest(msgs[..i]) then msgs[i].ts else Latest(msgs[..i]) {
      assert msgs[..i + 1] == msgs[..i] + [msgs[i]];
      LatestSnoc(msgs[..i], msgs[i]);
    }
    assert Latest(msgs[..1]) == p;
  }

  /** The late message's left window holds two messages. */
  lemma LossyCount(c: Config, lateness: int, p: int)
    requires c.Valid() && 2 <= lateness && p > c.duration
    ensures FoldAll(Counter(), Within(LossyRun(c, lateness, p), p, p + c.duration)) == 2
  {
    var msgs := LossyRun(c, lateness, p);
    forall i: nat | i < 4
      ensures Within(msgs[..i + 1], p, p + c.duration)
           == Within(msgs[..i], p, p + c.duration) + if p <= msgs[i].ts <= p + c.duration then [msgs[i]] else []
    {
      assert msgs[..i + 1] == msgs[..i] + [msgs[i]];
      WithinSnoc(msgs[..i], msgs[i], p, p + c.duration);
    }
    assert Within(msgs[..0], p, p + c.duration) == [];
    assert msgs[..4] == msgs;
    assert Within(msgs[..2], p, p + c.duration) == [msgs[0]];
    assert Within(msgs[..3], p, p + c.duration) == [msgs[0]];
    assert Within(msgs, p, p + c.duration) == [msgs[0]] + [msgs[3]];
    FoldAllSnoc(Counter(), [msgs[0]], msgs[3]);
    FoldAllSnoc(Counter(), [], msgs[0]);
    assert [] + [msgs[0]] == [msgs[0]];
  }

  /** The late message hands on its left window with a count of one. */
  lemma LossyEmits(c: Config, lateness: int, p: int)
    requires c.Valid() && 2 <= lateness <= c.grace < lateness + c.duration && p > c.duration
    ensures var r := Run(c, Counter(), LossyRun(c, lateness, p));
            |r.updated| == 4 && Emission(Left(c, p + c.duration), 1) in r.updated[3]
  {
    hide Process;
    var msgs := LossyRun(c, lateness, p);
    var q := p + c.duration + lateness - 1;
    var st1 := Process(c, Counter(), msgs[0], Empty()).store;
    var st2 := Process(c, Counter(), msgs[1], st1).store;
    var st3 := Process(c, Counter(), msgs[2], st2).store;
    FirstStep(c, msgs[0], Empty());
    FirstStep(c, msgs[1], st1);
    BaseStep(c, msgs[2], st2, Left(c, q), Left(c, p));
    AloneStep(c, msgs[3], st3);
    RunUnrolled(c, msgs);
  }

  lemma RunUnrolled(c: Config, msgs: seq<Message<int>>)
    requires |msgs| == 4
    ensures
      var st1 := Process(c, Counter(), msgs[0], Empty()).store;
      var st2 := Process(c, Counter(), msgs[1], st1).store;
      var st3 := Process(c, Counter(), msgs[2], st2).store;
      var updated := Run(c, Counter(), msgs).updated;
      |updated| == 4 && updated[3] == Process(c, Counter(), msgs[3], st3).updated
  {
    hide Process;
    assert msgs[..3][..2] == msgs[..2] && msgs[..2][..1] == msgs[..1] && msgs[..1][..0] == [];
    assert Run(c, Counter(), msgs[..1]).store == Process(c, Counter(), msgs[0], Empty()).store;
    assert Run(c, Counter(), msgs[..2]).store
           == Process(c, Counter(), msgs[1], Run(c, Counter(), msgs[..1]).store).store;
    assert Run(c, Counter(), msgs[..3]).store
           == Process(c, Counter(), msgs[2], Run(c, Counter(), msgs[..2]).store).store;
    assert |Run(c, Counter(), msgs[..1]).updated| == 1;
    assert |Run(c, Counter(), msgs[..2]).updated| == 2;
    assert |Run(c, Counter(), msgs[..3]).updated| == 3;
  }

  // ----- Lateness beyond the grace period -----

  /**
   * A message whose left window has expired already, among windows that end later: nothing at or
   * below the mark is stored.
   */
  lemma BelowMarkScan(c: Config, m: Message<int>, st: Store<Entry<int>>, expired: int)
    requires forall w :: w in st.windows ==> w.end > m.ts && w.start > expired
    requires Left(c, m.ts).start <= expired < m.ts
    ensures forall w :: w in FullScan(c, Counter(), m, expired, st).store.windows ==> w.start > expired
  {
    ScanAllLater(c, m, expired, st.windows, Candidates(c, m.ts, st), ScanStart(c, m.ts, expired, st));
  }

  lemma NothingExpires(c: Config, m: Message<int>, st: Store<Entry<int>>)
    requires var expired := ExpiredStart(c, Max(m.ts, st.latest));
             forall w :: w in FullScan(c, Counter(), m, expired, st).store.windows ==> w.start > expired
    ensures Process(c, Counter(), m, st).expired == []
  {
    hide FullScan, ExpireWindows, DeleteWindows;
    var expired := ExpiredStart(c, Max(m.ts, st.latest));
    var store := FullScan(c, Counter(), m, expired, st).store;
    HasFirst(ExpiredSpans(store, expired));
    assert LeftEmissions(Counter(), store.windows, []) == [];
  }

  function TooLateRun(c: Config, p: int): seq<Message<int>> {
    [Message(p + c.grace + 1, 0), Message(p, 0)]
  }

  /** The first of the two messages: its left window alone is stored, and nothing comes out. */
  lemma TooLateFirst(c: Config, m: Message<int>)
    requires c.Valid() && m.ts > c.duration
    ensures var out := Process(c, Counter(), m, Empty());
            out.store.windows.Keys == {Left(c, m.ts)} && out.store.latest == m.ts && out.expired == []
  {
    hide FullScan, Process;
    var st: Store<Entry<int>> := Empty();
    FirstStep(c, m, st);
    FirstScan(c, m, st);
    NothingExpires(c, m, st);
  }

  /** The second: its left window has expired before it is stored. */
  lemma TooLateSecond(c: Config, m: Message<int>, st: Store<Entry<int>>)
    requires c.Valid() && m.ts > c.duration && st.latest == m.ts + c.grace + 1
    requires st.windows.Keys == {Left(c, st.latest)}
    ensures Process(c, Counter(), m, st).expired == []
  {
    hide FullScan, Process;
    assert forall w :: w in st.windows ==> w == Left(c, st.latest);
    BelowMarkScan(c, m, st, ExpiredStart(c, st.latest));
    NothingExpires(c, m, st);
  }

  lemma TooLateExpires(c: Config, p: int)
    requires c.Valid() && p > c.duration
    ensures Run(c, Counter(), TooLateRun(c, p)).expired == []
  {
    hide Process;
    var msgs := TooLateRun(c, p);
    var st1 := Process(c, Counter(), msgs[0], Empty()).store;
    TooLateFirst(c, msgs[0]);
    TooLateSecond(c, msgs[1], st1);
    assert msgs[..1] == [msgs[0]] && msgs[..1][..0] == [];
    assert Run(c, Counter(), msgs[..1]).store == st1;
    assert Run(c, Counter(), msgs[..1]).expired == [];
  }

  /** One message more than the grace period behind: its window never comes out. */
  lemma TooLateLoses(c: Config, lateness: int, p: int)
    requires c.Valid() && lateness > c.grace && p > c.duration
    ensures LateBy(1, lateness, TooLateRun(c, p))
    ensures !RunExact(c, Counter(), TooLateRun(c, p), Run(c, Counter(), TooLateRun(c, p)))
  {
    TooLateExpires(c, p);
    TooLateTimes(c, p);
    hide Run, RunExact, Times, Latest, TooLateRun;
    NeverOut(c, TooLateRun(c, p), Run(c, Counter(), TooLateRun(c, p)), p);
  }

  /** A run whose expired windows lack one that must have come out is not exact. */
  lemma NeverOut(c: Config, msgs: seq<Message<int>>, r: RunState<int, int>, p: int)
    requires r.expired == [] && p in Times(msgs)
             && ExpiredStart(c, 0) < Left(c, p).start <= ExpiredStart(c, Latest(msgs))
    ensures !RunExact(c, Counter(), msgs, r)
  {
    hide Sound, Complete, Marked, CurrentExact, Times, Latest, ValueOf, Positive;
  }

  lemma TooLateTimes(c: Config, p: int)
    requires c.Valid() && p > c.duration
    ensures var msgs := TooLateRun(c, p);
            && LateBy(1, c.grace + 1, msgs) && Latest(msgs) == p + c.grace + 1 && p in Times(msgs)
  {
    var msgs := TooLateRun(c, p);
    assert Latest(msgs[..0]) == 0;
    assert msgs[..1] == msgs[..0] + [msgs[0]] && msgs == msgs[..1] + [msgs[1]];
    LatestSnoc(msgs[..0], msgs[0]);
    LatestSnoc(msgs[..1], msgs[1]);
    TimesSnoc(msgs[..1], msgs[1]);
    hide Latest, Times;
  }

  // ----- An expired window handed on -----

  /** Three messages: the third is accepted, but its left window has expired. */
  function PastRun(): seq<Message<int>> { [Message(85, 0), Message(100, 0), Message(86, 0)] }

  /**
   * Size 10, grace 5, messages at 85, 100 and 86: the last one hands on its left window [76, 86],
   * which expired when the second one came, and no window is reported as late.
   */
  lemma PastWitness()
    ensures
      var c, msgs := Config(10, 5), PastRun();
      var st := Run(c, Counter(), msgs[..2]).store;
      && Left(c, 86) == Span(76, 86) && ExpiredStart(c, st.latest) == 84
      && HandsOn(Process(c, Counter(), msgs[2], st).updated, Span(76, 86))
      && Process(c, Counter(), msgs[2], st).late == []
  {
    hide Process, FullScan, HandsOn;
    var c, msgs := Config(10, 5), PastRun();
    PastStore();
    var st := Run(c, Counter(), msgs[..2]).store;
    var spans := Candidates(c, 86, st);
    assert Span(75, 85) in spans;
    Single(spans, Span(75, 85));
    assert Shaped(c, st.windows);
    ExpiredLeftIff(c, Counter(), msgs[2], st);
    ExpiredLeftIsEmitted(c, Counter(), msgs[2], st);
  }

  /** The store after the first two messages. */
  lemma PastStore()
    ensures
      var st := Run(Config(10, 5), Counter(), PastRun()[..2]).store;
      st.latest == 100 && st.windows == map[Span(75, 85) := Entry(85, 1), Span(90, 100) := Entry(100, 1)]
  {
    hide Process;
    var c, msgs := Config(10, 5), PastRun();
    var st1 := Process(c, Counter(), msgs[0], Empty()).store;
    FirstStep(c, msgs[0], Empty());
    FirstStep(c, msgs[1], st1);
    assert msgs[..2][..1] == msgs[..1] && msgs[..1][..0] == [];
    assert Run(c, Counter(), msgs[..1]).store == st1;
  }

  /**
   * The exact condition: with messages at most lateness behind, every run is exact if and only if
   * lateness is at most one millisecond and within the grace period, or the grace period covers
   * lateness and duration together.
   */
  lemma LatenessCondition(c: Config, lateness: int)
    requires c.Valid() && 0 <= lateness
    ensures (lateness <= 1 && lateness <= c.grace) || lateness + c.duration <= c.grace
       <==> forall msgs :: LateBy(1, lateness, msgs) ==> RunExact(c, Counter(), msgs, Run(c, Counter(), msgs))
  {
    hide RunExact, CurrentExact, Run, LateBy, LossyRun, TooLateRun;
    if lateness > c.grace {
      TooLateLoses(c, lateness, c.duration + 1);
    } else if lateness <= 1 || lateness + c.duration <= c.grace {
      forall msgs | LateBy(1, lateness, msgs) ensures RunExact(c, Counter(), msgs, Run(c, Counter(), msgs)) {
        if lateness == 1 {
          LateByOneExact(c, Counter(), msgs);
        } else {
          LateByTimely(c, lateness, msgs);
          RunsExact(c, Counter(), msgs);
        }
      }
    } else {
      var msgs := LossyRun(c, lateness, c.duration + 1);
      LateLoses(c, lateness, c.duration + 1);
      if RunExact(c, Counter(), msgs, Run(c, Counter(), msgs)) {
        ExactIsCurrent(c, msgs, Run(c, Counter(), msgs));
        assert false;
      }
    }
  }
}
