/** Count windows, tumbling and hopping (windows/count_based.py). */
module CountWindow {
  import opened Wrappers
  import opened Aggregation
  import opened WindowStore
  import opened WindowRanges
  import opened CountCollection
  import opened CountStale

  /** The stored state of one live window. */
  datatype WindowData<S> = WindowData(count: int, start: int, end: int, agg: S, collectionId: int)

  /** What a window emits: its time bounds, its aggregate, and the values it collected. */
  datatype Result<M, R> = Result(start: int, end: int, value: R, collected: seq<M>)

  function Earliest<M>(h: seq<Message<M>>): int
    requires h != []
  {
    if |h| == 1 then h[0].ts else Min(Earliest(h[..|h| - 1]), h[|h| - 1].ts)
  }

  function Last<M>(h: seq<Message<M>>): int
    requires h != []
  {
    if |h| == 1 then h[0].ts else Max(Last(h[..|h| - 1]), h[|h| - 1].ts)
  }

  /** What the window over exactly the messages b must hold. */
  function DataOf<M, S, R>(a: Aggregator<M, S, R>, aggregate: bool, b: seq<Message<M>>,
                           collectionId: int): WindowData<S>
    requires b != []
  {
    WindowData(|b|, Earliest(b), Last(b), if aggregate then FoldAll(a, b) else a.initial, collectionId)
  }

  function ResultOf<M, S, R>(a: Aggregator<M, S, R>, aggregate: bool, collect: bool, b: seq<Message<M>>): Result<M, R>
    requires b != []
  {
    Result(Earliest(b), Last(b), a.result(if aggregate then FoldAll(a, b) else a.initial),
           if collect then Values(b) else [])
  }

  /** A window before its first message. */
  function Fresh<M, S, R>(a: Aggregator<M, S, R>, ts: int, collectionId: int): WindowData<S> {
    WindowData(0, ts, ts, a.initial, collectionId)
  }

  /** A window after one more message. */
  function Grow<M, S, R>(a: Aggregator<M, S, R>, aggregate: bool, w: WindowData<S>, m: Message<M>): WindowData<S> {
    WindowData(w.count + 1,
               if m.ts < w.start then m.ts else w.start,
               if m.ts >= w.start && m.ts > w.end then m.ts else w.end,
               if aggregate then a.agg(w.agg, m.value, m.ts) else w.agg,
               w.collectionId)
  }

  lemma BoundsOrdered<M>(b: seq<Message<M>>)
    requires b != []
    ensures Earliest(b) <= Last(b)
  {
  }

  lemma GrowOk<M, S, R>(a: Aggregator<M, S, R>, aggregate: bool, b: seq<Message<M>>, m: Message<M>, id: int)
    ensures Grow(a, aggregate, if b == [] then Fresh(a, m.ts, id) else DataOf(a, aggregate, b, id), m)
            == DataOf(a, aggregate, b + [m], id)
  {
    FoldAllSnoc(a, b, m);
    assert (b + [m])[..|b|] == b;
    if b != [] {
      BoundsOrdered(b);
    }
  }

  /** The windows after a message: all grown, the new one included if one is due. */
  function Grown<M, S, R>(a: Aggregator<M, S, R>, aggregate: bool, windows: seq<WindowData<S>>,
                          m: Message<M>): seq<WindowData<S>> {
    seq(|windows|, i requires 0 <= i < |windows| => Grow(a, aggregate, windows[i], m))
  }

  /** The positions where the live windows start, a step apart, the last one less than a step behind. */
  ghost predicate Starts(count: int, step: int, n: int, starts: seq<int>)
    requires step > 0
  {
    && Stepping(step, n, starts)
    && (starts == [] ==> Aligned(n, step) && (n == 0 || step == count))
    && (starts != [] ==> starts[0] + count > n && (starts[0] == 0 || starts[0] - step + count <= n))
  }

  ghost predicate Stepping(step: int, n: int, starts: seq<int>)
    requires step > 0
  {
    && (forall i :: 0 <= i < |starts| ==> 0 <= starts[i] < n && Aligned(starts[i], step))
    && (forall i :: 0 <= i < |starts| - 1 ==> starts[i + 1] == starts[i] + step)
    && (starts != [] ==> starts[|starts| - 1] + step >= n)
  }

  lemma AlignedSum(x: int, y: int, step: int)
    requires step > 0 && Aligned(x, step)
    ensures Aligned(x + y, step) <==> Aligned(y, step)
  {
    var i := x / step;
    assert x == i * step;
    if y % step == 0 {
      assert x + y == (i + y / step) * step;
      ModOfMultiple(i + y / step, step);
    }
    if (x + y) % step == 0 {
      assert y == ((x + y) / step - i) * step;
      ModOfMultiple((x + y) / step - i, step);
    }
  }

  lemma AlignedSelf(step: int)
    requires step > 0
    ensures Aligned(step, step) && Aligned(0, step)
  {
    ModOfMultiple(1, step);
    ModOfMultiple(0, step);
  }

  lemma AlignedApart(x: int, y: int, step: int)
    requires step > 0 && Aligned(x, step) && Aligned(y, step) && x < y
    ensures x + step <= y
  {
    AlignedGap(x, y, step);
  }

  /** A new window is due exactly when the last one is a whole step behind, or there is none. */
  lemma DueIff(count: int, step: int, n: int, starts: seq<int>)
    requires 0 < step <= count && 0 <= n && Starts(count, step, n, starts)
    ensures Aligned(n, step) <==> starts == [] || starts[|starts| - 1] + step == n
    ensures starts != [] ==> (Aligned(n - starts[0], step) <==> Aligned(n, step))
  {
    hide Aligned;
    if starts != [] {
      var last := starts[|starts| - 1];
      if Aligned(n, step) {
        AlignedApart(last, n, step);
      }
      AlignedSum(starts[0], n - starts[0], step);
      AlignedSum(last, step, step);
      AlignedSelf(step);
    }
  }

  /** The start positions once the message is in: the old ones, and the message's own if a window is due. */
  function Due(step: int, n: int, starts: seq<int>): seq<int>
    requires step > 0
  {
    if Aligned(n, step) then starts + [n] else starts
  }

  lemma DueSteps(count: int, step: int, n: int, starts: seq<int>)
    requires 0 < step <= count && 0 <= n && Starts(count, step, n, starts)
    ensures
      var due := Due(step, n, starts);
      && due != [] && Stepping(step, n + 1, due)
      && due[0] + count > n && (due[0] == 0 || due[0] - step + count <= n)
      && forall i :: 1 <= i < |due| ==> due[i] >= due[0] + step
  {
    hide Aligned;
    DueIff(count, step, n, starts);
    StepsApart(step, Due(step, n, starts));
  }

  lemma StepsApart(step: int, starts: seq<int>)
    requires step > 0 && forall i :: 0 <= i < |starts| - 1 ==> starts[i + 1] == starts[i] + step
    ensures forall i :: 1 <= i < |starts| ==> starts[i] >= starts[0] + step
  {
    if |starts| > 1 {
      var prefix := starts[..|starts| - 1];
      StepsApart(step, prefix);
      forall i | 1 <= i < |starts| ensures starts[i] >= starts[0] + step {
        if i < |starts| - 1 {
          assert starts[i] == prefix[i];
        } else if i > 1 {
          assert starts[i - 1] == prefix[i - 1];
        }
      }
    }
  }

  /**
   * At most one window fills per message, and it is the first; it fills exactly when count messages
   * end at a whole step.
   */
  lemma FillsFirst(count: int, step: int, n: int, starts: seq<int>)
    requires 0 < step <= count && 2 <= count && 0 <= n && Starts(count, step, n, starts)
    ensures
      var due := Due(step, n, starts);
      && due != []
      && (forall i :: 1 <= i < |due| ==> n + 1 - due[i] < count)
      && (n + 1 - due[0] >= count <==> n + 1 >= count && Aligned(n + 1 - count, step))
      && (n + 1 - due[0] >= count ==> due[0] == n + 1 - count)
  {
    hide Aligned;
    DueSteps(count, step, n, starts);
    var due, j := Due(step, n, starts), n + 1 - count;
    if j >= 0 && Aligned(j, step) && j < due[0] {
      AlignedApart(j, due[0], step);
    }
  }

  /** Dropping the filled window leaves the live ones. */
  lemma NextStarts(count: int, step: int, n: int, starts: seq<int>)
    requires 0 < step <= count && 2 <= count && 0 <= n && Starts(count, step, n, starts)
    ensures
      var due := Due(step, n, starts);
      due != [] && Starts(count, step, n + 1, if n + 1 - due[0] >= count then due[1..] else due)
  {
    hide Aligned;
    DueSteps(count, step, n, starts);
    var due := Due(step, n, starts);
    if |due| == 1 && n + 1 - due[0] >= count {
      AlignedSelf(step);
      AlignedSum(due[0], count, step);
    }
  }

  /** Where ids count from: the start of the key's stream for windows that overlap, else that of the window. */
  function BaseOf(overlap: bool, starts: seq<int>): int {
    if !overlap && starts != [] then starts[0] else 0
  }

  /** Each live window holds what the messages from its start on make it hold. */
  ghost predicate LiveData<M, S, R>(a: Aggregator<M, S, R>, aggregate: bool, collect: bool, base: int,
                                    h: seq<Message<M>>, starts: seq<int>, windows: seq<WindowData<S>>)
  {
    && |windows| == |starts|
    && forall i :: 0 <= i < |starts| ==>
                     && 0 <= starts[i] < |h|
                     && windows[i] == DataOf(a, aggregate, h[starts[i]..],
                                             if collect then starts[i] - base else windows[i].collectionId)
  }

  /** The first position that a live window covers. */
  function LowOf(n: int, starts: seq<int>): int { if starts != [] then starts[0] else n }

  /** The collection holds exactly the messages that live windows may still need. */
  ghost predicate Kept<M>(overlap: bool, h: seq<Message<M>>, starts: seq<int>, values: map<Span, M>, counter: int,
                          lastDeleted: int) {
    var low := LowOf(|h|, starts);
    && 0 <= low <= |h|
    && values == Stored(BaseOf(overlap, starts), Values(h), low, |h|) && counter == |h| - 1
    && -1 <= lastDeleted && (overlap ==> lastDeleted < Max(1, low))
  }

  /** Growing all windows, with a new one if due, gives the live windows of the extended stream. */
  lemma GrownLive<M, S, R>(a: Aggregator<M, S, R>, aggregate: bool, collect: bool, stride: int, overlap: bool,
                           h: seq<Message<M>>, m: Message<M>, starts: seq<int>, windows: seq<WindowData<S>>,
                           w0: seq<WindowData<S>>, id: int)
    requires stride > 0 && LiveData(a, aggregate, collect, BaseOf(overlap, starts), h, starts, windows)
    requires |w0| == |Due(stride, |h|, starts)| && w0[..|windows|] == windows
    requires |w0| > |windows| ==>
               w0[|windows|] == Fresh(a, m.ts, id)
               && (collect ==> id == |h| - BaseOf(overlap, Due(stride, |h|, starts)))
    ensures LiveData(a, aggregate, collect, BaseOf(overlap, Due(stride, |h|, starts)), h + [m],
                     Due(stride, |h|, starts), Grown(a, aggregate, w0, m))
  {
    hide DataOf, Fresh, Grow, Aligned;
    var due, grown := Due(stride, |h|, starts), Grown(a, aggregate, w0, m);
    forall i | 0 <= i < |due|
      ensures 0 <= due[i] < |h| + 1
      ensures grown[i]
              == DataOf(a, aggregate, (h + [m])[due[i]..],
                        if collect then due[i] - BaseOf(overlap, due) else grown[i].collectionId)
    {
      if i < |starts| {
        var kept := if collect then starts[i] - BaseOf(overlap, starts) else windows[i].collectionId;
        assert w0[i] == windows[i];
        assert (h + [m])[due[i]..] == h[starts[i]..] + [m];
        GrowOk(a, aggregate, h[starts[i]..], m, kept);
        GrowId(a, aggregate, h[starts[i]..], m, kept);
      } else {
        assert (h + [m])[due[i]..] == [] + [m];
        GrowOk(a, aggregate, [], m, id);
        GrowId(a, aggregate, [], m, id);
      }
    }
  }

  lemma GrowId<M, S, R>(a: Aggregator<M, S, R>, aggregate: bool, b: seq<Message<M>>, m: Message<M>, id: int)
    ensures b != [] ==> DataOf(a, aggregate, b, id).collectionId == id
    ensures DataOf(a, aggregate, b + [m], id).collectionId == id
  {
  }

  /** The first window gone, the rest stay live. */
  lemma DropLive<M, S, R>(a: Aggregator<M, S, R>, aggregate: bool, collect: bool, overlap: bool, h: seq<Message<M>>,
                          starts: seq<int>, windows: seq<WindowData<S>>)
    requires starts != [] && LiveData(a, aggregate, collect, BaseOf(overlap, starts), h, starts, windows)
    requires !overlap ==> |starts| == 1
    ensures LiveData(a, aggregate, collect, BaseOf(overlap, starts[1..]), h, starts[1..], windows[1..])
  {
    hide DataOf;
  }

  /** The message's value goes under the next free id. */
  lemma KeptAdd<M>(overlap: bool, stride: int, h: seq<Message<M>>, m: Message<M>, starts: seq<int>,
                   values: map<Span, M>, counter: int, lastDeleted: int)
    requires stride > 0 && Kept(overlap, h, starts, values, counter, lastDeleted)
    requires Due(stride, |h|, starts) != []
    ensures counter == |h| - 1
    ensures var due := Due(stride, |h|, starts);
            Kept(overlap, h + [m], due, values[Span(|h| - BaseOf(overlap, due), |h|) := m.value], counter + 1,
                 lastDeleted)
  {
    hide Aligned;
    var due := Due(stride, |h|, starts);
    assert Values(h + [m]) == Values(h) + [m.value];
    var low := LowOf(|h|, starts);
    if starts == [] {
      assert Stored(BaseOf(overlap, starts), Values(h), |h|, |h|) == map[];
      assert Stored(BaseOf(overlap, due), Values(h), |h|, |h|) == map[];
    }
    StoredSnoc(BaseOf(overlap, due), Values(h), low, m.value);
  }

  /** Completing a window drops exactly the values that no later window needs. */
  lemma KeptPrune<M>(overlap: bool, stride: int, h: seq<Message<M>>, starts: seq<int>, values: map<Span, M>,
                     counter: int, before: int, values1: map<Span, M>, after: int)
    requires starts != [] && Kept(overlap, h, starts, values, counter, before) && 0 < stride
             && starts[0] + stride <= |h|
    requires if |starts| > 1 then overlap && starts[1] == starts[0] + stride else !overlap && starts[0] + stride == |h|
    requires var from, upTo := if overlap then before else 0, starts[0] - BaseOf(overlap, starts) + stride;
             values1 == Pruned(values, from, upTo) && PrunedIndex(values, from, upTo, before, after)
    ensures Kept(overlap, h, starts[1..], values1, counter, after)
  {
    hide Stored, Pruned;
    var base, low := BaseOf(overlap, starts), starts[0];
    var from, upTo := if overlap then before else 0, low - base + stride;
    PrunedStored(base, Values(h), low, |h|, from, low + stride);
    if starts[1..] == [] {
      StoredEmpty(base, BaseOf(overlap, starts[1..]), Values(h));
    }
    var gone := Gone(values, from, upTo);
    assert forall s :: s in gone ==> 0 <= s.start < upTo;
  }

  /** What a full window emits. */
  function FullResult<M, S, R>(a: Aggregator<M, S, R>, collect: bool, count: int, w: WindowData<S>,
                               values: map<Span, M>): Result<M, R> {
    Result(w.start, w.end, a.result(w.agg),
           if collect then Collected(values, w.collectionId, w.collectionId + count) else [])
  }

  /**
   * What completing a window does to the collection: from 0 for tumbling windows, from the deletion
   * index for hopping ones.
   */
  ghost predicate Dropped<M, S>(collect: bool, count: int, step: int, w: WindowData<S>, values: map<Span, M>,
                                before: int, values1: map<Span, M>, after: int) {
    if collect then
      var from, upTo := if step != 0 then before else 0, w.collectionId + if step == 0 then count else step;
      values1 == Pruned(values, from, upTo) && PrunedIndex(values, from, upTo, before, after)
    else
      values1 == values && after == before
  }

  /** Whether a window completed by message n collects its own values alone: with large steps only the first two do. */
  predicate CollectsOwn(collect: bool, count: int, step: int, n: int) {
    !collect || step < count || n <= 2 * count
  }

  /** r has the bounds and the value it should have, and is all it should be exactly if own. */
  ghost predicate Matches<M, R>(r: Result<M, R>, ideal: Result<M, R>, own: bool) {
    r.start == ideal.start && r.end == ideal.end && r.value == ideal.value && (r == ideal <==> own)
  }

  /** What a full first window collects is what it should be unless deletion has left older values behind. */
  lemma FirstCollected<M>(count: int, step: int, h: seq<Message<M>>, starts: seq<int>, values: map<Span, M>,
                          counter: int, lastDeleted: int)
    requires starts != [] && 0 <= starts[0] && starts[0] + count == |h| && 0 < count
    requires CollectionOk(count, step, h, starts, values, counter, lastDeleted)
    ensures var id := starts[0] - BaseOf(Overlaps(count, step), starts);
            Collected(values, id, id + count) == Values(h[|h| - count..]) <==> CollectsOwn(true, count, step, |h|)
  {
    hide Stored, Collected, Stale;
    var low := starts[0];
    assert Values(h)[low..] == Values(h[low..]);
    if step < count {
      CollectedStored(BaseOf(Overlaps(count, step), starts), Values(h), low, |h|, low, low + count);
      assert Values(h)[low..low + count] == Values(h)[low..];
    } else {
      CollectsIff(values, Values(h), low, count, lastDeleted);
    }
  }

  /** A full first window yields the result over its messages, its collection as far as it is exact. */
  lemma FirstResult<M, S, R>(a: Aggregator<M, S, R>, aggregate: bool, collect: bool, count: int, step: int,
                             h: seq<Message<M>>, starts: seq<int>, windows: seq<WindowData<S>>, values: map<Span, M>,
                             counter: int, lastDeleted: int)
    requires starts != [] && LiveData(a, aggregate, collect, BaseOf(Overlaps(count, step), starts), h, starts, windows)
    requires starts[0] + count == |h| && 0 < count
    requires collect ==> CollectionOk(count, step, h, starts, values, counter, lastDeleted)
    ensures Matches(FullResult(a, collect, count, windows[0], values),
                    ResultOf(a, aggregate, collect, h[|h| - count..]), CollectsOwn(collect, count, step, |h|))
  {
    hide CollectionOk, Collected;
    if collect {
      FirstCollected(count, step, h, starts, values, counter, lastDeleted);
    }
  }

  lemma CollectionAdd<M>(count: int, step: int, h: seq<Message<M>>, m: Message<M>, starts: seq<int>,
                         values: map<Span, M>, counter: int, lastDeleted: int)
    requires 2 <= count && 0 <= step && CollectionOk(count, step, h, starts, values, counter, lastDeleted)
    requires Starts(count, StrideOf(count, step), |h|, starts)
    ensures counter == |h| - 1
    ensures var due := Due(StrideOf(count, step), |h|, starts);
            CollectionOk(count, step, h + [m], due,
                         values[Span(|h| - BaseOf(Overlaps(count, step), due), |h|) := m.value], counter + 1,
                         lastDeleted)
  {
    hide Stale, Kept, Stepping;
    var due := Due(StrideOf(count, step), |h|, starts);
    DueSteps(count, StrideOf(count, step), |h|, starts);
    if step < count {
      KeptAdd(Overlaps(count, step), StrideOf(count, step), h, m, starts, values, counter, lastDeleted);
    } else {
      assert Values(h + [m]) == Values(h) + [m.value];
      StaleAdd(values, Values(h), LowOf(|h|, starts), count, lastDeleted, m.value);
    }
  }

  lemma CollectionPrune<M, S>(count: int, step: int, h: seq<Message<M>>, starts: seq<int>, w: WindowData<S>,
                              values: map<Span, M>, counter: int, before: int, values1: map<Span, M>, after: int)
    requires 2 <= count && 0 <= step && starts != [] && starts[0] + count == |h|
    requires CollectionOk(count, step, h, starts, values, counter, before)
    requires if |starts| > 1 then Overlaps(count, step) && starts[1] == starts[0] + step else !Overlaps(count, step)
    requires w.collectionId == starts[0] - BaseOf(Overlaps(count, step), starts)
    requires Dropped(true, count, step, w, values, before, values1, after)
    ensures CollectionOk(count, step, h, starts[1..], values1, counter, after)
  {
    hide Stale, Kept, Pruned, PrunedIndex;
    if step < count {
      KeptPrune(Overlaps(count, step), StrideOf(count, step), h, starts, values, counter, before, values1, after);
    } else {
      StalePrune(values, Values(h), starts[0], count, step, before, values1, after);
    }
  }

  /** The windows a message updates show the results so far, from each live start on. */
  lemma UpdatedResults<M, S, R>(a: Aggregator<M, S, R>, aggregate: bool, collect: bool, base: int, h: seq<Message<M>>,
                                starts: seq<int>, windows: seq<WindowData<S>>)
    requires LiveData(a, aggregate, collect, base, h, starts, windows)
    ensures forall i :: 0 <= i < |starts| ==>
                          Result(windows[i].start, windows[i].end, a.result(windows[i].agg), [])
                          == ResultOf(a, aggregate, false, h[starts[i]..])
  {
  }

  lemma LiveCounts<M, S, R>(a: Aggregator<M, S, R>, aggregate: bool, collect: bool, base: int, h: seq<Message<M>>,
                            starts: seq<int>, windows: seq<WindowData<S>>)
    requires LiveData(a, aggregate, collect, base, h, starts, windows)
    ensures |windows| == |starts|
    ensures forall i :: 0 <= i < |starts| ==> 0 <= starts[i] < |h| && windows[i].count == |h| - starts[i]
    ensures collect ==> forall i :: 0 <= i < |starts| ==> windows[i].collectionId == starts[i] - base
  {
  }

  /** When the first window fills, hopping windows have a second one a step on; a tumbling window stands alone. */
  lemma SecondStart(count: int, step: int, n: int, starts: seq<int>)
    requires 2 <= count && 0 <= step && 0 <= n
    requires Starts(count, StrideOf(count, step), n, starts)
    ensures var due := Due(StrideOf(count, step), n, starts);
            && due != []
            && (|due| > 1 ==> due[1] == due[0] + StrideOf(count, step))
            && (n + 1 - due[0] >= count ==> if |due| > 1 then Overlaps(count, step) else !Overlaps(count, step))
  {
    hide Aligned;
    var stride := StrideOf(count, step);
    DueSteps(count, stride, n, starts);
    NextStarts(count, stride, n, starts);
  }

  lemma DueFirst(count: int, step: int, n: int, starts: seq<int>)
    requires 2 <= count && 0 <= step && 0 <= n
    requires Starts(count, StrideOf(count, step), n, starts)
    ensures var due := Due(StrideOf(count, step), n, starts);
            && due != [] && |starts| <= |due| && due[..|starts|] == starts
            && (starts != [] ==> BaseOf(Overlaps(count, step), due) == BaseOf(Overlaps(count, step), starts))
            && (starts == [] ==> due == [n] && n - BaseOf(Overlaps(count, step), due) == 0)
  {
    hide Aligned;
    DueIff(count, StrideOf(count, step), n, starts);
  }

  /** s starts a live window once n messages are in: its window is not yet full before the last of them. */
  predicate LiveAt(count: int, step: int, n: int, s: int)
    requires 2 <= count && 0 <= step
  {
    0 <= s < n <= s + count && Aligned(s, StrideOf(count, step))
  }

  /** A window is complete after n messages exactly when it starts count messages back, at a whole number of strides. */
  predicate FullAt(count: int, step: int, n: int)
    requires 2 <= count && 0 <= step
  {
    n >= count && Aligned(n - count, StrideOf(count, step))
  }

  ghost predicate Increasing(x: seq<int>) {
    forall i, j :: 0 <= i < j < |x| ==> x[i] < x[j]
  }

  /** due lists the live starts after n messages in order; the first is full exactly when a window is complete. */
  ghost predicate Tells(count: int, step: int, n: int, due: seq<int>) {
    && 2 <= count && 0 <= step && due != [] && Increasing(due)
    && (forall s :: s in due <==> LiveAt(count, step, n, s))
    && (n - due[0] >= count <==> FullAt(count, step, n))
  }

  lemma DueTells(count: int, step: int, n: int, starts: seq<int>)
    requires 2 <= count && 0 <= step && 0 <= n && Starts(count, StrideOf(count, step), n, starts)
    ensures Tells(count, step, n + 1, Due(StrideOf(count, step), n, starts))
  {
    hide Aligned, Starts, Due;
    var stride := StrideOf(count, step);
    var due := Due(stride, n, starts);
    FillsFirst(count, stride, n, starts);
    DueSteps(count, stride, n, starts);
    SteppingIncreases(stride, n + 1, due);
    forall s ensures s in due <==> LiveAt(count, step, n + 1, s) {
      if s in due {
        var i :| 0 <= i < |due| && due[i] == s;
      }
      if LiveAt(count, step, n + 1, s) {
        if s < due[0] {
          AlignedApart(s, due[0], stride);
        }
        SteppingFinds(stride, n + 1, due, s);
      }
    }
  }

  lemma {:induction false} SteppingIncreases(step: int, n: int, due: seq<int>)
    requires step > 0 && Stepping(step, n, due)
    ensures Increasing(due)
  {
    forall i, j | 0 <= i < j < |due| ensures due[i] < due[j] {
      StepsApart(step, due[i..j + 1]);
      assert due[i..j + 1][j - i] == due[j];
    }
  }

  /** Every aligned position from the first listed one up to n is listed. */
  lemma {:induction false} SteppingFinds(step: int, n: int, due: seq<int>, s: int)
    requires step > 0 && Stepping(step, n, due) && due != []
    requires due[0] <= s < n && Aligned(s, step)
    ensures s in due
    decreases |due|
  {
    hide Aligned;
    if s != due[0] {
      AlignedApart(due[0], s, step);
      if |due| > 1 {
        assert Stepping(step, n, due[1..]);
        SteppingFinds(step, n, due[1..], s);
      }
    }
  }

  lemma GrownCounts<M, S, R>(a: Aggregator<M, S, R>, aggregate: bool, windows: seq<WindowData<S>>, m: Message<M>)
    ensures forall i :: 0 <= i < |windows| ==>
                          && Grown(a, aggregate, windows, m)[i].count == windows[i].count + 1
                          && Grown(a, aggregate, windows, m)[i].collectionId == windows[i].collectionId
  {
  }

  lemma StoredEmpty<M>(base: int, base1: int, h: seq<M>)
    ensures Stored(base, h, |h|, |h|) == map[] && Stored(base1, h, |h|, |h|) == map[]
  {
  }

  /**
   * Hopping windows overlap when the step is below their size; with a larger one the next message
   * opens the next window.
   */
  predicate Overlaps(count: int, step: int) { 0 < step < count }

  /**
   * The distance between window starts: the step if windows overlap, else their size; step 0 stands
   * for tumbling windows.
   */
  function StrideOf(count: int, step: int): int { if Overlaps(count, step) then step else count }

  /**
   * What is stored of the collection: what live windows may still need, or with large steps also
   * what deletion left behind.
   */
  ghost predicate CollectionOk<M>(count: int, step: int, h: seq<Message<M>>, starts: seq<int>, values: map<Span, M>,
                                  counter: int, lastDeleted: int) {
    if step < count then
      Kept(Overlaps(count, step), h, starts, values, counter, lastDeleted)
    else
      counter == |h| - 1 && Stale(values, Values(h), LowOf(|h|, starts), count, lastDeleted)
  }

  /** What the stored state of a key must be after the messages h. */
  ghost predicate Exact<M, S, R>(a: Aggregator<M, S, R>, aggregate: bool, collect: bool, count: int, step: int,
                                 h: seq<Message<M>>, starts: seq<int>, windows: seq<WindowData<S>>,
                                 values: map<Span, M>, counter: int, lastDeleted: int) {
    && 2 <= count && 0 <= step
    && Starts(count, StrideOf(count, step), |h|, starts)
    && LiveData(a, aggregate, collect, BaseOf(Overlaps(count, step), starts), h, starts, windows)
    && (collect ==> CollectionOk(count, step, h, starts, values, counter, lastDeleted))
  }

  /** The windows once a new one has been opened if due, and the id the message's value will get. */
  ghost predicate Opened<M, S, R>(a: Aggregator<M, S, R>, collect: bool, count: int, step: int, h: seq<Message<M>>,
                                  ts: int, starts: seq<int>, windows: seq<WindowData<S>>, open: seq<WindowData<S>>,
                                  id: int)
    requires 2 <= count && 0 <= step
  {
    && open != [] && |open| == |Due(StrideOf(count, step), |h|, starts)| && |windows| <= |open|
    && open[..|windows|] == windows
    && (|open| > |windows| ==> open[|windows|] == Fresh(a, ts, id))
    && (collect && starts == [] ==> id == 0)
    && (collect && starts != [] ==> id == -1 || id == |h| - BaseOf(Overlaps(count, step), starts))
    && (collect && |open| > |windows| ==>
            id == |h| - if starts == [] then |h| else BaseOf(Overlaps(count, step), starts))
  }

  /**
   * After opening: every window but the first stays short of full, and the next free id follows
   * from the first window.
   */
  lemma OpenedOk<M, S, R>(a: Aggregator<M, S, R>, aggregate: bool, collect: bool, count: int, step: int,
                          h: seq<Message<M>>, m: Message<M>, starts: seq<int>, windows: seq<WindowData<S>>,
                          values: map<Span, M>, counter: int, lastDeleted: int, open: seq<WindowData<S>>, id: int)
    requires Exact(a, aggregate, collect, count, step, h, starts, windows, values, counter, lastDeleted)
    requires Opened(a, collect, count, step, h, m.ts, starts, windows, open, id)
    ensures var due := Due(StrideOf(count, step), |h|, starts);
            && LiveData(a, aggregate, collect, BaseOf(Overlaps(count, step), due), h + [m], due,
                        Grown(a, aggregate, open, m))
            && open != [] && (forall i :: 1 <= i < |open| ==> open[i].count + 1 < count)
            && (collect ==>
                  |h| - BaseOf(Overlaps(count, step), due)
                  == if id == -1 then open[0].collectionId + open[0].count else id)
  {
    hide DataOf, CollectionOk, Aligned, Starts, Grow, Fresh;
    var stride := StrideOf(count, step);
    var due, grown := Due(stride, |h|, starts), Grown(a, aggregate, open, m);
    FillsFirst(count, stride, |h|, starts);
    DueFirst(count, step, |h|, starts);
    LiveCounts(a, aggregate, collect, BaseOf(Overlaps(count, step), starts), h, starts, windows);
    GrownLive(a, aggregate, collect, stride, Overlaps(count, step), h, m, starts, windows, open, id);
    LiveCounts(a, aggregate, collect, BaseOf(Overlaps(count, step), due), h + [m], due, grown);
    GrownCounts(a, aggregate, open, m);
    hide LiveData;
  }

  /** The first window's count tells whether a window is due. */
  lemma FirstTells<M, S, R>(a: Aggregator<M, S, R>, aggregate: bool, collect: bool, count: int, step: int,
                            h: seq<Message<M>>, starts: seq<int>, windows: seq<WindowData<S>>, values: map<Span, M>,
                            counter: int, lastDeleted: int)
    requires Exact(a, aggregate, collect, count, step, h, starts, windows, values, counter, lastDeleted)
    ensures 2 <= count && 0 <= step && |windows| == |starts|
    ensures starts == [] ==> |h| == 0 || !Overlaps(count, step)
    ensures Due(StrideOf(count, step), |h|, starts)
            == if windows == [] || (step != 0 && Aligned(windows[0].count, step)) then starts + [|h|] else starts
  {
    hide DataOf, CollectionOk, Aligned;
    LiveCounts(a, aggregate, collect, BaseOf(Overlaps(count, step), starts), h, starts, windows);
    hide LiveData;
    DueIff(count, StrideOf(count, step), |h|, starts);
    StepsApart(StrideOf(count, step), starts);
    if starts != [] && step >= count {
      NotFull(count, count, |h|, starts);
      NotAligned(windows[0].count, step);
      NotAligned(windows[0].count, count);
    }
  }

  lemma NotAligned(x: int, step: int)
    requires 0 < x < step
    ensures !Aligned(x, step)
  {
  }

  /** The first window's id and count give the next free id. */
  lemma FirstId<M, S, R>(a: Aggregator<M, S, R>, aggregate: bool, collect: bool, count: int, step: int,
                         h: seq<Message<M>>, starts: seq<int>, windows: seq<WindowData<S>>, values: map<Span, M>,
                         counter: int, lastDeleted: int)
    requires Exact(a, aggregate, collect, count, step, h, starts, windows, values, counter, lastDeleted)
    ensures |windows| == |starts|
    ensures collect && windows != [] ==>
              windows[0].collectionId + windows[0].count == |h| - BaseOf(Overlaps(count, step), starts)
  {
    hide DataOf, CollectionOk, Starts;
    LiveCounts(a, aggregate, collect, BaseOf(Overlaps(count, step), starts), h, starts, windows);
    hide LiveData;
  }

  /** The state before a full window is removed, and which window is full. */
  ghost predicate Ready<M, S, R>(a: Aggregator<M, S, R>, aggregate: bool, collect: bool, count: int, step: int,
                                 h: seq<Message<M>>, due: seq<int>, grown: seq<WindowData<S>>, values: map<Span, M>,
                                 counter: int, lastDeleted: int) {
    && 2 <= count && 0 <= step && due != []
    && Starts(count, StrideOf(count, step), |h|, if |h| - due[0] >= count then due[1..] else due)
    && (|due| > 1 ==> due[1] == due[0] + StrideOf(count, step))
    && (|h| - due[0] >= count ==>
            due[0] + count == |h| && if |due| > 1 then Overlaps(count, step) else !Overlaps(count, step))
    && LiveData(a, aggregate, collect, BaseOf(Overlaps(count, step), due), h, due, grown)
    && (collect ==> CollectionOk(count, step, h, due, values, counter, lastDeleted))
  }

  /** After the message has gone into the windows and the collection. */
  lemma ReadyOk<M, S, R>(a: Aggregator<M, S, R>, aggregate: bool, collect: bool, count: int, step: int,
                         h: seq<Message<M>>, m: Message<M>, starts: seq<int>, windows: seq<WindowData<S>>,
                         values: map<Span, M>, counter: int, lastDeleted: int, open: seq<WindowData<S>>, id: int)
    requires Exact(a, aggregate, collect, count, step, h, starts, windows, values, counter, lastDeleted)
    requires Opened(a, collect, count, step, h, m.ts, starts, windows, open, id)
    ensures var due := Due(StrideOf(count, step), |h|, starts);
            var id1 := if id == -1 then open[0].collectionId + open[0].count else id;
            && Ready(a, aggregate, collect, count, step, h + [m], due, Grown(a, aggregate, open, m),
                     if collect then values[Span(id1, counter + 1) := m.value] else values,
                     if collect then counter + 1 else counter, lastDeleted)
            && Tells(count, step, |h| + 1, due)
  {
    hide DataOf, CollectionOk, LiveData, Aligned, Starts, Grow, Fresh, Grown;
    var stride := StrideOf(count, step);
    OpenedOk(a, aggregate, collect, count, step, h, m, starts, windows, values, counter, lastDeleted, open, id);
    FillsFirst(count, stride, |h|, starts);
    NextStarts(count, stride, |h|, starts);
    SecondStart(count, step, |h|, starts);
    DueTells(count, step, |h|, starts);
    if collect {
      CollectionAdd(count, step, h, m, starts, values, counter, lastDeleted);
    }
  }

  /** What comes out of a full first window, and the state without it. */
  lemma CompletedOk<M, S, R>(a: Aggregator<M, S, R>, aggregate: bool, collect: bool, count: int, step: int,
                             h: seq<Message<M>>, due: seq<int>, grown: seq<WindowData<S>>, values: map<Span, M>,
                             counter: int, before: int, values1: map<Span, M>, after: int)
    requires Ready(a, aggregate, collect, count, step, h, due, grown, values, counter, before) && |h| - due[0] >= count
    requires grown != [] && Dropped(collect, count, step, grown[0], values, before, values1, after)
    ensures Exact(a, aggregate, collect, count, step, h, due[1..], grown[1..], values1, counter, after)
    ensures Matches(FullResult(a, collect, count, grown[0], values), ResultOf(a, aggregate, collect, h[|h| - count..]),
                    CollectsOwn(collect, count, step, |h|))
  {
    hide DataOf, CollectionOk, LiveData, Aligned, Starts, Pruned, PrunedIndex, Collected, ResultOf, Matches;
    var stride := StrideOf(count, step);
    LiveCounts(a, aggregate, collect, BaseOf(Overlaps(count, step), due), h, due, grown);
    FirstResult(a, aggregate, collect, count, step, h, due, grown, values, counter, before);
    DropLive(a, aggregate, collect, Overlaps(count, step), h, due, grown);
    if collect {
      CollectionPrune(count, step, h, due, grown[0], values, counter, before, values1, after);
    }
  }

  /**
   * Without a full window the state is already the one for the longer stream; either way the counts
   * say which case it is.
   */
  lemma ReadyCounts<M, S, R>(a: Aggregator<M, S, R>, aggregate: bool, collect: bool, count: int, step: int,
                             h: seq<Message<M>>, due: seq<int>, grown: seq<WindowData<S>>, values: map<Span, M>,
                             counter: int, lastDeleted: int)
    requires Ready(a, aggregate, collect, count, step, h, due, grown, values, counter, lastDeleted)
    ensures |grown| == |due| > 0 && grown[0].count == |h| - due[0]
    ensures |h| - due[0] < count ==>
              Exact(a, aggregate, collect, count, step, h, due, grown, values, counter, lastDeleted)
    ensures forall i :: 0 <= i < |due| ==>
                          && 0 <= due[i] < |h|
                          && Result(grown[i].start, grown[i].end, a.result(grown[i].agg), [])
                             == ResultOf(a, aggregate, false, h[due[i]..])
  {
    hide DataOf, ResultOf, CollectionOk, Aligned, Starts;
    LiveCounts(a, aggregate, collect, BaseOf(Overlaps(count, step), due), h, due, grown);
    UpdatedResults(a, aggregate, collect, BaseOf(Overlaps(count, step), due), h, due, grown);
  }

  /** The windows that come out with the last message of h. */
  ghost predicate Emits<M, S, R>(a: Aggregator<M, S, R>, aggregate: bool, collect: bool, count: int, step: int,
                                       h: seq<Message<M>>, expired: seq<Result<M, R>>) {
    && 2 <= count && 0 <= step
    && if FullAt(count, step, |h|) then
         && |expired| == 1
         && Matches(expired[0], ResultOf(a, aggregate, collect, h[|h| - count..]),
                    CollectsOwn(collect, count, step, |h|))
       else
         expired == []
  }

  /** The windows updated by the last message of h: one for every live start, with the results so far. */
  ghost predicate Updates<M, S, R>(a: Aggregator<M, S, R>, aggregate: bool, count: int, step: int, h: seq<Message<M>>,
                                   due: seq<int>, updated: seq<Result<M, R>>) {
    && 2 <= count && 0 <= step
    && Increasing(due) && (forall s :: s in due <==> LiveAt(count, step, |h|, s))
    && |updated| == (if aggregate then |due| else 0)
    && forall i :: 0 <= i < |updated| ==>
                     && due[i] in due && 0 <= due[i] < |h|
                     && updated[i] == ResultOf(a, aggregate, false, h[due[i]..])
  }

  lemma EmitsOk<M, S, R>(a: Aggregator<M, S, R>, aggregate: bool, collect: bool, count: int, step: int,
                         h: seq<Message<M>>, due: seq<int>, expired: seq<Result<M, R>>)
    requires Tells(count, step, |h|, due)
    requires if |h| - due[0] < count then expired == [] else
               && |expired| == 1
               && Matches(expired[0], ResultOf(a, aggregate, collect, h[|h| - count..]),
                          CollectsOwn(collect, count, step, |h|))
    ensures Emits(a, aggregate, collect, count, step, h, expired)
  {
  }

  lemma UpdatesOk<M, S, R>(a: Aggregator<M, S, R>, aggregate: bool, count: int, step: int, h: seq<Message<M>>,
                           due: seq<int>, grown: seq<WindowData<S>>, updated: seq<Result<M, R>>)
    requires Tells(count, step, |h|, due)
    requires |grown| == |due| && |updated| == if aggregate then |due| else 0
    requires forall i :: 0 <= i < |updated| ==>
               updated[i] == Result(grown[i].start, grown[i].end, a.result(grown[i].agg), [])
    requires forall i :: 0 <= i < |due| ==>
                           && 0 <= due[i] < |h|
                           && Result(grown[i].start, grown[i].end, a.result(grown[i].agg), [])
                              == ResultOf(a, aggregate, false, h[due[i]..])
    ensures Updates(a, aggregate, count, step, h, due, updated)
  {
    hide ResultOf;
  }

  /** A key never stores as many values as a window holds: the full window's have just gone. */
  lemma StoresFewerThanCount<M, S, R>(a: Aggregator<M, S, R>, aggregate: bool, count: int, step: int,
                                      h: seq<Message<M>>, starts: seq<int>, windows: seq<WindowData<S>>,
                                      values: map<Span, M>, counter: int, lastDeleted: int)
    requires Exact(a, aggregate, true, count, step, h, starts, windows, values, counter, lastDeleted) && step < count
    ensures |values| < count
  {
    hide LiveData, Stored;
    var low := LowOf(|h|, starts);
    StoredSize(BaseOf(Overlaps(count, step), starts), Values(h), low, |h|);
    if starts != [] {
      NotFull(count, StrideOf(count, step), |h|, starts);
    }
  }

  lemma NotFull(count: int, step: int, n: int, starts: seq<int>)
    requires step > 0 && Starts(count, step, n, starts) && starts != []
    ensures n - starts[0] < count
  {
  }

  class CountWindow<!M, !S, R> {
    const count: int
    const step: int
    const a: Aggregator<M, S, R>
    const aggregate: bool
    const collect: bool

    var windows: seq<WindowData<S>>
    var values: map<Span, M>
    var lastDeleted: int
    var counter: int

    /** The messages of the key so far, and where its live windows start among them. */
    ghost var h: seq<Message<M>>
    ghost var starts: seq<int>

    ghost function Stride(): int { StrideOf(count, step) }

    ghost predicate Valid()
      reads this
    {
      Exact(a, aggregate, collect, count, step, h, starts, windows, values, counter, lastDeleted)
    }

    lemma ValidIs()
      ensures Valid() <==> Exact(a, aggregate, collect, count, step, h, starts, windows, values, counter, lastDeleted)
    {
    }

    lemma StrideIs()
      requires Valid()
      ensures 2 <= count && 0 <= step && StrideOf(count, step) > 0
    {
    }

    constructor (count: int, step: int, a: Aggregator<M, S, R>, aggregate: bool, collect: bool)
      requires 2 <= count && 0 <= step
      ensures Valid() && h == []
      ensures this.count == count && this.step == step && this.a == a && this.aggregate == aggregate
              && this.collect == collect
    {
      this.count, this.step, this.a, this.aggregate, this.collect := count, step, a, aggregate, collect;
      windows, values, lastDeleted, counter := [], map[], -1, -1;
      h, starts := [], [];
      new;
      AlignedSelf(Stride());
      assert values == Stored(0, Values(h), 0, |h|);
      assert Values(h) == [];
      StaleStart<M>(count);
    }

    /** A new window is appended when none is live or the first one stands at a whole number of steps. */
    method OpenIfDue(ts: int) returns (collectionId: int)
      requires Valid()
      modifies this`windows
      ensures Opened(a, collect, count, step, h, ts, starts, old(windows), windows, collectionId)
    {
      FirstTells(a, aggregate, collect, count, step, h, starts, windows, values, counter, lastDeleted);
      FirstId(a, aggregate, collect, count, step, h, starts, windows, values, counter, lastDeleted);
      hide Exact, Fresh, Stepping, Due;
      collectionId := -1;
      if |windows| == 0 {
        collectionId := 0;
        windows := windows + [Fresh(a, ts, collectionId)];
      } else if step != 0 && windows[0].count % step == 0 {
        if collect {
          collectionId := windows[0].collectionId + windows[0].count;
        }
        windows := windows + [Fresh(a, ts, collectionId)];
      }
    }

    /** delete_from_collection: a missing start means the deletion index. */
    method DeleteFromCollection(upTo: int, useIndex: bool)
      modifies this`values, this`lastDeleted
      ensures var from := if useIndex then old(lastDeleted) else 0;
              && values == Pruned(old(values), from, upTo)
              && PrunedIndex(old(values), from, upTo, old(lastDeleted), lastDeleted)
    {
      hide Pruned, PrunedIndex, Collected, Ascending;
      var from := if useIndex then lastDeleted else 0;
      ghost var keys := Sorted(Gone(values, from, upTo));
      ghost var stored, before := values, lastDeleted;
      values, lastDeleted := Prune(values, from, upTo, lastDeleted);
      IndexOfSorted(stored, from, upTo, keys, before, lastDeleted);
    }

    /** A full window: its result with what it collected; the values no later window needs are dropped. */
    method Complete(w: WindowData<S>) returns (r: Result<M, R>)
      modifies this`values, this`lastDeleted
      ensures r == FullResult(a, collect, count, w, old(values))
      ensures Dropped(collect, count, step, w, old(values), old(lastDeleted), values, lastDeleted)
    {
      var collected := [];
      if collect {
        collected := Collected(values, w.collectionId, w.collectionId + count);
        var stride := if step == 0 then count else step;
        DeleteFromCollection(w.collectionId + stride, step != 0);
      }
      r := Result(w.start, w.end, a.result(w.agg), collected);
    }

    /**
     * The message's value under the next free id: its position in the window (tumbling) or in the
     * key's stream (hopping).
     */
    method AddToCollection(id: int, v: M)
      modifies this`values, this`counter
      ensures counter == old(counter) + 1 && values == old(values)[Span(id, counter) := v]
    {
      counter := counter + 1;
      values := values[Span(id, counter) := v];
    }

    /** The windows all take the message; those that fill are completed and listed for removal. */
    method GrowAll(m: Message<M>) returns (updated: seq<Result<M, R>>, expired: seq<Result<M, R>>, toRemove: seq<int>)
      requires windows != [] && forall i :: 1 <= i < |windows| ==> windows[i].count + 1 < count
      modifies this`windows, this`values, this`lastDeleted
      ensures windows == Grown(a, aggregate, old(windows), m)
      ensures toRemove == if windows[0].count >= count then [0] else []
      ensures toRemove == [] ==> expired == [] && values == old(values) && lastDeleted == old(lastDeleted)
      ensures toRemove != [] ==>
                && expired == [FullResult(a, collect, count, windows[0], old(values))]
                && Dropped(collect, count, step, windows[0], old(values), old(lastDeleted), values, lastDeleted)
      ensures |updated| == if aggregate then |windows| else 0
      ensures forall i :: 0 <= i < |updated| ==>
                updated[i] == Result(windows[i].start, windows[i].end, a.result(windows[i].agg), [])
    {
      hide FullResult, Dropped;
      updated, expired, toRemove := [], [], [];
      ghost var w0 := windows;
      for i := 0 to |windows|
        invariant |windows| == |w0|
        invariant forall k :: 0 <= k < i ==> windows[k] == Grow(a, aggregate, w0[k], m)
        invariant forall k :: i <= k < |w0| ==> windows[k] == w0[k]
        invariant toRemove == if i > 0 && windows[0].count >= count then [0] else []
        invariant toRemove == [] ==> expired == [] && values == old(values) && lastDeleted == old(lastDeleted)
        invariant toRemove != [] ==>
                    && expired == [FullResult(a, collect, count, windows[0], old(values))]
                    && Dropped(collect, count, step, windows[0], old(values), old(lastDeleted), values, lastDeleted)
        invariant |updated| == if aggregate then i else 0
        invariant forall k :: 0 <= k < |updated| ==>
                    updated[k] == Result(windows[k].start, windows[k].end, a.result(windows[k].agg), [])
      {
        var w := windows[i].(count := windows[i].count + 1);
        if m.ts < w.start {
          w := w.(start := m.ts);
        } else if m.ts > w.end {
          w := w.(end := m.ts);
        }
        if aggregate {
          w := w.(agg := a.agg(w.agg, m.value, m.ts));
          updated := updated + [Result(w.start, w.end, a.result(w.agg), [])];
        }
        windows := windows[i := w];
        if w.count >= count {
          toRemove := toRemove + [i];
          var r := Complete(w);
          expired := expired + [r];
        }
      }
    }

    /** Removes the listed windows by index, in the order listed. */
    method RemoveAll(toRemove: seq<int>)
      requires toRemove == [] || (toRemove == [0] && windows != [])
      modifies this`windows
      ensures windows == if toRemove == [] then old(windows) else old(windows)[1..]
    {
      for i := 0 to |toRemove|
        invariant windows == if i == 0 then old(windows) else old(windows)[1..]
      {
        windows := windows[..toRemove[i]] + windows[toRemove[i] + 1..];
      }
    }

    /** Opens a window if one is due and collects the message's value; the windows have yet to take the message. */
    method AddMessage(m: Message<M>) returns (ghost due: seq<int>)
      requires Valid()
      modifies this`windows, this`values, this`counter
      ensures Ready(a, aggregate, collect, count, step, h + [m], due, Grown(a, aggregate, windows, m), values, counter,
                    lastDeleted)
      ensures windows != [] && forall i :: 1 <= i < |windows| ==> windows[i].count + 1 < count
      ensures Tells(count, step, |h| + 1, due)
    {
      hide *;
      StrideIs();
      ValidIs();
      due := Due(StrideOf(count, step), |h|, starts);
      ghost var stored := windows;
      var id := OpenIfDue(m.ts);
      OpenedOk(a, aggregate, collect, count, step, h, m, starts, stored, values, counter, lastDeleted, windows, id);
      ReadyOk(a, aggregate, collect, count, step, h, m, starts, stored, values, counter, lastDeleted, windows, id);
      if collect {
        if id == -1 {
          id := windows[0].collectionId + windows[0].count;
        }
        AddToCollection(id, m.value);
      }
    }

    /**
     * One message. A window comes out exactly when count messages have gathered at a whole number
     * of strides, and it covers exactly the last count messages: their time bounds, their fold,
     * and their values in order. The updated windows are those of all live starts, in order.
     */
    method ProcessWindow(m: Message<M>)
      returns (updated: seq<Result<M, R>>, expired: seq<Result<M, R>>, ghost due: seq<int>)
      requires Valid()
      modifies this
      ensures Valid() && h == old(h) + [m]
      ensures Emits(a, aggregate, collect, count, step, h, expired)
      ensures Updates(a, aggregate, count, step, h, due, updated)
    {
      hide *;
      due := AddMessage(m);
      ghost var h1, grown, kept, deleted := h + [m], Grown(a, aggregate, windows, m), values, lastDeleted;
      ReadyCounts(a, aggregate, collect, count, step, h1, due, grown, kept, counter, deleted);
      var toRemove;
      updated, expired, toRemove := GrowAll(m);
      if toRemove != [] {
        CompletedOk(a, aggregate, collect, count, step, h1, due, grown, kept, counter, deleted, values, lastDeleted);
      }
      RemoveAll(toRemove);
      EmitsOk(a, aggregate, collect, count, step, h1, due, expired);
      UpdatesOk(a, aggregate, count, step, h1, due, grown, updated);
      h := h1;
      starts := if toRemove == [] then due else due[1..];
      ValidIs();
    }
  }
}
