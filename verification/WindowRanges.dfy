/** The tumbling or hopping windows of a timestamp (windows/base.py, get_window_ranges). */
module WindowRanges {
  import opened WindowStore

  /** The step in force: a missing step (0) means tumbling windows. */
  function StepOf(duration: int, step: int): int { if step == 0 then duration else step }

  predicate Aligned(x: int, step: int)
    requires step != 0
  {
    x % step == 0
  }

  /** w is one of the windows [k * step, k * step + duration), k >= 0. */
  ghost predicate IsWindow(duration: int, step: int, w: Span)
    requires step != 0
  {
    0 <= w.start && Aligned(w.start, step) && w.end == w.start + duration
  }

  ghost predicate Contains(w: Span, ts: int) { w.start <= ts < w.end }

  /** The windows found walking down from a start, in ascending order. */
  function RangesFrom(ts: int, duration: int, step: int, start: int): seq<Span>
    requires step > 0
    decreases start
  {
    if start > ts - duration && start >= 0
        then RangesFrom(ts, duration, step, start - step) + [Span(start, start + duration)] else []
  }

  function Ranges(ts: int, duration: int, step: int): seq<Span>
    requires step > 0
  {
    RangesFrom(ts, duration, step, ts - ts % step)
  }

  lemma Multiple(k: int, step: int)
    requires step > 0
    ensures k >= 1 ==> k * step >= step
    ensures k <= -1 ==> k * step <= -step
  {
  }

  lemma AlignedDown(start: int, step: int)
    requires step > 0 && Aligned(start, step)
    ensures Aligned(start - step, step)
  {
    var k := start / step;
    assert start - step == (k - 1) * step;
    ModOfMultiple(k - 1, step);
  }

  lemma ModOfMultiple(k: int, step: int)
    requires step > 0
    ensures (k * step) % step == 0
  {
    var q, r := (k * step) / step, (k * step) % step;
    assert (k - q) * step == r;
    Multiple(k - q, step);
  }

  /** Aligned starts are a whole step apart. */
  lemma AlignedGap(x: int, y: int, step: int)
    requires step > 0 && Aligned(x, step) && Aligned(y, step) && x < y
    ensures x + step <= y
  {
    var i, j := x / step, y / step;
    assert x == i * step && y == j * step;
    assert (j - i) * step == y - x;
    Multiple(j - i, step);
  }

  lemma {:induction false} RangesFromExact(ts: int, duration: int, step: int, start: int)
    requires step > 0 && Aligned(start, step) && start <= ts
    ensures var r := RangesFrom(ts, duration, step, start);
            && Ascending(r)
            && forall w :: w in r <==> IsWindow(duration, step, w) && Contains(w, ts) && w.start <= start
    decreases start
  {
    hide Aligned;
    if start > ts - duration && start >= 0 {
      AlignedDown(start, step);
      RangesFromExact(ts, duration, step, start - step);
      var rest := RangesFrom(ts, duration, step, start - step);
      forall w | IsWindow(duration, step, w) && w.start < start ensures w.start <= start - step {
        AlignedGap(w.start, start, step);
      }
      forall i | 0 <= i < |rest| ensures Before(rest[i], Span(start, start + duration)) {
        assert rest[i] in rest;
      }
    }
  }

  /** The ranges stand a step apart, the first one still in reach of the timestamp. */
  lemma {:induction false} RangesFromApart(ts: int, duration: int, step: int, start: int)
    requires step > 0
    ensures var r := RangesFrom(ts, duration, step, start);
            r != [] ==> r[0].start > ts - duration && r[0].start + (|r| - 1) * step == start
    decreases start
  {
    if start > ts - duration && start >= 0 {
      RangesFromApart(ts, duration, step, start - step);
      var n := |RangesFrom(ts, duration, step, start - step)|;
      assert n * step == (n - 1) * step + step;
    }
  }

  lemma QuotientUnique(x: int, step: int, q: int, r: int)
    requires step > 0 && x == q * step + r && 0 <= r < step
    ensures x / step == q
  {
    var q1 := x / step;
    assert (q - q1) * step == x % step - r;
    Multiple(q - q1, step);
  }

  /**
   * The windows of a timestamp are exactly those that contain it, in ascending order, at most
   * ceil(duration / step) of them.
   */
  lemma RangesExact(ts: int, duration: int, step: int)
    requires step > 0 && duration > 0
    ensures var r := Ranges(ts, duration, step);
            && Ascending(r)
            && (forall w :: w in r <==> IsWindow(duration, step, w) && Contains(w, ts))
            && |r| <= (duration + step - 1) / step
            && (0 <= ts && step <= duration ==> r != [] && r[|r| - 1].start == ts - ts % step)
  {
    var start, r := ts - ts % step, Ranges(ts, duration, step);
    assert start == (ts / step) * step;
    ModOfMultiple(ts / step, step);
    RangesFromExact(ts, duration, step, start);
    RangesFromApart(ts, duration, step, start);
    CeilingBound(|r|, duration, step);
    hide Aligned, Ascending;
    forall w | IsWindow(duration, step, w) && Contains(w, ts) ensures w.start <= start {
      if w.start > start {
        AlignedGap(start, w.start, step);
      }
    }
    LastRange(ts, duration, step);
  }

  lemma LastRange(ts: int, duration: int, step: int)
    requires step > 0
    ensures var r := Ranges(ts, duration, step);
            0 <= ts && step <= duration ==> r != [] && r[|r| - 1].start == ts - ts % step
  {
  }

  lemma CeilingBound(n: int, duration: int, step: int)
    requires step > 0 && duration > 0 && 0 <= n
    ensures n > 0 && (n - 1) * step < duration ==> n <= (duration + step - 1) / step
    ensures 0 <= (duration + step - 1) / step
  {
    assert n * step == (n - 1) * step + step;
    QuotientUnique(n * step, step, n, 0);
    if n > 0 && (n - 1) * step < duration {
      QuotientMonotone(n * step, duration + step - 1, step);
    }
  }

  lemma QuotientMonotone(x: int, y: int, step: int)
    requires step > 0 && x <= y
    ensures x / step <= y / step
  {
    var q, r := x / step, y / step;
    assert x == q * step + x % step && y == r * step + y % step;
    assert (q - r) * step == (x - x % step) - (y - y % step);
    Multiple(q - r, step);
  }

  method GetWindowRanges(ts: int, duration: int, step: int) returns (ranges: seq<Span>)
    requires duration > 0 && step >= 0
    ensures ranges == Ranges(ts, duration, StepOf(duration, step))
  {
    var s := step;
    if s == 0 {
      s := duration;
    }
    ranges := [];
    var start := ts - ts % s;
    while start > ts - duration && start >= 0
      invariant RangesFrom(ts, duration, s, start) + ranges == Ranges(ts, duration, s)
      decreases start
    {
      ranges := [Span(start, start + duration)] + ranges;
      start := start - s;
    }
  }
}
