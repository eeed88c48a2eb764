/**
 * The collection of a count window whose step is not below its size (windows/count_based.py). Such
 * windows follow one another, and each counts its ids from 0, but deletion starts where it last
 * ended: after the first window only the last id of each window is deleted.
 */
module CountStale {
  import opened WindowStore
  import opened WindowRanges
  import opened CountCollection

  /** Message i is still stored when the current window starts at low: it is in it, or was left behind. */
  predicate InStale(count: int, low: int, n: int, i: int)
    requires count > 0
  {
    0 <= i < n && (i >= low || (i >= count && i % count != count - 1))
  }

  ghost predicate Stale<M>(values: map<Span, M>, h: seq<M>, low: int, count: int, lastDeleted: int) {
    && 2 <= count && 0 <= low <= |h| <= low + count && Aligned(low, count)
    && (forall s :: s in values <==> InStale(count, low, |h|, s.end) && s.start == s.end % count)
    && (forall s :: s in values ==> values[s] == h[s.end])
    && lastDeleted == if low >= count then count - 1 else -1
  }

  /** Positions inside a window that starts at a multiple of count. */
  lemma PositionIn(low: int, count: int, i: int)
    requires 0 < count && Aligned(low, count) && low <= i < low + count
    ensures i % count == i - low
  {
    var q := low / count;
    assert i == q * count + (i - low);
    QuotientUnique(i, count, q, i - low);
  }

  lemma AlignedAtLeast(low: int, count: int)
    requires 0 < count && 0 <= low && Aligned(low, count)
    ensures low == 0 || low >= count
    ensures Aligned(low + count, count)
  {
    var q := low / count;
    assert low == q * count;
    assert low + count == (q + 1) * count;
    ModOfMultiple(q + 1, count);
    Multiple(q, count);
  }

  lemma StaleStart<M>(count: int)
    requires 2 <= count
    ensures Stale<M>(map[], [], 0, count, -1)
  {
    ModOfMultiple(0, count);
  }

  /** The message's value goes under its position in the window. */
  lemma StaleAdd<M>(values: map<Span, M>, h: seq<M>, low: int, count: int, lastDeleted: int, v: M)
    requires Stale(values, h, low, count, lastDeleted) && |h| < low + count
    ensures Stale(values[Span(|h| - low, |h|) := v], h + [v], low, count, lastDeleted)
  {
    PositionIn(low, count, |h|);
  }

  // ----- What a full window collects -----

  lemma {:induction false} SortedSize(spans: set<Span>)
    ensures |Sorted(spans)| == |spans|
    decreases |spans|
  {
    if spans != {} {
      LeastExists(spans);
      var m :| m in spans && forall x :: x in spans ==> x == m || Before(m, x);
      SortedSize(spans - {m});
      SortedFrom(spans, m);
    }
  }

  lemma SortedFrom(spans: set<Span>, m: Span)
    requires m in spans && forall x :: x in spans ==> x == m || Before(m, x)
    ensures |Sorted(spans)| == |Sorted(spans - {m})| + 1
  {
    var least: Span :| least in spans && (forall x :: x in spans ==> x == least || Before(least, x))
                       && Sorted(spans) == [least] + Sorted(spans - {least});
  }

  /** The first two windows find only their own values. */
  lemma EarlyAreStored<M>(values: map<Span, M>, h: seq<M>, low: int, count: int, lastDeleted: int)
    requires Stale(values, h, low, count, lastDeleted) && |h| == low + count && low <= count
    ensures values == Stored(low, h, low, |h|)
  {
    forall s ensures s in values <==> s in Stored(low, h, low, |h|) {
      StoredKeys(low, h, low, |h|, s);
      if low <= s.end < low + count {
        PositionIn(low, count, s.end);
      }
    }
  }

  ghost function Found<M>(values: map<Span, M>, count: int): set<Span> {
    set s | s in values && 0 <= s.start < count
  }

  lemma CollectedSize<M>(values: map<Span, M>, count: int)
    ensures |Collected(values, 0, count)| == |Found(values, count)|
  {
    hide Sorted;
    SortedSize(Found(values, count));
    assert Found(values, count) == set s | s in values && 0 <= s.start < count;
  }

  lemma OwnAreFound<M>(values: map<Span, M>, h: seq<M>, low: int, count: int, lastDeleted: int)
    requires Stale(values, h, low, count, lastDeleted) && |h| == low + count
    ensures KeySet(low, low, low + count) <= Found(values, count)
  {
    hide KeySet;
    forall s | s in KeySet(low, low, low + count) ensures s in Found(values, count) {
      PositionIn(low, count, s.end);
    }
  }

  /** From the third window on, the first value of the second window is found as well. */
  lemma OlderIsFound<M>(values: map<Span, M>, h: seq<M>, low: int, count: int, lastDeleted: int)
    requires Stale(values, h, low, count, lastDeleted) && |h| == low + count && low > count
    ensures Span(0, count) in Found(values, count) && Span(0, count) !in KeySet(low, low, low + count)
  {
    hide KeySet;
    ModOfMultiple(1, count);
    assert count % count == 0;
  }

  lemma LaterHoldMore<M>(values: map<Span, M>, h: seq<M>, low: int, count: int, lastDeleted: int)
    requires Stale(values, h, low, count, lastDeleted) && |h| == low + count && low > count
    ensures |Collected(values, 0, count)| > count
  {
    hide Stale, Collected, KeySet, Found;
    StaleBounds(values, h, low, count, lastDeleted);
    var own, older := KeySet(low, low, low + count), Span(0, count);
    OwnAreFound(values, h, low, count, lastDeleted);
    OlderIsFound(values, h, low, count, lastDeleted);
    KeySetSize(low, low, low + count);
    OneMore(own, older);
    SubsetSize(own + {older}, Found(values, count));
    CollectedSize(values, count);
  }

  lemma SubsetSize<T>(x: set<T>, y: set<T>)
    requires x <= y
    ensures |x| <= |y|
  {
    var rest := y - x;
    assert y == x + rest;
  }

  /** A full window collects exactly its own values if and only if it is the first or the second. */
  lemma CollectsIff<M>(values: map<Span, M>, h: seq<M>, low: int, count: int, lastDeleted: int)
    requires Stale(values, h, low, count, lastDeleted) && |h| == low + count
    ensures Collected(values, 0, count) == h[low..] <==> |h| <= 2 * count
  {
    hide Stale, Collected;
    StaleBounds(values, h, low, count, lastDeleted);
    if low <= count {
      EarlyAreStored(values, h, low, count, lastDeleted);
      CollectedStored(low, h, low, |h|, low, low + count);
      assert h[low..low + count] == h[low..];
    } else {
      LaterHoldMore(values, h, low, count, lastDeleted);
    }
  }

  lemma StaleBounds<M>(values: map<Span, M>, h: seq<M>, low: int, count: int, lastDeleted: int)
    requires Stale(values, h, low, count, lastDeleted)
    ensures 2 <= count && 0 <= low <= |h|
  {
  }

  // ----- How much is stored -----

  /** The keys of the first n messages that are still stored when the current window starts at low. */
  ghost function StaleKeys(count: int, low: int, n: nat): (r: set<Span>)
    requires count > 0
    ensures forall s :: s in r <==> InStale(count, low, n, s.end) && s.start == s.end % count
  {
    if n == 0 then {}
    else StaleKeys(count, low, n - 1) + if InStale(count, low, n, n - 1) then {Span((n - 1) % count, n - 1)} else {}
  }

  /** How many those are: all of the current window, and all but one of each window before it but the first. */
  function StaleCount(count: int, low: int, n: nat): int
    requires count > 0
  {
    if low == 0 then n
    else if n <= count then 0
    else if n <= low then n - count - (n / count - 1)
    else low - count - (low / count - 1) + n - low
  }

  lemma NextQuotient(n: int, count: int)
    requires 2 <= count && n > 0
    ensures n / count == (n - 1) / count + if (n - 1) % count == count - 1 then 1 else 0
  {
    var q, r := (n - 1) / count, (n - 1) % count;
    assert n - 1 == q * count + r;
    if r == count - 1 {
      assert n == (q + 1) * count + 0;
      QuotientUnique(n, count, q + 1, 0);
    } else {
      QuotientUnique(n, count, q, r + 1);
    }
  }

  lemma OneQuotient(n: int, count: int)
    requires 2 <= count && 0 < n <= count
    ensures n / count == if n == count then 1 else 0
  {
    if n == count {
      QuotientUnique(n, count, 1, 0);
    } else {
      QuotientUnique(n, count, 0, n);
    }
  }

  /** Message n - 1 is stored or not. */
  lemma StaleKeysStep(count: int, low: int, n: nat)
    requires count > 0 && n > 0
    ensures |StaleKeys(count, low, n)| == |StaleKeys(count, low, n - 1)| +
            if InStale(count, low, n, n - 1) then 1 else 0
  {
    hide InStale;
    var before, key := StaleKeys(count, low, n - 1), Span((n - 1) % count, n - 1);
    NotYet(count, low, n);
    if InStale(count, low, n, n - 1) {
      OneMore(before, key);
    } else {
      assert StaleKeys(count, low, n) == before;
    }
  }

  lemma NotYet(count: int, low: int, n: nat)
    requires count > 0 && n > 0
    ensures Span((n - 1) % count, n - 1) !in StaleKeys(count, low, n - 1)
  {
  }

  lemma StaleCountStep(count: int, low: int, n: nat)
    requires 2 <= count && n > 0 && (low == 0 || low >= count)
    ensures StaleCount(count, low, n) == StaleCount(count, low, n - 1) + if InStale(count, low, n, n - 1) then 1 else 0
  {
    NextQuotient(n, count);
    OneQuotient(count, count);
    if n < count {
      OneQuotient(n, count);
    }
    if low > 0 {
      SmallRemainder(n - 1, count);
    }
  }

  lemma SmallRemainder(x: int, count: int)
    requires 0 <= x && 2 <= count
    ensures x < count ==> x % count == x
  {
  }

  lemma {:induction false} StaleKeysSize(count: int, low: int, n: nat)
    requires 2 <= count && 0 <= low && (low == 0 || low >= count)
    ensures |StaleKeys(count, low, n)| == StaleCount(count, low, n)
  {
    hide InStale;
    if n == 0 {
      NoStaleKeys(count, low);
    } else {
      hide StaleKeys, StaleCount;
      StaleKeysSize(count, low, n - 1);
      StaleKeysStep(count, low, n);
      StaleCountStep(count, low, n);
    }
  }

  lemma NoStaleKeys(count: int, low: int)
    requires 2 <= count && 0 <= low
    ensures |StaleKeys(count, low, 0)| == 0 == StaleCount(count, low, 0)
  {
  }

  /** Between windows, count - 1 values are left of each window but the first: the collection grows without bound. */
  lemma StaleSize<M>(values: map<Span, M>, h: seq<M>, low: int, count: int, lastDeleted: int)
    requires Stale(values, h, low, count, lastDeleted)
    ensures |values| == |h| - low + if low == 0 then 0 else (low / count - 1) * (count - 1)
  {
    hide InStale, StaleKeys, StaleCount, Aligned;
    AlignedAtLeast(low, count);
    StaleKeysSize(count, low, |h|);
    StaleKeysAre(values, h, low, count, lastDeleted);
    StaleCountIs(count, low, |h|);
  }

  lemma StaleKeysAre<M>(values: map<Span, M>, h: seq<M>, low: int, count: int, lastDeleted: int)
    requires Stale(values, h, low, count, lastDeleted)
    ensures |values| == |StaleKeys(count, low, |h|)|
  {
    hide InStale, StaleKeys;
    assert values.Keys == StaleKeys(count, low, |h|);
  }

  lemma StaleCountIs(count: int, low: int, n: nat)
    requires 2 <= count && 0 <= low <= n <= low + count && Aligned(low, count) && (low == 0 || low >= count)
    ensures StaleCount(count, low, n) == n - low + if low == 0 then 0 else (low / count - 1) * (count - 1)
  {
    var q := low / count;
    assert low == q * count;
    assert low - count - (q - 1) == (q - 1) * (count - 1);
    if low > 0 && n <= count {
      assert n == low == count;
      OneQuotient(count, count);
    }
  }

  // ----- What deletion leaves -----

  /** After the first window everything goes; after a later one only the last position of each window does. */
  lemma StalePrune<M>(values: map<Span, M>, h: seq<M>, low: int, count: int, step: int, before: int,
                      values1: map<Span, M>, after: int)
    requires Stale(values, h, low, count, before) && |h| == low + count && step >= count
    requires values1 == Pruned(values, before, step) && PrunedIndex(values, before, step, before, after)
    ensures Stale(values1, h, low + count, count, after)
  {
    var last := Span(count - 1, |h| - 1);
    AlignedAtLeast(low, count);
    PositionIn(low, count, |h| - 1);
    assert last in values && last in Gone(values, before, step);
    forall s | s in values ensures 0 <= s.start < count {
    }
    assert after == count - 1;
    forall s ensures s in values1 <==> InStale(count, low + count, |h|, s.end) && s.start == s.end % count {
    }
  }
}
