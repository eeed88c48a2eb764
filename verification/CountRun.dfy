/** All the windows a count window emits over a stream, with any step (windows/count_based.py). */
module CountRun {
  import opened Aggregation
  import opened WindowRanges
  import opened CountWindow

  /** The windows that should come out over the stream, message by message. */
  function AllEmitted<M, S, R>(a: Aggregator<M, S, R>, aggregate: bool, collect: bool, count: int, step: int,
                               h: seq<Message<M>>): seq<Result<M, R>>
    requires 2 <= count && 0 <= step
  {
    if h == [] then [] else
      AllEmitted(a, aggregate, collect, count, step, h[..|h| - 1])
      + if FullAt(count, step, |h|) then [ResultOf(a, aggregate, collect, h[|h| - count..])] else []
  }

  /** How many windows n messages complete. */
  function CompleteBy(count: int, stride: int, n: int): nat
    requires 0 < stride && 0 <= n
  {
    if n < count then 0 else (n - count) / stride + 1
  }

  /**
   * Another message completes another window exactly when it stands a whole number of strides past
   * the first full one.
   */
  lemma NextComplete(count: int, step: int, n: int)
    requires 2 <= count && 0 <= step && 0 <= n
    ensures var stride := StrideOf(count, step);
            && CompleteBy(count, stride, n + 1)
               == CompleteBy(count, stride, n) + (if FullAt(count, step, n + 1) then 1 else 0)
            && (FullAt(count, step, n + 1) ==> CompleteBy(count, stride, n) * stride == n + 1 - count)
  {
    var stride, x := StrideOf(count, step), n + 1 - count;
    if x > 0 {
      DivStep(x, stride);
    } else if x == 0 {
      AlignedSelf(stride);
    }
  }

  lemma DivStep(x: int, s: int)
    requires x > 0 && s > 0
    ensures x / s == (x - 1) / s + (if x % s == 0 then 1 else 0)
    ensures x % s == 0 ==> ((x - 1) / s + 1) * s == x
  {
    var q, r := (x - 1) / s, (x - 1) % s;
    assert x - 1 == q * s + r;
    if r == s - 1 {
      assert x == (q + 1) * s;
      ModOfMultiple(q + 1, s);
      QuotientUnique(x, s, q + 1, 0);
    } else {
      QuotientUnique(x, s, q, r + 1);
      assert x == q * s + x % s;
    }
  }

  /**
   * The k-th window to come out covers exactly the messages from k strides on, count of them; there is
   * one for each k that fits.
   */
  lemma EmittedExact<M, S, R>(a: Aggregator<M, S, R>, aggregate: bool, collect: bool, count: int, step: int,
                              h: seq<Message<M>>, k: nat)
    requires 2 <= count && 0 <= step
    ensures var out, at := AllEmitted(a, aggregate, collect, count, step, h), k * StrideOf(count, step);
            && |out| == CompleteBy(count, StrideOf(count, step), |h|)
            && (k < |out| ==>
                    0 <= at <= at + count <= |h| && out[k] == ResultOf(a, aggregate, collect, h[at..at + count]))
  {
    EmittedAt(a, aggregate, collect, count, step, h, k, k * StrideOf(count, step));
  }

  lemma {:induction false} EmittedAt<M, S, R>(a: Aggregator<M, S, R>, aggregate: bool, collect: bool, count: int,
                                              step: int, h: seq<Message<M>>, k: nat, at: int)
    requires 2 <= count && 0 <= step && at == k * StrideOf(count, step)
    ensures var out := AllEmitted(a, aggregate, collect, count, step, h);
            && |out| == CompleteBy(count, StrideOf(count, step), |h|)
            && (k < |out| ==>
                    0 <= at <= at + count <= |h| && out[k] == ResultOf(a, aggregate, collect, h[at..at + count]))
    decreases |h|
  {
    hide ResultOf, FullAt, CompleteBy, StrideOf;
    if h == [] {
      NoneComplete(count, step);
    } else {
      var before := h[..|h| - 1];
      EmittedAt(a, aggregate, collect, count, step, before, k, at);
      NextComplete(count, step, |h| - 1);
      FullEnough(count, step, |h|);
      var fewer := AllEmitted(a, aggregate, collect, count, step, before);
      if k < |fewer| {
        assert before[at..at + count] == h[at..at + count];
      } else if FullAt(count, step, |h|) && k == |fewer| {
        assert at == |h| - count;
        assert h[|h| - count..] == h[at..at + count];
      }
    }
  }

  lemma FullEnough(count: int, step: int, n: int)
    requires 2 <= count && 0 <= step
    ensures FullAt(count, step, n) ==> n >= count
  {
  }

  lemma NoneComplete(count: int, step: int)
    requires 2 <= count && 0 <= step
    ensures CompleteBy(count, StrideOf(count, step), 0) == 0
  {
  }

  /**
   * What a run has emitted against what it should: with large steps, the collections are right up
   * to the second window.
   */
  ghost predicate Follows<M, S, R>(a: Aggregator<M, S, R>, aggregate: bool, collect: bool, count: int, step: int,
                                   h: seq<Message<M>>, out: seq<Result<M, R>>)
    requires 2 <= count && 0 <= step
  {
    var ideal := AllEmitted(a, aggregate, collect, count, step, h);
    && |out| == |ideal|
    && forall k :: 0 <= k < |out| ==> Matches(out[k], ideal[k], !collect || step < count || k < 2)
  }

  lemma EmittedSnoc<M, S, R>(a: Aggregator<M, S, R>, aggregate: bool, collect: bool, count: int, step: int,
                             h: seq<Message<M>>, m: Message<M>)
    requires 2 <= count && 0 <= step
    ensures AllEmitted(a, aggregate, collect, count, step, h + [m])
            == AllEmitted(a, aggregate, collect, count, step, h)
            + if FullAt(count, step, |h| + 1) then [ResultOf(a, aggregate, collect, (h + [m])[|h| + 1 - count..])]
            else []
  {
    assert (h + [m])[..|h|] == h;
  }

  /** With windows that do not overlap, the number of windows before tells how many messages there are. */
  lemma OwnByIndex(collect: bool, count: int, step: int, n: int)
    requires 2 <= count && 0 <= step && 0 <= n && FullAt(count, step, n + 1)
    ensures var k := CompleteBy(count, StrideOf(count, step), n);
            CollectsOwn(collect, count, step, n + 1) <==> !collect || step < count || k < 2
  {
    hide FullAt, CompleteBy;
    NextComplete(count, step, n);
    var k := CompleteBy(count, StrideOf(count, step), n);
    if step >= count {
      assert k * count == n + 1 - count;
      if k >= 2 {
        assert (k - 2) * count >= 0;
      } else {
        assert k == 0 || k == 1;
      }
    }
  }

  /** Each call emits what the stream's emissions gain by its message. */
  lemma FollowsNext<M, S, R>(a: Aggregator<M, S, R>, aggregate: bool, collect: bool, count: int, step: int,
                             h: seq<Message<M>>, m: Message<M>, out: seq<Result<M, R>>, expired: seq<Result<M, R>>)
    requires 2 <= count && 0 <= step && Follows(a, aggregate, collect, count, step, h, out)
    requires Emits(a, aggregate, collect, count, step, h + [m], expired)
    ensures Follows(a, aggregate, collect, count, step, h + [m], out + expired)
  {
    hide ResultOf, FullAt, Matches, AllEmitted, CollectsOwn, StrideOf, CompleteBy;
    EmittedSnoc(a, aggregate, collect, count, step, h, m);
    EmittedExact(a, aggregate, collect, count, step, h, 0);
    if FullAt(count, step, |h| + 1) {
      OwnByIndex(collect, count, step, |h|);
    }
  }

  /** out[k] is the k-th window over ms, all of it unless it collects values that deletion has left behind. */
  ghost predicate Covers<M, S, R>(a: Aggregator<M, S, R>, aggregate: bool, collect: bool, count: int, step: int,
                                  ms: seq<Message<M>>, out: seq<Result<M, R>>, k: nat)
    requires 2 <= count && 0 <= step && k < |out|
  {
    var at := k * StrideOf(count, step);
    && 0 <= at <= at + count <= |ms|
    && Matches(out[k], ResultOf(a, aggregate, collect, ms[at..at + count]), !collect || step < count || k < 2)
  }

  lemma FollowsCovers<M, S, R>(a: Aggregator<M, S, R>, aggregate: bool, collect: bool, count: int, step: int,
                               ms: seq<Message<M>>, out: seq<Result<M, R>>)
    requires 2 <= count && 0 <= step && Follows(a, aggregate, collect, count, step, ms, out)
    ensures |out| == CompleteBy(count, StrideOf(count, step), |ms|)
    ensures forall k :: 0 <= k < |out| ==> Covers(a, aggregate, collect, count, step, ms, out, k)
  {
    hide ResultOf, Matches, AllEmitted, CompleteBy, StrideOf;
    EmittedExact(a, aggregate, collect, count, step, ms, 0);
    forall k | 0 <= k < |out| ensures Covers(a, aggregate, collect, count, step, ms, out, k) {
      EmittedExact(a, aggregate, collect, count, step, ms, k);
    }
  }

  /** A key's messages, one after the other: every window over them comes out once, in order, and no other. */
  method ProcessAll<M, S, R>(a: Aggregator<M, S, R>, aggregate: bool, collect: bool, count: int, step: int,
                             ms: seq<Message<M>>)
    returns (out: seq<Result<M, R>>)
    requires 2 <= count && 0 <= step
    ensures |out| == CompleteBy(count, StrideOf(count, step), |ms|)
    ensures forall k :: 0 <= k < |out| ==> Covers(a, aggregate, collect, count, step, ms, out, k)
  {
    hide *;
    var w := new CountWindow(count, step, a, aggregate, collect);
    out := [];
    FollowsStart(a, aggregate, collect, count, step);
    for i := 0 to |ms|
      invariant w.Valid() && w.h == ms[..i] && fresh(w)
      invariant w.count == count && w.step == step && w.a == a && w.aggregate == aggregate && w.collect == collect
      invariant Follows(a, aggregate, collect, count, step, ms[..i], out)
    {
      var _, expired, _ := w.ProcessWindow(ms[i]);
      assert ms[..i + 1] == ms[..i] + [ms[i]];
      FollowsNext(a, aggregate, collect, count, step, ms[..i], ms[i], out, expired);
      out := out + expired;
    }
    assert ms[..|ms|] == ms;
    FollowsCovers(a, aggregate, collect, count, step, ms, out);
  }

  lemma FollowsStart<M, S, R>(a: Aggregator<M, S, R>, aggregate: bool, collect: bool, count: int, step: int)
    requires 2 <= count && 0 <= step
    ensures Follows(a, aggregate, collect, count, step, [], [])
  {
  }
}
