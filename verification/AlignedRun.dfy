/** Runs of buffered polling: a sorted merge, no lost partition, and when it stalls. */
module AlignedRun {
  import opened Wrappers
  import opened Buffering
  import opened Alignment
  import opened AlignedConsumer

  /** What the client returns if it is polled: which topics' next messages, and the watermarks it knows. */
  datatype Poll = Poll(order: seq<nat>, watermarks: seq<int>)

  predicate CanPoll(ts: seq<Topic>, p: Poll) { CanDeliver(ts, p.order) && CanReport(ts, p.watermarks) }

  function Popped(ts: seq<Topic>, m: Option<(nat, Message)>): seq<Topic> {
    if m.Some? && m.value.0 < |ts| then Release(ts, m.value.0) else ts
  }

  function Fed(ts: seq<Topic>, p: Poll): (r: seq<Topic>)
    requires CanPoll(ts, p)
    ensures |r| == |ts|
  {
    DeliveredSize(ts, p.order);
    Reported(Delivered(ts, p.order), p.watermarks)
  }

  lemma {:induction false} DeliveredSize(ts: seq<Topic>, order: seq<nat>)
    requires CanDeliver(ts, order)
    ensures |Delivered(ts, order)| == |ts|
    ensures forall i :: 0 <= i < |ts| ==>
                          && Delivered(ts, order)[i].log == ts[i].log
                             && Delivered(ts, order)[i].released == ts[i].released
                          && Delivered(ts, order)[i].start == ts[i].start
                             && Delivered(ts, order)[i].known == ts[i].known
    decreases |order|
  {
    if order != [] {
      DeliveredSize(Fetch(ts, order[0]), order[1..]);
    }
  }

  /** The consumer, the topics and the message after one poll. */
  ghost function After(maxSize: nat, c: Consumer, ts: seq<Topic>, p: Poll)
    : (Consumer, seq<Topic>, Option<(nat, Message)>)
    requires |c.buffers| == |ts| && CanPoll(ts, p)
  {
    var r := PollOnce(maxSize, c, Batch(ts, p.order), p.watermarks);
    if r.None? then (c, ts, None) else
      (r.value.0, Popped(if Pop(c.buffers).1.Some? then ts else Fed(ts, p), r.value.1), r.value.1)
  }

  lemma BalancedTracks(maxSize: nat, c: Consumer, ts: seq<Topic>)
    requires AllTrack(c.buffers, ts)
    ensures AllTrack(Balanced(maxSize, c).buffers, ts)
  {
  }

  lemma FeedTracks(maxSize: nat, c: Consumer, ts: seq<Topic>, p: Poll)
    requires AllTrack(c.buffers, ts) && CanPoll(ts, p)
    ensures FeedBuffer(maxSize, c, Batch(ts, p.order), p.watermarks).Some?
    ensures AllTrack(FeedBuffer(maxSize, c, Batch(ts, p.order), p.watermarks).value.buffers, Fed(ts, p))
  {
    hide Tracks, Balanced, SetWatermarks, AppendAll;
    DeliveryTracks(c.buffers, ts, p.order);
    DeliveredSize(ts, p.order);
    var appended := AppendAll(c.buffers, Batch(ts, p.order)).value;
    ReportTracks(appended, Delivered(ts, p.order), p.watermarks);
    BalancedTracks(maxSize, c.(buffers := SetWatermarks(appended, p.watermarks)), Fed(ts, p));
  }

  /** m is the next message of its topic i, and no message known of or fetched comes before it in time. */
  ghost predicate Aligned(ts: seq<Topic>, i: nat, m: Message) {
    && i < |ts| && ts[i].released < |ts[i].log| && m == ts[i].log[ts[i].released]
    && (|ts| > 1 ==>
            forall j, k :: 0 <= j < |ts| && ts[j].released <= k < ts[j].known && k < |ts[j].log| ==>
              m.ts <= ts[j].log[k].ts)
    && (|ts| > 1 ==> forall j :: 0 <= j < |ts| ==> ts[j].released < ts[j].fetched || 0 <= ts[j].known <= ts[j].released)
    && ts[i].released < ts[i].fetched
    && forall j, k :: 0 <= j < |ts| && ts[j].released < ts[j].fetched && ts[j].released <= k < |ts[j].log| ==>
         m.ts <= ts[j].log[k].ts
  }

  lemma PopStep(bs: seq<Buffer>, ts: seq<Topic>)
    requires AllTrack(bs, ts)
    ensures AllTrack(Pop(bs).0, Popped(ts, Pop(bs).1))
    ensures Pop(bs).1.Some? ==> Aligned(ts, Pop(bs).1.value.0, Pop(bs).1.value.1)
  {
    PopAligned(bs, ts);
    hide Tracks, Pop;
    if Pop(bs).1.Some? {
      var i := Pop(bs).1.value.0;
      FetchedWithin(bs, ts, i);
    }
  }

  lemma FetchedWithin(bs: seq<Buffer>, ts: seq<Topic>, i: nat)
    requires AllTrack(bs, ts) && i < |ts|
    ensures ts[i].fetched <= |ts[i].log|
  {
  }

  /** A poll never fails, keeps buffers and logs in step, and what it returns is aligned. */
  lemma AfterOk(maxSize: nat, c: Consumer, ts: seq<Topic>, p: Poll)
    requires AllTrack(c.buffers, ts) && CanPoll(ts, p)
    ensures PollOnce(maxSize, c, Batch(ts, p.order), p.watermarks).Some?
    ensures AllTrack(After(maxSize, c, ts, p).0.buffers, After(maxSize, c, ts, p).1)
    ensures var m := After(maxSize, c, ts, p).2;
            m.Some? ==>
              exists at ::
                && (at == ts || at == Fed(ts, p)) && Aligned(at, m.value.0, m.value.1)
                && After(maxSize, c, ts, p).1 == Popped(at, m)
    ensures After(maxSize, c, ts, p).2.None? ==> After(maxSize, c, ts, p).1 == Fed(ts, p)
  {
    hide Tracks, Pop, FeedBuffer, Fed, Aligned, Batch;
    PopStep(c.buffers, ts);
    FeedTracks(maxSize, c, ts, p);
    var fed := FeedBuffer(maxSize, c, Batch(ts, p.order), p.watermarks).value;
    PopStep(fed.buffers, Fed(ts, p));
    var m := After(maxSize, c, ts, p).2;
    if m.Some? {
      var at := if Pop(c.buffers).1.Some? then ts else Fed(ts, p);
      assert Aligned(at, m.value.0, m.value.1);
    }
  }

  // ----- A fixed snapshot -----

  /** Every watermark known of is the end of its log. */
  ghost predicate Snapshot(ts: seq<Topic>) {
    forall i :: 0 <= i < |ts| ==> ts[i].known < 0 || ts[i].known == |ts[i].log|
  }

  ghost predicate CanRun(maxSize: nat, c: Consumer, ts: seq<Topic>, polls: seq<Poll>)
    decreases |polls|
  {
    polls != [] ==>
      && |c.buffers| == |ts| && CanPoll(ts, polls[0])
      && (forall i :: 0 <= i < |ts| ==> polls[0].watermarks[i] < 0 || polls[0].watermarks[i] == |ts[i].log|)
      && var (c1, ts1, _) := After(maxSize, c, ts, polls[0]);
         CanRun(maxSize, c1, ts1, polls[1..])
  }

  /** What a run of polls releases, and the topics after it. */
  ghost function Released(maxSize: nat, c: Consumer, ts: seq<Topic>, polls: seq<Poll>)
    : (seq<(nat, Message)>, seq<Topic>)
    requires CanRun(maxSize, c, ts, polls)
    decreases |polls|
  {
    if polls == [] then ([], ts) else
      var (c1, ts1, m) := After(maxSize, c, ts, polls[0]);
      var (rest, end) := Released(maxSize, c1, ts1, polls[1..]);
      (if m.Some? then [m.value] + rest else rest, end)
  }

  ghost predicate SameLogs(ts: seq<Topic>, us: seq<Topic>) {
    |ts| == |us| && forall i :: 0 <= i < |ts| ==> ts[i].log == us[i].log && ts[i].released <= us[i].released
  }

  /** Nothing unreleased is earlier than t. */
  ghost predicate NoneBefore(ts: seq<Topic>, t: int) {
    forall j, k :: 0 <= j < |ts| && ts[j].released <= k < |ts[j].log| ==> t <= ts[j].log[k].ts
  }

  lemma FedIs(ts: seq<Topic>, p: Poll)
    requires CanPoll(ts, p) && Snapshot(ts)
    requires forall i :: 0 <= i < |ts| ==> p.watermarks[i] < 0 || p.watermarks[i] == |ts[i].log|
    ensures |Fed(ts, p)| == |ts| && Snapshot(Fed(ts, p))
    ensures forall i :: 0 <= i < |ts| ==> Fed(ts, p)[i].log == ts[i].log && Fed(ts, p)[i].released == ts[i].released
  {
    hide Delivered;
    DeliveredSize(ts, p.order);
  }

  /** Over a snapshot, an aligned message is the earliest of all that remain. */
  lemma AlignedIsLeast(ts: seq<Topic>, i: nat, m: Message)
    requires Snapshot(ts) && Aligned(ts, i, m)
    ensures NoneBefore(ts, m.ts)
  {
    forall j | 0 <= j < |ts| ensures ts[j].released < |ts[j].log| ==> ts[j].released < ts[j].fetched {
      if |ts| == 1 {
        assert j == i;
      }
    }
  }

  ghost predicate InTimeOrder(out: seq<(nat, Message)>) {
    forall i, j :: 0 <= i < j < |out| ==> out[i].1.ts <= out[j].1.ts
  }

  /** One poll of a snapshot run. */
  lemma SnapshotStep(maxSize: nat, c: Consumer, ts: seq<Topic>, p: Poll, bound: int)
    requires AllTrack(c.buffers, ts) && Snapshot(ts) && NoneBefore(ts, bound) && CanPoll(ts, p)
    requires forall i :: 0 <= i < |ts| ==> p.watermarks[i] < 0 || p.watermarks[i] == |ts[i].log|
    ensures var (c1, ts1, m) := After(maxSize, c, ts, p);
            AllTrack(c1.buffers, ts1) && SnapshotStepped(ts, ts1, m, bound)
  {
    AfterOk(maxSize, c, ts, p);
    FedIs(ts, p);
    hide After, Fed, Tracks, PollOnce;
    var (c1, ts1, m) := After(maxSize, c, ts, p);
    hide AllTrack, SnapshotStepped, NoneBefore, Snapshot, Aligned;
    if m.Some? {
      var at :| (at == ts || at == Fed(ts, p)) && Aligned(at, m.value.0, m.value.1) && ts1 == Popped(at, m);
      SteppedRelease(ts, at, ts1, m.value, bound);
    } else {
      SteppedFeed(ts, ts1, bound);
    }
  }

  ghost predicate SnapshotStepped(ts: seq<Topic>, ts1: seq<Topic>, m: Option<(nat, Message)>, bound: int) {
    && Snapshot(ts1) && SameLogs(ts, ts1)
    && (m.None? ==> NoneBefore(ts1, bound) && forall j :: 0 <= j < |ts| ==> ts1[j].released == ts[j].released)
    && (m.Some? ==>
          && var (i, x) := m.value;
          && i < |ts| && ts[i].released < |ts[i].log| && x == ts[i].log[ts[i].released]
          && bound <= x.ts && NoneBefore(ts1, x.ts)
          && forall j :: 0 <= j < |ts| ==> ts1[j].released == if j == i then ts[j].released + 1 else ts[j].released)
  }

  lemma SteppedRelease(ts: seq<Topic>, at: seq<Topic>, ts1: seq<Topic>, m: (nat, Message), bound: int)
    requires NoneBefore(ts, bound) && Snapshot(at) && Aligned(at, m.0, m.1) && ts1 == Popped(at, Some(m))
    requires |at| == |ts| && forall i :: 0 <= i < |ts| ==> at[i].log == ts[i].log && at[i].released == ts[i].released
    ensures SnapshotStepped(ts, ts1, Some(m), bound)
  {
    AlignedIsLeast(at, m.0, m.1);
    assert ts[m.0].released < |ts[m.0].log| && m.1 == ts[m.0].log[ts[m.0].released];
    hide Aligned;
  }

  lemma SteppedFeed(ts: seq<Topic>, ts1: seq<Topic>, bound: int)
    requires NoneBefore(ts, bound) && Snapshot(ts1)
    requires |ts1| == |ts| && forall i :: 0 <= i < |ts| ==> ts1[i].log == ts[i].log && ts1[i].released == ts[i].released
    ensures SnapshotStepped(ts, ts1, None, bound)
  {
  }

  /**
   * out is a sorted merge of what the topics had left, from where they stood in ts to where they
   * stand in end: in time order, each topic's part of it its log in offset order, nothing lost or repeated.
   */
  ghost predicate MergedInto(ts: seq<Topic>, end: seq<Topic>, out: seq<(nat, Message)>, bound: int) {
    && SameLogs(ts, end) && InTimeOrder(out)
    && (forall i :: 0 <= i < |out| ==> bound <= out[i].1.ts && out[i].0 < |ts|)
    && forall j :: 0 <= j < |ts| ==>
         end[j].released <= |ts[j].log| && Of(out, j) == ts[j].log[ts[j].released..end[j].released]
  }

  /** Draining a fixed snapshot is a sorted merge, however the polls fall. */
  lemma {:induction false} SnapshotMerge(maxSize: nat, c: Consumer, ts: seq<Topic>, polls: seq<Poll>, bound: int)
    requires AllTrack(c.buffers, ts) && Snapshot(ts) && NoneBefore(ts, bound) && CanRun(maxSize, c, ts, polls)
    ensures MergedInto(ts, Released(maxSize, c, ts, polls).1, Released(maxSize, c, ts, polls).0, bound)
    decreases |polls|
  {
    if polls == [] {
      MergeNone(c.buffers, ts, bound);
    } else {
      hide After, CanPoll, Snapshot, AllTrack, MergedInto, SnapshotStepped, NoneBefore;
      SnapshotStep(maxSize, c, ts, polls[0], bound);
      var (c1, ts1, m) := After(maxSize, c, ts, polls[0]);
      SteppedBound(ts, ts1, m, bound);
      var next := if m.Some? then m.value.1.ts else bound;
      SnapshotMerge(maxSize, c1, ts1, polls[1..], next);
      var (rest, end) := Released(maxSize, c1, ts1, polls[1..]);
      MergeStep(ts, ts1, end, m, rest, bound);
    }
  }

  lemma MergeNone(bs: seq<Buffer>, ts: seq<Topic>, bound: int)
    requires AllTrack(bs, ts)
    ensures MergedInto(ts, ts, [], bound)
  {
  }

  lemma SteppedBound(ts: seq<Topic>, ts1: seq<Topic>, m: Option<(nat, Message)>, bound: int)
    requires SnapshotStepped(ts, ts1, m, bound)
    ensures Snapshot(ts1) && NoneBefore(ts1, if m.Some? then m.value.1.ts else bound)
  {
  }

  lemma MergeStep(ts: seq<Topic>, ts1: seq<Topic>, end: seq<Topic>, m: Option<(nat, Message)>,
                  rest: seq<(nat, Message)>, bound: int)
    requires SnapshotStepped(ts, ts1, m, bound)
    requires MergedInto(ts1, end, rest, if m.Some? then m.value.1.ts else bound)
    ensures MergedInto(ts, end, if m.Some? then [m.value] + rest else rest, bound)
  {
    hide Snapshot, NoneBefore;
    if m.Some? {
      OrderedFront(m.value, rest);
      forall j | 0 <= j < |ts|
        ensures end[j].released <= |ts[j].log| && Of([m.value] + rest, j) == ts[j].log[ts[j].released..end[j].released]
      {
        hide Of;
        OfFront(m.value, rest, j);
        if j == m.value.0 {
          SliceFront(ts[j].log, ts[j].released, end[j].released);
        }
      }
    }
    hide Of, InTimeOrder;
  }

  lemma OrderedFront(m: (nat, Message), rest: seq<(nat, Message)>)
    requires InTimeOrder(rest) && forall i :: 0 <= i < |rest| ==> m.1.ts <= rest[i].1.ts
    ensures InTimeOrder([m] + rest)
  {
  }

  lemma SliceFront(log: seq<Message>, from: nat, to: nat)
    requires from < to <= |log|
    ensures log[from..to] == [log[from]] + log[from + 1..to]
  {
  }
}
