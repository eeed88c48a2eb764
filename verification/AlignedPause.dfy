/**
 * Pausing and resuming over runs with backpressure: no partition is waited for and paused at once;
 * and what can still go wrong.
 */
module AlignedPause {
  import opened Buffering
  import opened Alignment
  import opened AlignedConsumer

  lemma AppendKeeps(bs: seq<Buffer>, batch: seq<(nat, Message)>)
    requires forall x :: x in batch ==> x.0 < |bs|
    ensures AppendAll(bs, batch).Some? ==>
              var r := AppendAll(bs, batch).value;
              && |r| == |bs|
              && forall i :: 0 <= i < |bs| ==>
                               && r[i].paused == bs[i].paused
                               && ((forall x :: x in batch ==> x.0 != i) ==> r[i].messages == bs[i].messages)
    decreases |batch|
  {
    if batch != [] {
      assert batch[0] in batch;
      var b := Append(bs[batch[0].0], batch[0].1);
      if b.Some? {
        AppendKeeps(bs[batch[0].0 := b.value], batch[1..]);
      }
    }
  }

  /**
   * After a feed of two topics or more, a buffer is paused exactly when it is full and its
   * partition is known to have more.
   */
  lemma FeedPauses(maxSize: nat, c: Consumer, batch: seq<(nat, Message)>, watermarks: seq<int>)
    requires |c.buffers| > 1 && |watermarks| == |c.buffers| && forall x :: x in batch ==> x.0 < |c.buffers|
    ensures var r := FeedBuffer(maxSize, c, batch, watermarks);
            r.Some? ==> forall b :: b in r.value.buffers ==> (b.paused <==> b.Full(maxSize) && b.Idleness() == Active)
  {
    hide AppendAll;
  }

  /** A single topic is never paused. */
  lemma SingleNeverPauses(maxSize: nat, c: Consumer, batch: seq<(nat, Message)>, watermarks: seq<int>)
    requires |c.buffers| == 1 && |watermarks| == 1 && (forall x :: x in batch ==> x.0 < 1) && !c.buffers[0].paused
    ensures var r := FeedBuffer(maxSize, c, batch, watermarks);
            r.Some? ==> !r.value.buffers[0].paused && r.value.paused == c.paused
  {
    AppendKeeps(c.buffers, batch);
    hide AppendAll;
    var r := FeedBuffer(maxSize, c, batch, watermarks);
    if r.Some? {
      var fed := SetWatermarks(AppendAll(c.buffers, batch).value, watermarks);
      assert !fed[0].paused;
      assert forall i: nat :: i !in Resuming(maxSize, fed, 1) && i !in Pausing(maxSize, ResumeEmpty(maxSize, fed), 1);
    }
  }

  /** Feeding never lets go of a topic that a sink holds back. */
  lemma HeldStaysPaused(maxSize: nat, c: Consumer, batch: seq<(nat, Message)>, watermarks: seq<int>)
    requires |watermarks| == |c.buffers| && (forall x :: x in batch ==> x.0 < |c.buffers|) && c.heldBack <= c.paused
    ensures var r := FeedBuffer(maxSize, c, batch, watermarks);
            r.Some? ==> r.value.heldBack == c.heldBack && c.heldBack <= r.value.paused
  {
    hide AppendAll, SetWatermarks;
  }

  /** The client's paused topics are those whose buffers are paused and those held back; the latter are empty. */
  ghost predicate PausedOk(c: Consumer) {
    && (forall i: nat :: i in c.paused <==> i < |c.buffers| && (c.buffers[i].paused || i in c.heldBack))
    && forall i: nat :: i in c.heldBack ==> i < |c.buffers| && !c.buffers[i].paused && c.buffers[i].messages == []
  }

  lemma BalancedOk(maxSize: nat, c: Consumer)
    requires PausedOk(c) && maxSize >= 1
    ensures PausedOk(Balanced(maxSize, c))
  {
  }

  lemma FedOk(maxSize: nat, c: Consumer, batch: seq<(nat, Message)>, watermarks: seq<int>)
    requires PausedOk(c) && maxSize >= 1 && |watermarks| == |c.buffers|
    requires forall x :: x in batch ==> x.0 < |c.buffers| && x.0 !in c.paused
    ensures var r := FeedBuffer(maxSize, c, batch, watermarks); r.Some? ==> PausedOk(r.value)
  {
    AppendKeeps(c.buffers, batch);
    hide AppendAll, Balanced;
    var a := AppendAll(c.buffers, batch);
    if a.Some? {
      var fed := c.(buffers := SetWatermarks(a.value, watermarks));
      assert PausedOk(fed);
      BalancedOk(maxSize, fed);
    }
  }

  lemma PopOk(c: Consumer)
    requires PausedOk(c)
    ensures PausedOk(c.(buffers := Pop(c.buffers).0))
  {
    if Pop(c.buffers).1.Some? {
      var i := Soonest(c.buffers);
      assert c.buffers[i].messages != [];
    }
  }

  // ----- Runs -----

  datatype Event = Polled(batch: seq<(nat, Message)>, watermarks: seq<int>) | Pushed | Waited

  /** The client delivers only what it has not paused, in offset order. */
  ghost predicate CanStep(maxSize: nat, c: Consumer, e: Event) {
    e.Polled? ==>
      && |e.watermarks| == |c.buffers| && (forall x :: x in e.batch ==> x.0 < |c.buffers| && x.0 !in c.paused)
      && PollOnce(maxSize, c, e.batch, e.watermarks).Some?
  }

  ghost function Step(maxSize: nat, c: Consumer, e: Event): Consumer
    requires CanStep(maxSize, c, e)
  {
    match e
    case Polled(batch, watermarks) => PollOnce(maxSize, c, batch, watermarks).value.0
    case Pushed => HoldBack(c)
    case Waited => LetGo(c)
  }

  ghost predicate CanRun(maxSize: nat, c: Consumer, es: seq<Event>)
    decreases |es|
  {
    es != [] ==> CanStep(maxSize, c, es[0]) && CanRun(maxSize, Step(maxSize, c, es[0]), es[1..])
  }

  ghost function Run(maxSize: nat, c: Consumer, es: seq<Event>): Consumer
    requires CanRun(maxSize, c, es)
    decreases |es|
  {
    if es == [] then c else Run(maxSize, Step(maxSize, c, es[0]), es[1..])
  }

  lemma StepOk(maxSize: nat, c: Consumer, e: Event)
    requires PausedOk(c) && maxSize >= 1 && CanStep(maxSize, c, e)
    ensures PausedOk(Step(maxSize, c, e))
  {
    match e
    case Polled(batch, watermarks) => PollOk(maxSize, c, batch, watermarks);
    case Pushed => HoldBackOk(c);
    case Waited =>
  }

  lemma PollOk(maxSize: nat, c: Consumer, batch: seq<(nat, Message)>, watermarks: seq<int>)
    requires PausedOk(c) && maxSize >= 1 && CanStep(maxSize, c, Polled(batch, watermarks))
    ensures PausedOk(PollOnce(maxSize, c, batch, watermarks).value.0)
  {
    hide PausedOk, Pop, FeedBuffer;
    PopOk(c);
    FedOk(maxSize, c, batch, watermarks);
    var fed := FeedBuffer(maxSize, c, batch, watermarks);
    if fed.Some? {
      PopOk(fed.value);
    }
  }

  lemma HoldBackOk(c: Consumer)
    requires PausedOk(c)
    ensures PausedOk(HoldBack(c))
  {
    var d := HoldBack(c);
    forall i: nat ensures i in d.heldBack ==> i < |d.buffers| && d.buffers[i] == NewBuffer() {
      assert i in AllTopics(|c.buffers|) <==> i < |c.buffers|;
    }
    forall i: nat ensures i in d.paused <==> i < |d.buffers| {
      assert i in AllTopics(|c.buffers|) <==> i < |c.buffers|;
    }
    hide AllTopics, HoldBack;
  }

  lemma {:induction false} RunOk(maxSize: nat, c: Consumer, es: seq<Event>)
    requires PausedOk(c) && maxSize >= 1 && CanRun(maxSize, c, es)
    ensures PausedOk(Run(maxSize, c, es))
    decreases |es|
  {
    hide PausedOk, Step, CanStep;
    if es != [] {
      StepOk(maxSize, c, es[0]);
      RunOk(maxSize, Step(maxSize, c, es[0]), es[1..]);
    }
  }

  /**
   * No deadlock: in every run, when a poll of two topics or more comes back empty-handed, none of
   * the topics being waited for is paused at the client, unless a sink holds it back.
   */
  lemma NoDeadlock(maxSize: nat, n: nat, es: seq<Event>, batch: seq<(nat, Message)>, watermarks: seq<int>)
    requires maxSize >= 1 && n > 1
    requires var c := Consumer(seq(n, i => NewBuffer()), {}, {});
             CanRun(maxSize, c, es) && CanStep(maxSize, Run(maxSize, c, es), Polled(batch, watermarks))
    ensures var c := Run(maxSize, Consumer(seq(n, i => NewBuffer()), {}, {}), es);
            var r := PollOnce(maxSize, c, batch, watermarks).value;
            && PausedOk(r.0)
            && (|c.buffers| > 1 && r.1.None? ==>
                  forall i: nat :: i < |r.0.buffers| && r.0.buffers[i].Holds() && i in r.0.paused ==> i in r.0.heldBack)
  {
    var c0 := Consumer(seq(n, i => NewBuffer()), {}, {});
    assert PausedOk(c0);
    RunOk(maxSize, c0, es);
    var c := Run(maxSize, c0, es);
    hide CanRun, Run;
    StepOk(maxSize, c, Polled(batch, watermarks));
    var r := PollOnce(maxSize, c, batch, watermarks).value;
    if |c.buffers| > 1 && r.1.None? {
      FeedPauses(maxSize, c, batch, watermarks);
      PopNone(c.buffers);
      PopNone(FeedBuffer(maxSize, c, batch, watermarks).value.buffers);
    }
  }

  // ----- What can still go wrong -----

  /** Everything in the logs has been fetched, and the watermarks say so. */
  ghost predicate CaughtUp(bs: seq<Buffer>, ts: seq<Topic>) {
    AllTrack(bs, ts) && forall i :: 0 <= i < |ts| ==> ts[i].fetched == |ts[i].log| && bs[i].highWatermark == |ts[i].log|
  }

  /** A topic that already was at its end when reading began: nothing fetched from it, and not empty from the outset. */
  predicate Untouched(t: Topic) { t.fetched == t.start && t.log != [] }

  /**
   * With everything fetched, a group gives nothing exactly when it has nothing left or one of its
   * topics was at its end already when reading began: such a topic never counts as idle.
   */
  lemma StallExact(bs: seq<Buffer>, ts: seq<Topic>)
    requires |bs| > 1 && CaughtUp(bs, ts)
    ensures Pop(bs).1.None?
            <==> (forall i :: 0 <= i < |bs| ==> bs[i].messages == []) || (exists i :: 0 <= i < |ts| && Untouched(ts[i]))
  {
    forall i | 0 <= i < |bs| ensures bs[i].Holds() <==> Untouched(ts[i]) {
    }
    SoonestIsLeast(bs);
    assert Waits(bs) <==> exists i :: 0 <= i < |ts| && Untouched(ts[i]);
  }

  /** Where each topic is read on from after backpressure: from its seek offset, or else from where the client stood. */
  function Rewound(ts: seq<Topic>, seeks: map<nat, nat>): seq<Topic> {
    seq(|ts|, i requires 0 <= i < |ts| =>
      var at := if i in seeks then seeks[i] else ts[i].fetched;
      ts[i].(start := at, fetched := at, released := at))
  }

  /** Message k of topic i had not been released and will not be read again. */
  ghost predicate Skipped(ts: seq<Topic>, us: seq<Topic>, i: int, k: int) {
    0 <= i < |ts| && i < |us| && ts[i].released <= k < us[i].released
  }

  lemma RewoundTracks(c: Consumer, ts: seq<Topic>, seeks: map<nat, nat>)
    requires AllTrack(c.buffers, ts)
    requires forall i: nat :: i in seeks && i < |ts| ==> seeks[i] <= ts[i].released
    ensures AllTrack(HoldBack(c).buffers, Rewound(ts, seeks))
  {
    hide Tracks;
    forall i: nat | i < |ts| ensures Tracks(HoldBack(c).buffers[i], Rewound(ts, seeks)[i]) {
      FreshTracks(c.buffers[i], ts[i], if i in seeks then seeks[i] else ts[i].fetched);
    }
  }

  /** An empty buffer is in step with a topic read on from anywhere. */
  lemma FreshTracks(b: Buffer, t: Topic, at: nat)
    requires Tracks(b, t) && (at <= t.released || at == t.fetched)
    ensures Tracks(NewBuffer(), t.(start := at, fetched := at, released := at))
  {
  }

  /** After backpressure no message is skipped exactly when every topic without a seek offset had an empty buffer. */
  lemma BackpressureKeeps(c: Consumer, ts: seq<Topic>, seeks: map<nat, nat>)
    requires AllTrack(c.buffers, ts)
    requires forall i: nat :: i in seeks && i < |ts| ==> seeks[i] <= ts[i].released
    ensures AllTrack(HoldBack(c).buffers, Rewound(ts, seeks))
    ensures (forall i, k :: !Skipped(ts, Rewound(ts, seeks), i, k))
            <==> (forall i: nat :: i < |ts| && i !in seeks ==> c.buffers[i].messages == [])
  {
    RewoundTracks(c, ts, seeks);
    hide HoldBack, Rewound, Tracks;
    forall i: nat | i < |ts| ensures (exists k :: Skipped(ts, Rewound(ts, seeks), i, k))
                                     <==> i !in seeks && c.buffers[i].messages != [] {
      SkippedIff(c.buffers[i], ts, seeks, i);
    }
  }

  lemma SkippedIff(b: Buffer, ts: seq<Topic>, seeks: map<nat, nat>, i: nat)
    requires i < |ts| && Tracks(b, ts[i]) && (i in seeks ==> seeks[i] <= ts[i].released)
    ensures (exists k :: Skipped(ts, Rewound(ts, seeks), i, k)) <==> i !in seeks && b.messages != []
  {
    if i !in seeks && b.messages != [] {
      assert Skipped(ts, Rewound(ts, seeks), i, ts[i].released);
    }
  }

  /**
   * A fetched message with no seek offset for its topic: backpressure drops it from the buffer, and
   * it is not read again.
   */
  lemma SkipWitness()
    ensures var ts := [Topic([Message(0, 5)], 0, 1, 0, 1)];
            var c := Consumer([Buffer([Message(0, 5)], 0, 1, false)], {}, {});
            && AllTrack(c.buffers, ts) && HoldBack(c).buffers[0].messages == []
            && Rewound(ts, map[])[0].fetched == 1 && Skipped(ts, Rewound(ts, map[]), 0, 0)
  {
    var ts := [Topic([Message(0, 5)], 0, 1, 0, 1)];
    var c := Consumer([Buffer([Message(0, 5)], 0, 1, false)], {}, {});
    assert AllTrack(c.buffers, ts);
    assert HoldBack(c).buffers == [NewBuffer()];
    assert Rewound(ts, map[])[0] == Topic([Message(0, 5)], 1, 1, 1, 1);
  }
}
