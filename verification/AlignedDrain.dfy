/** Draining a group of topics to the end, and the topic that keeps its group from it. */
module AlignedDrain {
  import opened Wrappers
  import opened Buffering
  import opened Alignment
  import opened AlignedConsumer
  import opened AlignedRun
  import AlignedPause

  // ----- Progress -----

  /** A topic that has messages and was at its end when reading began: nothing will ever be fetched from it. */
  predicate AtEnd(t: Topic) { t.start == |t.log| && t.log != [] }

  ghost predicate NoneAtEnd(ts: seq<Topic>) {
    forall i :: 0 <= i < |ts| ==> !AtEnd(ts[i])
  }

  ghost predicate Drained(ts: seq<Topic>) {
    forall i :: 0 <= i < |ts| ==> ts[i].released == |ts[i].log|
  }

  /** Something is buffered, or there is nothing left to fetch. */
  predicate Stocked(t: Topic) { t.fetched > t.released || t.fetched == |t.log| }

  /** A buffer whose topic has been served, and was not at its end from the start, is not waited for. */
  lemma ServedDoesNotHold(b: Buffer, t: Topic)
    requires Tracks(b, t) && !AtEnd(t) && b.highWatermark == |t.log|
    requires Stocked(t)
    ensures !b.Holds() && (b.messages == [] ==> t.released == |t.log|)
  {
  }

  /** A group of served topics gives a message unless nothing is left. */
  lemma ServedPops(bs: seq<Buffer>, ts: seq<Topic>)
    requires AllTrack(bs, ts) && NoneAtEnd(ts)
    requires forall i :: 0 <= i < |bs| ==> bs[i].highWatermark == |ts[i].log|
    requires forall i :: 0 <= i < |ts| ==> Stocked(ts[i])
    ensures Pop(bs).1.None? ==> Drained(ts)
  {
    hide Tracks;
    forall i | 0 <= i < |bs| ensures !bs[i].Holds() && (bs[i].messages == [] ==> ts[i].released == |ts[i].log|) {
      ServedDoesNotHold(bs[i], ts[i]);
    }
    if bs != [] {
      SoonestIsLeast(bs);
    }
  }

  /** The watermarks a feed leaves behind are those reported. */
  lemma FeedReports(maxSize: nat, c: Consumer, ts: seq<Topic>, p: Poll)
    requires AllTrack(c.buffers, ts) && CanPoll(ts, p)
    ensures FeedBuffer(maxSize, c, Batch(ts, p.order), p.watermarks).Some?
    ensures var bs := FeedBuffer(maxSize, c, Batch(ts, p.order), p.watermarks).value.buffers;
            |bs| == |ts| && forall i :: 0 <= i < |ts| ==> bs[i].highWatermark == p.watermarks[i]
  {
    FeedTracks(maxSize, c, ts, p);
    hide AppendAll, Tracks, Batch;
  }

  /** A poll that reports everything and leaves every topic stocked gives a message, unless nothing is left. */
  lemma FullPollReleases(maxSize: nat, c: Consumer, ts: seq<Topic>, p: Poll)
    requires AllTrack(c.buffers, ts) && CanPoll(ts, p) && NoneAtEnd(ts)
    requires Pop(c.buffers).1.None? ==>
               && (forall i :: 0 <= i < |ts| ==> p.watermarks[i] == |ts[i].log|)
               && forall i :: 0 <= i < |ts| ==> Stocked(Fed(ts, p)[i])
    ensures After(maxSize, c, ts, p).2.None? ==> Drained(ts)
  {
    hide Tracks, FeedBuffer, Pop, Fed;
    FeedTracks(maxSize, c, ts, p);
    FeedReports(maxSize, c, ts, p);
    FedKeeps(ts, p);
    var fed := FeedBuffer(maxSize, c, Batch(ts, p.order), p.watermarks).value;
    if Pop(c.buffers).1.None? {
      ServedPops(fed.buffers, Fed(ts, p));
    }
  }

  lemma FedKeeps(ts: seq<Topic>, p: Poll)
    requires CanPoll(ts, p)
    ensures |Fed(ts, p)| == |ts|
    ensures forall i :: 0 <= i < |ts| ==>
                          && Fed(ts, p)[i].log == ts[i].log && Fed(ts, p)[i].released == ts[i].released
                          && Fed(ts, p)[i].start == ts[i].start
  {
    hide Delivered;
    DeliveredSize(ts, p.order);
  }

  /** How many messages are still to be released. */
  function Left(ts: seq<Topic>): int {
    if ts == [] then 0 else Left(ts[..|ts| - 1]) + |ts[|ts| - 1].log| - ts[|ts| - 1].released
  }

  lemma {:induction false} LeftSame(ts: seq<Topic>, us: seq<Topic>)
    requires |ts| == |us| && forall i :: 0 <= i < |ts| ==> ts[i].log == us[i].log && ts[i].released == us[i].released
    ensures Left(ts) == Left(us)
  {
    if ts != [] {
      LeftSame(ts[..|ts| - 1], us[..|us| - 1]);
    }
  }

  lemma {:induction false} LeftRelease(ts: seq<Topic>, i: nat)
    requires i < |ts|
    ensures Left(Release(ts, i)) == Left(ts) - 1
  {
    var last := |ts| - 1;
    if i < last {
      LeftRelease(ts[..last], i);
      assert Release(ts, i)[..last] == Release(ts[..last], i);
    } else {
      assert Release(ts, i)[..last] == ts[..last];
    }
  }

  lemma {:induction false} LeftNone(ts: seq<Topic>)
    requires forall i :: 0 <= i < |ts| ==> ts[i].released <= |ts[i].log|
    ensures Left(ts) >= 0 && (Left(ts) == 0 <==> Drained(ts))
  {
    if ts != [] {
      LeftNone(ts[..|ts| - 1]);
      assert ts == ts[..|ts| - 1] + [ts[|ts| - 1]];
    }
  }

  // ----- What the client delivers -----

  /** The buffers give nothing, so that the client is polled; it delivers nothing of a topic it has paused. */
  ghost predicate Respects(c: Consumer, p: Poll) {
    Pop(c.buffers).1.None? ==> forall i :: i in p.order ==> i !in c.paused
  }

  /** If polled, the client reports every watermark and leaves no topic empty that it may fetch more from. */
  ghost predicate Serves(c: Consumer, ts: seq<Topic>, p: Poll)
    requires CanPoll(ts, p)
  {
    && Respects(c, p)
    && (Pop(c.buffers).1.None? ==>
          && (forall i :: 0 <= i < |ts| ==> p.watermarks[i] == |ts[i].log|)
          && forall i: nat :: i < |ts| && i !in c.paused ==> Stocked(Fed(ts, p)[i]))
  }

  /** A run whose polls deliver nothing of paused topics. */
  ghost predicate AllRespect(maxSize: nat, c: Consumer, ts: seq<Topic>, polls: seq<Poll>)
    requires CanRun(maxSize, c, ts, polls)
    decreases |polls|
  {
    polls != [] ==>
      && Respects(c, polls[0])
      && var (c1, ts1, _) := After(maxSize, c, ts, polls[0]);
         AllRespect(maxSize, c1, ts1, polls[1..])
  }

  /** A run in which every poll serves the topics that are not paused. */
  ghost predicate AllServe(maxSize: nat, c: Consumer, ts: seq<Topic>, polls: seq<Poll>)
    requires CanRun(maxSize, c, ts, polls)
    decreases |polls|
  {
    polls != [] ==>
      && Serves(c, ts, polls[0])
      && var (c1, ts1, _) := After(maxSize, c, ts, polls[0]);
         AllServe(maxSize, c1, ts1, polls[1..])
  }

  /** The client is in step with the buffers and the logs; of a topic held back nothing has been fetched since. */
  ghost predicate InStep(c: Consumer, ts: seq<Topic>) {
    && AllTrack(c.buffers, ts) && AlignedPause.PausedOk(c)
    && forall i: nat :: i in c.heldBack ==> i < |ts| && ts[i].fetched == ts[i].start
  }

  /** A topic of which nothing has been read, from wherever reading begins. */
  ghost predicate Unread(t: Topic) {
    SortedLog(t.log) && t.start == t.released == t.fetched <= |t.log| && t.known <= |t.log|
  }

  /** Reading begins in step. */
  lemma BeginsInStep(ts: seq<Topic>)
    requires forall i :: 0 <= i < |ts| ==> Unread(ts[i])
    ensures InStep(Consumer(seq(|ts|, i => NewBuffer()), {}, {}), ts)
  {
  }

  /** Backpressure keeps the client in step, whatever is sought. */
  lemma BackpressureInStep(c: Consumer, ts: seq<Topic>, seeks: map<nat, nat>)
    requires InStep(c, ts) && forall i: nat :: i in seeks && i < |ts| ==> seeks[i] <= ts[i].released
    ensures InStep(HoldBack(c), AlignedPause.Rewound(ts, seeks))
  {
    hide Tracks, AlignedPause.PausedOk;
    AlignedPause.RewoundTracks(c, ts, seeks);
    AlignedPause.HoldBackOk(c);
    HeldAreTopics(c);
    hide HoldBack;
  }

  lemma HeldAreTopics(c: Consumer)
    requires AlignedPause.PausedOk(c)
    ensures forall i: nat :: i in HoldBack(c).heldBack ==> i < |c.buffers|
  {
  }

  /** So does letting go after the wait. */
  lemma LetGoInStep(c: Consumer, ts: seq<Topic>)
    requires InStep(c, ts)
    ensures InStep(LetGo(c), ts)
  {
    hide Tracks;
  }

  /** A topic that keeps its group waiting: at its end from the start, or held back by a sink. */
  ghost predicate Blocks(c: Consumer, ts: seq<Topic>, i: nat)
    requires i < |ts|
  {
    AtEnd(ts[i]) || (i in c.heldBack && ts[i].log != [])
  }

  ghost predicate NoneBlocks(c: Consumer, ts: seq<Topic>) {
    forall i: nat :: i < |ts| ==> !Blocks(c, ts, i)
  }

  /** The paused topics, too, are stocked. */
  ghost predicate Ready(c: Consumer, ts: seq<Topic>) {
    forall i: nat :: i in c.paused && i < |ts| ==> Stocked(ts[i])
  }

  lemma {:induction false} BatchTopics(ts: seq<Topic>, order: seq<nat>)
    requires CanDeliver(ts, order)
    ensures forall x :: x in Batch(ts, order) ==> x.0 in order
    decreases |order|
  {
    if order != [] {
      BatchTopics(Fetch(ts, order[0]), order[1..]);
    }
  }

  lemma {:induction false} DeliveredSkips(ts: seq<Topic>, order: seq<nat>, i: nat)
    requires CanDeliver(ts, order) && i < |ts| && i !in order
    ensures i < |Delivered(ts, order)| && Delivered(ts, order)[i] == ts[i]
    decreases |order|
  {
    if order != [] {
      DeliveredSkips(Fetch(ts, order[0]), order[1..], i);
    }
  }

  /** Nothing is fetched of a topic the client does not deliver. */
  lemma FedSkips(ts: seq<Topic>, p: Poll, i: nat)
    requires CanPoll(ts, p) && i < |ts| && i !in p.order
    ensures |Fed(ts, p)| == |ts| && Fed(ts, p)[i].fetched == ts[i].fetched
  {
    hide Delivered;
    DeliveredSkips(ts, p.order, i);
  }

  /** After a feed, what is paused by its buffer is stocked. */
  lemma FedStocks(maxSize: nat, c: Consumer, batch: seq<(nat, Message)>, watermarks: seq<int>)
    requires maxSize >= 1 && |watermarks| == |c.buffers| && forall x :: x in batch ==> x.0 < |c.buffers|
    ensures var r := FeedBuffer(maxSize, c, batch, watermarks);
            r.Some? ==> forall b :: b in r.value.buffers && b.paused ==> b.messages != []
  {
    hide AppendAll;
  }

  /** The consumer and the topics of one poll: what was popped at once, or what the feed and the pop after it leave. */
  lemma AfterIs(maxSize: nat, c: Consumer, ts: seq<Topic>, p: Poll)
    requires AllTrack(c.buffers, ts) && CanPoll(ts, p)
    ensures var (c1, ts1, m) := After(maxSize, c, ts, p);
            var fed := FeedBuffer(maxSize, c, Batch(ts, p.order), p.watermarks);
            if Pop(c.buffers).1.Some? then
              c1 == c.(buffers := Pop(c.buffers).0) && ts1 == Popped(ts, m) && m == Pop(c.buffers).1
            else
              && fed.Some? && c1 == fed.value.(buffers := Pop(fed.value.buffers).0)
              && ts1 == Popped(Fed(ts, p), m) && m == Pop(fed.value.buffers).1
  {
    hide Tracks, FeedBuffer, Pop, Fed;
    FeedTracks(maxSize, c, ts, p);
  }

  lemma PoppedKeeps(ts: seq<Topic>, m: Option<(nat, Message)>)
    ensures |Popped(ts, m)| == |ts|
    ensures forall i :: 0 <= i < |ts| ==>
                          && Popped(ts, m)[i].log == ts[i].log && Popped(ts, m)[i].start == ts[i].start
                          && Popped(ts, m)[i].fetched == ts[i].fetched
  {
  }

  /** What polls that respect pauses keep. */
  lemma StaysInStep(maxSize: nat, c: Consumer, ts: seq<Topic>, p: Poll)
    requires maxSize >= 1 && InStep(c, ts) && CanPoll(ts, p) && Respects(c, p)
    ensures var (c1, ts1, _) := After(maxSize, c, ts, p);
            && InStep(c1, ts1) && c1.heldBack == c.heldBack && |ts1| == |ts|
            && forall i :: 0 <= i < |ts| ==> ts1[i].log == ts[i].log && ts1[i].start == ts[i].start
  {
    hide Tracks, FeedBuffer, Pop, Fed, Popped, After;
    var (c1, ts1, m) := After(maxSize, c, ts, p);
    AfterIs(maxSize, c, ts, p);
    AfterOk(maxSize, c, ts, p);
    if Pop(c.buffers).1.Some? {
      AlignedPause.PopOk(c);
      PoppedKeeps(ts, m);
    } else {
      var fed := FeedBuffer(maxSize, c, Batch(ts, p.order), p.watermarks).value;
      BatchTopics(ts, p.order);
      AlignedPause.FedOk(maxSize, c, Batch(ts, p.order), p.watermarks);
      AlignedPause.PopOk(fed);
      FedKeeps(ts, p);
      PoppedKeeps(Fed(ts, p), m);
      forall i: nat | i in c.heldBack ensures i < |ts| && Fed(ts, p)[i].fetched == ts[i].fetched {
        FedSkips(ts, p, i);
      }
    }
  }

  lemma AlignedInside(ts: seq<Topic>, i: nat, m: Message)
    requires Aligned(ts, i, m)
    ensures i < |ts|
  {
  }

  lemma TracksInside(bs: seq<Buffer>, ts: seq<Topic>)
    requires AllTrack(bs, ts)
    ensures forall i :: 0 <= i < |ts| ==> ts[i].released <= |ts[i].log|
  {
  }

  /** A serving poll that gives nothing leaves every paused topic stocked. */
  lemma GetsReady(maxSize: nat, c: Consumer, ts: seq<Topic>, p: Poll)
    requires maxSize >= 1 && InStep(c, ts) && NoneBlocks(c, ts) && CanPoll(ts, p) && Serves(c, ts, p)
    ensures var (c1, ts1, m) := After(maxSize, c, ts, p); m.None? ==> Ready(c1, ts1)
  {
    hide FeedBuffer, Pop, Fed, After;
    var (c1, ts1, m) := After(maxSize, c, ts, p);
    if m.None? {
      AfterIs(maxSize, c, ts, p);
      StaysInStep(maxSize, c, ts, p);
      FedStocks(maxSize, c, Batch(ts, p.order), p.watermarks);
      var fed := FeedBuffer(maxSize, c, Batch(ts, p.order), p.watermarks).value;
      PopNone(fed.buffers);
      forall i: nat | i in c1.paused && i < |ts1| ensures Stocked(ts1[i]) {
        if c1.buffers[i].paused {
          assert fed.buffers[i] in fed.buffers;
        } else {
          assert !Blocks(c, ts, i);
        }
      }
    }
  }

  /** A serving poll of a ready consumer serves all topics. */
  lemma ReadyReleases(maxSize: nat, c: Consumer, ts: seq<Topic>, p: Poll)
    requires InStep(c, ts) && NoneBlocks(c, ts) && CanPoll(ts, p) && Serves(c, ts, p) && Ready(c, ts)
    ensures After(maxSize, c, ts, p).2.None? ==> Drained(ts)
  {
    hide Tracks, Pop, Fed, After;
    forall i | 0 <= i < |ts| ensures !AtEnd(ts[i]) {
      assert !Blocks(c, ts, i);
    }
    if Pop(c.buffers).1.None? {
      FedKeeps(ts, p);
      forall i: nat | i < |ts| ensures Stocked(Fed(ts, p)[i]) {
        if i in c.paused {
          FedSkips(ts, p, i);
        }
      }
    }
    FullPollReleases(maxSize, c, ts, p);
  }

  /** Of two serving polls in a row one gives a message, unless nothing is left. */
  lemma TwoPollsRelease(maxSize: nat, c: Consumer, ts: seq<Topic>, p: Poll, q: Poll)
    requires maxSize >= 1 && InStep(c, ts) && NoneBlocks(c, ts) && CanPoll(ts, p) && Serves(c, ts, p)
    requires var (c1, ts1, _) := After(maxSize, c, ts, p);
             InStep(c1, ts1) && CanPoll(ts1, q) && Serves(c1, ts1, q)
    ensures var (c1, ts1, m) := After(maxSize, c, ts, p);
            m.None? && After(maxSize, c1, ts1, q).2.None? ==> Drained(ts)
  {
    SameTracks(c, ts);
    hide After, CanPoll, Serves, Tracks, InStep, NoneBlocks, Drained;
    var (c1, ts1, m) := After(maxSize, c, ts, p);
    GetsReady(maxSize, c, ts, p);
    ServingStep(maxSize, c, ts, p);
    if m.None? {
      ReadyReleases(maxSize, c1, ts1, q);
      if !Drained(ts) {
        StaysUndrained(maxSize, c, ts, p);
      }
    }
  }

  lemma SameTracks(c: Consumer, ts: seq<Topic>)
    requires InStep(c, ts)
    ensures AllTrack(c.buffers, ts)
  {
  }

  /** How many polls may still be needed: two for each message left, one less if the paused topics are stocked. */
  ghost function Needed(c: Consumer, ts: seq<Topic>): int {
    if Left(ts) <= 0 then 0 else 2 * Left(ts) - if Ready(c, ts) then 1 else 0
  }

  /** A serving poll keeps everything in step, and fewer polls are needed after it. */
  lemma ServingStep(maxSize: nat, c: Consumer, ts: seq<Topic>, p: Poll)
    requires maxSize >= 1 && InStep(c, ts) && NoneBlocks(c, ts) && CanPoll(ts, p) && Serves(c, ts, p)
    ensures var (c1, ts1, _) := After(maxSize, c, ts, p);
            && InStep(c1, ts1) && NoneBlocks(c1, ts1)
            && (Needed(c1, ts1) < Needed(c, ts) || Needed(c1, ts1) == Needed(c, ts) == 0)
  {
    StaysInStep(maxSize, c, ts, p);
    LeftAfter(maxSize, c, ts, p);
    GetsReady(maxSize, c, ts, p);
    hide After, Tracks, Serves, AtEnd, Left, Ready, AlignedPause.PausedOk;
    var (c1, ts1, m) := After(maxSize, c, ts, p);
    forall i: nat | i < |ts1| ensures !Blocks(c1, ts1, i) {
      assert !Blocks(c, ts, i);
    }
    TracksInside(c.buffers, ts);
    LeftNone(ts);
    if m.None? && Ready(c, ts) {
      ReadyReleases(maxSize, c, ts, p);
    }
  }

  lemma LeftAfter(maxSize: nat, c: Consumer, ts: seq<Topic>, p: Poll)
    requires AllTrack(c.buffers, ts) && CanPoll(ts, p)
    ensures var (_, ts1, m) := After(maxSize, c, ts, p); Left(ts1) == Left(ts) - if m.Some? then 1 else 0
  {
    AfterOk(maxSize, c, ts, p);
    FedKeeps(ts, p);
    hide After, Fed, Aligned, Tracks, Left;
    var (c1, ts1, m) := After(maxSize, c, ts, p);
    if m.Some? {
      var at :| (at == ts || at == Fed(ts, p)) && Aligned(at, m.value.0, m.value.1) && ts1 == Popped(at, m);
      AlignedInside(at, m.value.0, m.value.1);
      LeftSame(at, ts);
      LeftRelease(at, m.value.0);
    } else {
      LeftSame(Fed(ts, p), ts);
    }
  }

  /**
   * Draining comes to its end: if no topic was at its end when reading began or is held back, polls
   * that serve what is not paused release everything, in no more than two polls for each message
   * left. What they release is the sorted merge of SnapshotMerge.
   */
  lemma {:induction false} Drains(maxSize: nat, c: Consumer, ts: seq<Topic>, polls: seq<Poll>)
    requires maxSize >= 1 && InStep(c, ts) && NoneBlocks(c, ts)
    requires CanRun(maxSize, c, ts, polls) && AllServe(maxSize, c, ts, polls) && |polls| >= Needed(c, ts)
    ensures Drained(Released(maxSize, c, ts, polls).1)
    decreases |polls|
  {
    if polls == [] {
      TracksInside(c.buffers, ts);
      LeftNone(ts);
    } else {
      hide After, CanPoll, InStep, NoneBlocks, Drained, Serves, Needed;
      ServingStep(maxSize, c, ts, polls[0]);
      var (c1, ts1, m) := After(maxSize, c, ts, polls[0]);
      Drains(maxSize, c1, ts1, polls[1..]);
    }
  }

  // ----- Serving is always possible -----

  /** All that is left to fetch of topic i. */
  function RestOf(ts: seq<Topic>, i: nat): nat
    requires i < |ts|
  {
    if ts[i].fetched < |ts[i].log| then |ts[i].log| - ts[i].fetched else 0
  }

  /** The broker can always deliver all there is of the topics below n that are not to be skipped. */
  lemma {:induction false} DeliverAll(ts: seq<Topic>, n: nat, skip: set<nat>) returns (order: seq<nat>)
    requires n <= |ts| && forall i :: 0 <= i < |ts| ==> ts[i].fetched <= |ts[i].log|
    ensures CanDeliver(ts, order) && |Delivered(ts, order)| == |ts| && forall i :: i in order ==> i !in skip
    ensures forall i: nat :: i < n && i !in skip ==> Delivered(ts, order)[i].fetched == |ts[i].log|
    decreases n, if n > 0 then RestOf(ts, n - 1) else 0
  {
    if n == 0 {
      order := [];
    } else if n - 1 !in skip && ts[n - 1].fetched < |ts[n - 1].log| {
      var rest := DeliverAll(Fetch(ts, n - 1), n, skip);
      order := [n - 1] + rest;
      assert order[1..] == rest;
    } else {
      order := DeliverAll(ts, n - 1, skip);
      if n - 1 !in skip {
        DeliveredFull(ts, order, n - 1);
      }
    }
  }

  /** A topic with nothing left to fetch stays so. */
  lemma {:induction false} DeliveredFull(ts: seq<Topic>, order: seq<nat>, i: nat)
    requires CanDeliver(ts, order) && i < |ts| && ts[i].fetched == |ts[i].log|
    ensures i < |Delivered(ts, order)| && Delivered(ts, order)[i].fetched == |ts[i].log|
    decreases |order|
  {
    if order != [] {
      DeliveredFull(Fetch(ts, order[0]), order[1..], i);
    }
  }

  /** Whatever is paused, the client can serve the rest. */
  lemma SomePollServes(c: Consumer, ts: seq<Topic>) returns (p: Poll)
    requires AllTrack(c.buffers, ts)
    ensures CanPoll(ts, p) && Serves(c, ts, p) && forall i :: 0 <= i < |ts| ==> p.watermarks[i] == |ts[i].log|
  {
    var order := DeliverAll(ts, |ts|, c.paused);
    DeliveredSize(ts, order);
    p := Poll(order, seq(|ts|, i requires 0 <= i < |ts| => |ts[i].log|));
    hide Delivered, CanDeliver, Pop;
  }

  // ----- The topic that stalls its group -----

  /** A topic at its end keeps its buffer empty and is never idle once its watermark is known. */
  lemma AtEndHolds(b: Buffer, t: Topic)
    requires Tracks(b, t) && AtEnd(t) && (t.known < 0 || t.known == |t.log|)
    ensures b.Holds()
  {
  }

  lemma AtEndWaits(bs: seq<Buffer>, ts: seq<Topic>, i: nat)
    requires AllTrack(bs, ts) && Snapshot(ts) && |ts| > 1 && i < |ts| && AtEnd(ts[i])
    ensures Pop(bs).1.None? && Pop(bs).0 == bs
  {
    hide Tracks;
    AtEndHolds(bs[i], ts[i]);
  }

  lemma StalledPoll(maxSize: nat, c: Consumer, ts: seq<Topic>, p: Poll, i: nat)
    requires AllTrack(c.buffers, ts) && Snapshot(ts) && |ts| > 1 && i < |ts| && AtEnd(ts[i]) && CanPoll(ts, p)
    requires forall j :: 0 <= j < |ts| ==> p.watermarks[j] < 0 || p.watermarks[j] == |ts[j].log|
    ensures var (c1, ts1, m) := After(maxSize, c, ts, p);
            m.None? && ts1 == Fed(ts, p) && AllTrack(c1.buffers, ts1) && Snapshot(ts1) && |ts1| == |ts| && AtEnd(ts1[i])
  {
    AtEndWaits(c.buffers, ts, i);
    FeedTracks(maxSize, c, ts, p);
    FedIs(ts, p);
    FedKeeps(ts, p);
    hide Tracks, FeedBuffer, Pop, Fed;
    AtEndWaits(FeedBuffer(maxSize, c, Batch(ts, p.order), p.watermarks).value.buffers, Fed(ts, p), i);
    AfterOk(maxSize, c, ts, p);
  }

  /**
   * A topic that was at its end when reading began stalls its group for as long as nothing new
   * arrives in it: whatever the polls deliver, and whether other topics are full or paused,
   * nothing is released.
   */
  lemma {:induction false} StalledForGood(maxSize: nat, c: Consumer, ts: seq<Topic>, polls: seq<Poll>, i: nat)
    requires AllTrack(c.buffers, ts) && Snapshot(ts) && CanRun(maxSize, c, ts, polls)
    requires |ts| > 1 && i < |ts| && AtEnd(ts[i])
    ensures Released(maxSize, c, ts, polls).0 == []
    decreases |polls|
  {
    if polls != [] {
      hide After, CanPoll, Tracks, Fed, AllTrack, Snapshot;
      StalledPoll(maxSize, c, ts, polls[0], i);
      var (c1, ts1, m) := After(maxSize, c, ts, polls[0]);
      StalledForGood(maxSize, c1, ts1, polls[1..], i);
    }
  }

  /** So does a topic a sink holds back, unless its log is empty: nothing is fetched of it. */
  lemma HeldWaits(c: Consumer, ts: seq<Topic>, i: nat)
    requires InStep(c, ts) && Snapshot(ts) && i < |ts| && i in c.heldBack && ts[i].log != []
    ensures Pop(c.buffers).1.None?
  {
    assert c.buffers[i].messages == [] && Tracks(c.buffers[i], ts[i]);
  }

  lemma HeldPoll(maxSize: nat, c: Consumer, ts: seq<Topic>, p: Poll, i: nat)
    requires maxSize >= 1 && InStep(c, ts) && Snapshot(ts) && CanPoll(ts, p) && Respects(c, p)
    requires i < |ts| && i in c.heldBack && ts[i].log != []
    requires forall j :: 0 <= j < |ts| ==> p.watermarks[j] < 0 || p.watermarks[j] == |ts[j].log|
    ensures var (c1, ts1, m) := After(maxSize, c, ts, p);
            m.None? && InStep(c1, ts1) && Snapshot(ts1) && i < |ts1| && i in c1.heldBack && ts1[i].log != []
  {
    hide Tracks, FeedBuffer, Pop, Fed, After, Popped;
    HeldWaits(c, ts, i);
    AfterIs(maxSize, c, ts, p);
    FedIs(ts, p);
    FedKeeps(ts, p);
    StaysInStep(maxSize, c, ts, p);
    var fed := FeedBuffer(maxSize, c, Batch(ts, p.order), p.watermarks).value;
    BatchTopics(ts, p.order);
    AlignedPause.FedOk(maxSize, c, Batch(ts, p.order), p.watermarks);
    FeedTracks(maxSize, c, ts, p);
    forall j: nat | j in c.heldBack ensures j < |ts| && Fed(ts, p)[j].fetched == Fed(ts, p)[j].start {
      FedSkips(ts, p, j);
    }
    HeldWaits(fed, Fed(ts, p), i);
    NothingPopped(Fed(ts, p));
  }

  lemma NothingPopped(ts: seq<Topic>)
    ensures Popped(ts, None) == ts
  {
  }

  /** For as long as a sink holds a topic back, its group releases nothing, unless the topic's log is empty. */
  lemma {:induction false} HeldForGood(maxSize: nat, c: Consumer, ts: seq<Topic>, polls: seq<Poll>, i: nat)
    requires maxSize >= 1 && InStep(c, ts) && Snapshot(ts)
    requires CanRun(maxSize, c, ts, polls) && AllRespect(maxSize, c, ts, polls)
    requires i < |ts| && i in c.heldBack && ts[i].log != []
    ensures Released(maxSize, c, ts, polls).0 == []
    decreases |polls|
  {
    if polls != [] {
      hide After, CanPoll, InStep, Snapshot, Respects;
      HeldPoll(maxSize, c, ts, polls[0], i);
      var (c1, ts1, m) := After(maxSize, c, ts, polls[0]);
      HeldForGood(maxSize, c1, ts1, polls[1..], i);
    }
  }

  /** A run of the client that releases something. */
  ghost predicate Moves(maxSize: nat, c: Consumer, ts: seq<Topic>, polls: seq<Poll>) {
    && CanRun(maxSize, c, ts, polls) && AllRespect(maxSize, c, ts, polls)
    && Released(maxSize, c, ts, polls).0 != []
  }

  /**
   * The exact condition: over a snapshot that is not drained yet, some run of polls that delivers
   * nothing of paused topics releases a message if and only if no topic was at its end when
   * reading began and none that is not empty is held back.
   */
  lemma ReleasesIff(maxSize: nat, c: Consumer, ts: seq<Topic>)
    requires maxSize >= 1 && InStep(c, ts) && Snapshot(ts) && !Drained(ts)
    ensures (exists polls :: Moves(maxSize, c, ts, polls)) <==> NoneBlocks(c, ts)
  {
    hide InStep, NoneBlocks, Drained, Snapshot, Moves;
    if NoneBlocks(c, ts) {
      SomeRunMoves(maxSize, c, ts);
    } else {
      forall polls ensures !Moves(maxSize, c, ts, polls) {
        BlockedStays(maxSize, c, ts, polls);
      }
    }
  }

  lemma BlockedStays(maxSize: nat, c: Consumer, ts: seq<Topic>, polls: seq<Poll>)
    requires maxSize >= 1 && InStep(c, ts) && Snapshot(ts) && !Drained(ts) && !NoneBlocks(c, ts)
    ensures !Moves(maxSize, c, ts, polls)
  {
    hide CanRun, AllRespect, Released, Snapshot, AlignedPause.PausedOk;
    var i: nat :| i < |ts| && Blocks(c, ts, i);
    if CanRun(maxSize, c, ts, polls) && AllRespect(maxSize, c, ts, polls) {
      if AtEnd(ts[i]) {
        EndAlone(c.buffers, ts, i);
        StalledForGood(maxSize, c, ts, polls, i);
      } else {
        HeldForGood(maxSize, c, ts, polls, i);
      }
    }
  }

  /** A topic at its end has nothing left, so there is another one. */
  lemma EndAlone(bs: seq<Buffer>, ts: seq<Topic>, i: nat)
    requires AllTrack(bs, ts) && i < |ts| && AtEnd(ts[i]) && !Drained(ts)
    ensures |ts| > 1
  {
    assert Tracks(bs[i], ts[i]);
  }

  /** One poll, or two if a topic that is paused has to be resumed first. */
  lemma SomeRunMoves(maxSize: nat, c: Consumer, ts: seq<Topic>)
    requires maxSize >= 1 && InStep(c, ts) && Snapshot(ts) && !Drained(ts) && NoneBlocks(c, ts)
    ensures exists polls :: Moves(maxSize, c, ts, polls)
  {
    hide CanRun, AllRespect, Released, After, CanPoll, Drained, Needed, Tracks, Snapshot;
    var p := SomePollServes(c, ts);
    var (c1, ts1, m) := After(maxSize, c, ts, p);
    NoPolls(maxSize, c1, ts1);
    if m.Some? {
      RunFront(maxSize, c, ts, p, []);
      assert Moves(maxSize, c, ts, [p] + []);
    } else {
      ServingStep(maxSize, c, ts, p);
      GetsReady(maxSize, c, ts, p);
      StaysUndrained(maxSize, c, ts, p);
      var q := SomePollServes(c1, ts1);
      ReadyReleases(maxSize, c1, ts1, q);
      NoPolls(maxSize, After(maxSize, c1, ts1, q).0, After(maxSize, c1, ts1, q).1);
      RunFront(maxSize, c1, ts1, q, []);
      RunFront(maxSize, c, ts, p, [q] + []);
      assert Moves(maxSize, c, ts, [p] + ([q] + []));
    }
  }

  lemma NoPolls(maxSize: nat, c: Consumer, ts: seq<Topic>)
    ensures CanRun(maxSize, c, ts, []) && AllRespect(maxSize, c, ts, [])
  {
  }

  lemma StaysUndrained(maxSize: nat, c: Consumer, ts: seq<Topic>, p: Poll)
    requires AllTrack(c.buffers, ts) && CanPoll(ts, p) && After(maxSize, c, ts, p).2.None? && !Drained(ts)
    ensures !Drained(After(maxSize, c, ts, p).1)
  {
    AfterOk(maxSize, c, ts, p);
    FedKeeps(ts, p);
    hide After, Fed, Tracks, Aligned;
  }

  /** A run that begins with a poll that reports everything. */
  lemma RunFront(maxSize: nat, c: Consumer, ts: seq<Topic>, p: Poll, polls: seq<Poll>)
    requires AllTrack(c.buffers, ts) && CanPoll(ts, p) && Respects(c, p)
    requires forall i :: 0 <= i < |ts| ==> p.watermarks[i] == |ts[i].log|
    requires var (c1, ts1, _) := After(maxSize, c, ts, p);
             CanRun(maxSize, c1, ts1, polls) && AllRespect(maxSize, c1, ts1, polls)
    ensures var (c1, ts1, m) := After(maxSize, c, ts, p);
            && CanRun(maxSize, c, ts, [p] + polls) && AllRespect(maxSize, c, ts, [p] + polls)
            && Released(maxSize, c, ts, [p] + polls).0
               == (if m.Some? then [m.value] else []) + Released(maxSize, c1, ts1, polls).0
  {
    hide After, CanPoll, Tracks, Respects;
    assert ([p] + polls)[1..] == polls;
  }

  // ----- Inputs that show what goes wrong -----

  /** Two topics with one message each, the first read to its end before: the second one's message waits. */
  lemma StallWitness()
    ensures var log := [Message(0, 5)];
            var ts := [Topic(log, 1, 1, 1, 1), Topic(log, 0, 1, 0, 1)];
            var bs := [Buffer([], -1, 1, false), Buffer(log, 0, 1, false)];
            AllTrack(bs, ts) && Snapshot(ts) && AtEnd(ts[0]) && !Drained(ts) && Pop(bs).1.None?
  {
    var log := [Message(0, 5)];
    var ts := [Topic(log, 1, 1, 1, 1), Topic(log, 0, 1, 0, 1)];
    var bs := [Buffer([], -1, 1, false), Buffer(log, 0, 1, false)];
    assert AllTrack(bs, ts);
    AtEndWaits(bs, ts, 0);
    assert ts[1].released != |ts[1].log|;
  }

  /**
   * Two topics of two messages each, both paused, one with an empty buffer: three messages are left,
   * and no poll gives one, because the first only lets the empty topic be resumed.
   */
  lemma PausedWitness(p: Poll)
    requires var ts := PausedTopics(); CanPoll(ts, p) && Serves(PausedConsumer(), ts, p)
    ensures InStep(PausedConsumer(), PausedTopics()) && NoneBlocks(PausedConsumer(), PausedTopics())
    ensures After(1, PausedConsumer(), PausedTopics(), p).2.None?
    ensures Left(PausedTopics()) == 3
  {
    var c, ts := PausedConsumer(), PausedTopics();
    PausedStart();
    assert c.buffers[0].Holds();
    AfterIs(1, c, ts, p);
    NothingDelivered(ts, p);
    var fed := FeedBuffer(1, c, Batch(ts, p.order), p.watermarks).value;
    FeedReports(1, c, ts, p);
    FeedTracks(1, c, ts, p);
    FedSkips(ts, p, 0);
    FedKeeps(ts, p);
    hide FeedBuffer, After, Fed, Pop;
    assert Tracks(fed.buffers[0], Fed(ts, p)[0]);
    assert fed.buffers[0].Holds();
    PopWaits(fed.buffers, 0);
  }

  lemma PopWaits(bs: seq<Buffer>, i: nat)
    requires |bs| > 1 && i < |bs| && bs[i].Holds()
    ensures Pop(bs).1.None?
  {
  }

  function PausedTopics(): seq<Topic> {
    var log := [Message(0, 5), Message(1, 5)];
    [Topic(log, 0, 1, 1, 2), Topic(log, 0, 1, 0, 2)]
  }

  function PausedConsumer(): Consumer {
    Consumer([Buffer([], 0, -1001, true), Buffer([Message(0, 5)], 0, 2, true)], {0, 1}, {})
  }

  lemma PausedStart()
    ensures InStep(PausedConsumer(), PausedTopics()) && NoneBlocks(PausedConsumer(), PausedTopics())
    ensures Left(PausedTopics()) == 3 && Pop(PausedConsumer().buffers).1.None?
  {
    var c, ts := PausedConsumer(), PausedTopics();
    assert AllTrack(c.buffers, ts);
    assert c.buffers[0].Holds();
    assert ts[..1] == [ts[0]] && ts[..1][..0] == [];
    assert Left(ts[..1]) == 1;
  }

  lemma SomeMember<T>(s: seq<T>)
    ensures s != [] ==> s[0] in s
  {
  }

  lemma NothingDelivered(ts: seq<Topic>, p: Poll)
    requires ts == PausedTopics() && CanPoll(ts, p) && Serves(PausedConsumer(), ts, p)
    ensures p.order == []
  {
    PausedStart();
    SomeMember(p.order);
  }
}
