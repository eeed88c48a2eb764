/** What the aligned consumption of a group's topics delivers (internal_consumer/buffering.py, consumer.py). */
module Alignment {
  import opened Wrappers
  import opened Buffering

  /**
   * One topic's log in the broker and how far it has been read: from start, fetched up to fetched,
   * released up to released. known is the last watermark that was fed.
   */
  datatype Topic = Topic(log: seq<Message>, start: nat, fetched: nat, released: nat, known: int)

  ghost predicate SortedLog(log: seq<Message>) {
    && (forall k :: 0 <= k < |log| ==> log[k].offset == k)
    && forall j, k :: 0 <= j < k < |log| ==> log[j].ts <= log[k].ts
  }

  /** The buffer holds exactly what has been fetched and not yet released. */
  ghost predicate Tracks(b: Buffer, t: Topic) {
    && SortedLog(t.log) && t.start <= t.released <= t.fetched <= |t.log| && t.known <= |t.log|
    && b.messages == t.log[t.released..t.fetched]
    && b.maxOffset == (if t.fetched == t.start then -1 else t.fetched - 1)
    && (b.highWatermark < 0 || b.highWatermark == t.known)
  }

  ghost predicate AllTrack(bs: seq<Buffer>, ts: seq<Topic>) {
    |bs| == |ts| && forall i :: 0 <= i < |bs| ==> Tracks(bs[i], ts[i])
  }

  /** The buffer to pop from has the earliest next timestamp, and is the first of those that have it. */
  lemma {:induction false} SoonestIsLeast(bs: seq<Buffer>)
    requires bs != []
    ensures forall j :: 0 <= j < Soonest(bs) ==> Earlier(bs[Soonest(bs)].NextTimestamp(), bs[j].NextTimestamp())
    ensures forall j :: 0 <= j < |bs| ==> !Earlier(bs[j].NextTimestamp(), bs[Soonest(bs)].NextTimestamp())
  {
    if |bs| > 1 {
      SoonestIsLeast(bs[..|bs| - 1]);
    }
  }

  function Release(ts: seq<Topic>, i: nat): seq<Topic>
    requires i < |ts|
  {
    ts[i := ts[i].(released := ts[i].released + 1)]
  }

  /**
   * Releases are in time order: with two topics or more, what is popped is the next message of its
   * topic, and no later than any unreleased message below its topic's last watermark.
   */
  lemma PopAligned(bs: seq<Buffer>, ts: seq<Topic>)
    requires AllTrack(bs, ts)
    ensures Pop(bs).1.None? ==> Pop(bs).0 == bs
    ensures Pop(bs).1.Some? ==>
              var (i, m) := Pop(bs).1.value;
              && i < |ts| && ts[i].released < ts[i].fetched && m == ts[i].log[ts[i].released]
              && AllTrack(Pop(bs).0, Release(ts, i))
              && (|bs| > 1 ==>
                      forall j, k :: 0 <= j < |ts| && ts[j].released <= k < ts[j].known ==> m.ts <= ts[j].log[k].ts)
              && (|bs| > 1 ==>
                      forall j :: 0 <= j < |ts| ==>
                        ts[j].released < ts[j].fetched || 0 <= ts[j].known <= ts[j].released)
              && forall j, k :: 0 <= j < |ts| && ts[j].released < ts[j].fetched && ts[j].released <= k < |ts[j].log| ==>
                   m.ts <= ts[j].log[k].ts
  {
    hide Tracks;
    if Pop(bs).1.Some? {
      var i := Soonest(bs);
      SoonestIsLeast(bs);
      PopTracks(bs[i], ts[i]);
      forall j, k | 0 <= j < |ts| && ts[j].released < ts[j].fetched && ts[j].released <= k < |ts[j].log|
        ensures bs[i].messages[0].ts <= ts[j].log[k].ts
      {
        LaterThanFetched(bs[i], bs[j], ts[j], k);
      }
      if |bs| > 1 {
        forall j | 0 <= j < |ts| ensures ts[j].released < ts[j].fetched || 0 <= ts[j].known <= ts[j].released {
          NotWaiting(bs, j);
          EmptyIsCaughtUp(bs[j], ts[j]);
        }
        forall j, k | 0 <= j < |ts| && ts[j].released <= k < ts[j].known
          ensures k < |ts[j].log| && bs[i].messages[0].ts <= ts[j].log[k].ts {
          NotWaiting(bs, j);
          LaterThanHead(bs[i], bs[j], ts[j], k);
        }
      }
    }
  }

  lemma EmptyIsCaughtUp(b: Buffer, t: Topic)
    requires Tracks(b, t) && !b.Holds()
    ensures t.released < t.fetched || 0 <= t.known <= t.released
  {
  }

  lemma LaterThanFetched(b: Buffer, c: Buffer, t: Topic, k: int)
    requires b.messages != [] && Tracks(c, t) && t.released < t.fetched && t.released <= k < |t.log|
    requires !Earlier(c.NextTimestamp(), b.NextTimestamp())
    ensures b.messages[0].ts <= t.log[k].ts
  {
  }

  lemma NotWaiting(bs: seq<Buffer>, j: nat)
    requires |bs| > 1 && j < |bs| && !Waits(bs)
    ensures !bs[j].Holds()
  {
  }

  lemma LaterThanHead(b: Buffer, c: Buffer, t: Topic, k: int)
    requires b.messages != [] && Tracks(c, t) && !c.Holds()
    requires !Earlier(c.NextTimestamp(), b.NextTimestamp())
    requires t.released <= k < t.known
    ensures k < |t.log| && b.messages[0].ts <= t.log[k].ts
  {
  }

  lemma PopTracks(b: Buffer, t: Topic)
    requires Tracks(b, t) && b.messages != []
    ensures t.released < t.fetched && b.messages[0] == t.log[t.released]
    ensures Tracks(PopLeft(b).0, t.(released := t.released + 1))
  {
  }

  /** A group that empties a buffer waits: until the next watermarks are fed, nothing more comes out. */
  lemma EmptiedWaits(bs: seq<Buffer>)
    requires |bs| > 1 && Pop(bs).1.Some?
    ensures var (i, _) := Pop(bs).1.value;
            i < |bs| && (|bs[i].messages| == 1 ==> Pop(Pop(bs).0) == (Pop(bs).0, None))
  {
    var (i, _) := Pop(bs).1.value;
    if |bs[i].messages| == 1 {
      assert Pop(bs).0[i].Holds();
    }
  }

  // ----- Appending -----

  /** The messages of topic j among those of several topics. */
  function Of(out: seq<(nat, Message)>, j: nat): seq<Message> {
    if out == [] then [] else (if out[0].0 == j then [out[0].1] else []) + Of(out[1..], j)
  }

  lemma OfFront(m: (nat, Message), rest: seq<(nat, Message)>, j: nat)
    ensures Of([m] + rest, j) == (if m.0 == j then [m.1] else []) + Of(rest, j)
  {
    assert ([m] + rest)[1..] == rest;
  }

  /** Each topic's offsets go up over the batch, from above the largest offset its buffer has seen. */
  ghost predicate GoesUp(bs: seq<Buffer>, batch: seq<(nat, Message)>)
    requires forall k :: 0 <= k < |batch| ==> batch[k].0 < |bs|
  {
    && (forall k :: 0 <= k < |batch| ==> bs[batch[k].0].maxOffset < batch[k].1.offset)
    && forall j, k :: 0 <= j < k < |batch| && batch[j].0 == batch[k].0 ==> batch[j].1.offset < batch[k].1.offset
  }

  function Extended(b: Buffer, m: Message): Buffer { b.(messages := b.messages + [m], maxOffset := m.offset) }

  lemma GoesUpFront(bs: seq<Buffer>, batch: seq<(nat, Message)>)
    requires batch != [] && forall k :: 0 <= k < |batch| ==> batch[k].0 < |bs|
    ensures var (i, m) := batch[0];
            GoesUp(bs, batch) <==> bs[i].maxOffset < m.offset && GoesUp(bs[i := Extended(bs[i], m)], batch[1..])
  {
    var (i, m) := batch[0];
    var bs1, rest := bs[i := Extended(bs[i], m)], batch[1..];
    assert forall k :: 0 <= k < |rest| ==> rest[k] == batch[k + 1];
    if GoesUp(bs, batch) {
      forall k | 0 <= k < |rest| ensures bs1[rest[k].0].maxOffset < rest[k].1.offset {
        assert bs[batch[k + 1].0].maxOffset < batch[k + 1].1.offset;
      }
      forall j, k | 0 <= j < k < |rest| && rest[j].0 == rest[k].0 ensures rest[j].1.offset < rest[k].1.offset {
        assert batch[j + 1].1.offset < batch[k + 1].1.offset;
      }
    }
    if bs[i].maxOffset < m.offset && GoesUp(bs1, rest) {
      forall k | 1 <= k < |batch|
        ensures bs[batch[k].0].maxOffset < batch[k].1.offset
        ensures batch[k].0 == i ==> m.offset < batch[k].1.offset
      {
        assert bs1[rest[k - 1].0].maxOffset < rest[k - 1].1.offset;
      }
      forall j, k | 0 <= j < k < |batch| && batch[j].0 == batch[k].0 ensures batch[j].1.offset < batch[k].1.offset {
        if j > 0 {
          assert rest[j - 1].1.offset < rest[k - 1].1.offset;
        }
      }
    }
  }

  /** b with its topic's messages from a batch. */
  function With(b: Buffer, own: seq<Message>): Buffer {
    b.(messages := b.messages + own, maxOffset := if own == [] then b.maxOffset else own[|own| - 1].offset)
  }

  lemma WithFront(b: Buffer, m: Message, rest: seq<Message>)
    ensures With(Extended(b, m), rest) == With(b, [m] + rest) && With(b, []) == b
  {
    assert b.messages + [] == b.messages;
    assert b.messages + [m] + rest == b.messages + ([m] + rest);
  }

  /**
   * A batch is taken exactly when each topic's offsets go up; then each buffer has its topic's
   * messages behind its own, in the order of the batch, and nothing else changes.
   */
  lemma {:induction false} AppendAllIff(bs: seq<Buffer>, batch: seq<(nat, Message)>)
    requires forall k :: 0 <= k < |batch| ==> batch[k].0 < |bs|
    ensures AppendAll(bs, batch).Some? <==> GoesUp(bs, batch)
    ensures AppendAll(bs, batch).Some? ==>
              forall i :: 0 <= i < |bs| ==> AppendAll(bs, batch).value[i] == With(bs[i], Of(batch, i))
    decreases |batch|
  {
    if batch != [] {
      hide GoesUp, With, Of;
      GoesUpFront(bs, batch);
      var (i, m) := batch[0];
      var bs1, rest := bs[i := Extended(bs[i], m)], batch[1..];
      assert batch == [(i, m)] + rest;
      assert Append(bs[i], m).Some? ==> Append(bs[i], m).value == Extended(bs[i], m);
      AppendAllIff(bs1, rest);
      forall k: nat | k < |bs| ensures With(bs1[k], Of(rest, k)) == With(bs[k], Of(batch, k)) {
        OfFront((i, m), rest, k);
        WithFront(bs[i], m, Of(rest, i));
        assert [] + Of(rest, k) == Of(rest, k);
      }
    } else {
      forall i | 0 <= i < |bs| ensures With(bs[i], Of(batch, i)) == bs[i] {
        WithFront(bs[i], Message(0, 0), []);
      }
    }
  }

  // ----- Fetching -----

  /** The broker hands out the next message of each named topic that has one. */
  predicate CanDeliver(ts: seq<Topic>, order: seq<nat>)
    decreases |order|
  {
    order != [] ==>
      && order[0] < |ts| && ts[order[0]].fetched < |ts[order[0]].log|
      && CanDeliver(Fetch(ts, order[0]), order[1..])
  }

  function Fetch(ts: seq<Topic>, i: nat): seq<Topic>
    requires i < |ts|
  {
    ts[i := ts[i].(fetched := ts[i].fetched + 1)]
  }

  function Delivered(ts: seq<Topic>, order: seq<nat>): seq<Topic>
    requires CanDeliver(ts, order)
    decreases |order|
  {
    if order == [] then ts else Delivered(Fetch(ts, order[0]), order[1..])
  }

  function Batch(ts: seq<Topic>, order: seq<nat>): (r: seq<(nat, Message)>)
    requires CanDeliver(ts, order)
    ensures forall x :: x in r ==> x.0 < |ts|
    decreases |order|
  {
    if order == [] then [] else
      [(order[0], ts[order[0]].log[ts[order[0]].fetched])] + Batch(Fetch(ts, order[0]), order[1..])
  }

  lemma AppendTracks(b: Buffer, t: Topic)
    requires Tracks(b, t) && t.fetched < |t.log|
    ensures Append(b, t.log[t.fetched]).Some?
    ensures Tracks(Append(b, t.log[t.fetched]).value, t.(fetched := t.fetched + 1))
  {
  }

  /** What the broker delivers in offset order is never refused. */
  lemma {:induction false} DeliveryTracks(bs: seq<Buffer>, ts: seq<Topic>, order: seq<nat>)
    requires AllTrack(bs, ts) && CanDeliver(ts, order)
    ensures AppendAll(bs, Batch(ts, order)).Some?
    ensures AllTrack(AppendAll(bs, Batch(ts, order)).value, Delivered(ts, order))
    decreases |order|
  {
    if order != [] {
      hide Tracks, Append;
      var i := order[0];
      AppendTracks(bs[i], ts[i]);
      var m := ts[i].log[ts[i].fetched];
      DeliveryTracks(bs[i := Append(bs[i], m).value], Fetch(ts, i), order[1..]);
      var batch := Batch(ts, order);
      assert batch[0] == (i, m) && batch[1..] == Batch(Fetch(ts, i), order[1..]);
    }
  }

  /** Watermarks the broker may report: unknown, or no more than the log. */
  predicate CanReport(ts: seq<Topic>, watermarks: seq<int>) {
    |watermarks| == |ts| && forall i :: 0 <= i < |ts| ==> watermarks[i] <= |ts[i].log|
  }

  function Reported(ts: seq<Topic>, watermarks: seq<int>): seq<Topic>
    requires |watermarks| == |ts|
  {
    seq(|ts|, i requires 0 <= i < |ts| => if watermarks[i] < 0 then ts[i] else ts[i].(known := watermarks[i]))
  }

  lemma ReportTracks(bs: seq<Buffer>, ts: seq<Topic>, watermarks: seq<int>)
    requires AllTrack(bs, ts) && CanReport(ts, watermarks)
    ensures AllTrack(SetWatermarks(bs, watermarks), Reported(ts, watermarks))
  {
  }
}
