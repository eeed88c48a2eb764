/** Buffered polling with pause and resume (internal_consumer/consumer.py). */
module AlignedConsumer {
  import opened Wrappers
  import opened Buffering

  /** One group's buffers, the topics paused at the client, and those held back by a sink. */
  datatype Consumer = Consumer(buffers: seq<Buffer>, paused: set<nat>, heldBack: set<nat>)

  /** Resumes what need not wait, unless it is held back, then pauses what is full. */
  function Balanced(maxSize: nat, c: Consumer): (r: Consumer)
    ensures |r.buffers| == |c.buffers| && r.heldBack == c.heldBack
  {
    var resumed := ResumeEmpty(maxSize, c.buffers);
    var resuming := set i | i in Resuming(maxSize, c.buffers, |c.buffers|) && i !in c.heldBack;
    var pausing := set i | i in Pausing(maxSize, resumed, |resumed|);
    Consumer(PauseFull(maxSize, resumed), c.paused - resuming + pausing, c.heldBack)
  }

  function FeedBuffer(maxSize: nat, c: Consumer, batch: seq<(nat, Message)>,
                      watermarks: seq<int>): (r: Option<Consumer>)
    requires |watermarks| == |c.buffers| && forall x :: x in batch ==> x.0 < |c.buffers|
    ensures r.Some? ==> |r.value.buffers| == |c.buffers| && r.value.heldBack == c.heldBack
  {
    var appended := AppendAll(c.buffers, batch);
    if appended.None? then None
    else Some(Balanced(maxSize, c.(buffers := SetWatermarks(appended.value, watermarks))))
  }

  /** Pops, and if nothing comes, feeds and pops again. */
  ghost function PollOnce(maxSize: nat, c: Consumer, batch: seq<(nat, Message)>,
                          watermarks: seq<int>): (r: Option<(Consumer, Option<(nat, Message)>)>)
    requires |watermarks| == |c.buffers| && forall x :: x in batch ==> x.0 < |c.buffers|
  {
    var (bs, m) := Pop(c.buffers);
    if m.Some? then Some((c.(buffers := bs), m)) else
      var fed := FeedBuffer(maxSize, c, batch, watermarks);
      if fed.None? then None else
        var (bs1, m1) := Pop(fed.value.buffers);
        Some((fed.value.(buffers := bs1), m1))
  }

  function AllTopics(n: nat): (r: set<nat>)
    ensures forall i: nat :: i in r <==> i < n
  {
    if n == 0 then {} else AllTopics(n - 1) + {n - 1}
  }

  /** trigger_backpressure: everything is paused and cleared. */
  function HoldBack(c: Consumer): Consumer {
    Consumer(Cleared(c.buffers), c.paused + AllTopics(|c.buffers|), c.heldBack + AllTopics(|c.buffers|))
  }

  /** resume_backpressured, once the wait is over. */
  function LetGo(c: Consumer): Consumer {
    Consumer(c.buffers, c.paused - c.heldBack, {})
  }

  class InternalConsumer {
    const group: PartitionBufferGroup
    var paused: set<nat>
    var heldBack: set<nat>

    ghost predicate Valid()
      reads this, group, group.buffers
    {
      group.Valid()
    }

    ghost function Value(): Consumer
      reads this, group, group.buffers
    {
      Consumer(group.Value(), paused, heldBack)
    }

    constructor (group: PartitionBufferGroup)
      requires group.Valid()
      ensures Valid() && this.group == group && Value() == Consumer(group.Value(), {}, {})
    {
      this.group := group;
      paused, heldBack := {}, {};
    }

    method Feed(batch: seq<(nat, Message)>, watermarks: seq<int>) returns (ok: bool)
      requires Valid() && |watermarks| == |group.buffers| && forall x :: x in batch ==> x.0 < |group.buffers|
      modifies this`paused, group.buffers
      ensures Valid() && ok == FeedBuffer(group.maxSize, old(Value()), batch, watermarks).Some?
      ensures ok ==> Some(Value()) == FeedBuffer(group.maxSize, old(Value()), batch, watermarks)
    {
      hide AppendAll, SetWatermarks, Balanced;
      ok := group.Feed(batch, watermarks);
      if ok {
        Balance();
      }
    }

    method Balance()
      requires Valid()
      modifies this`paused, group.buffers
      ensures Valid() && Value() == Balanced(group.maxSize, old(Value()))
    {
      hide ResumeEmpty, PauseFull, Resuming, Pausing;
      var resumed := group.ResumeAllEmpty();
      paused := paused - (set i | i in resumed && i !in heldBack);
      var full := group.PauseAllFull();
      paused := paused + (set i | i in full);
    }

    /** Polls the client only when the buffers give nothing. */
    method Poll(batch: seq<(nat, Message)>, watermarks: seq<int>) returns (ok: bool, m: Option<(nat, Message)>)
      requires Valid() && |watermarks| == |group.buffers| && forall x :: x in batch ==> x.0 < |group.buffers|
      modifies this`paused, group.buffers
      ensures Valid() && ok == PollOnce(group.maxSize, old(Value()), batch, watermarks).Some?
      ensures ok ==> Some((Value(), m)) == PollOnce(group.maxSize, old(Value()), batch, watermarks)
    {
      hide FeedBuffer, Pop;
      PopNone(group.Value());
      m := group.PopNext();
      ok := true;
      if m.None? {
        ok := Feed(batch, watermarks);
        if ok {
          m := group.PopNext();
        }
      }
    }

    /** Pauses one topic at the client and forgets what it had buffered. */
    method HoldBackAt(i: nat)
      requires Valid() && i < |group.buffers|
      modifies this, group.buffers
      ensures Valid()
      ensures Value() == Consumer(old(Value()).buffers[i := NewBuffer()], old(Value()).paused + {i},
                                  old(Value()).heldBack + {i})
    {
      paused := paused + {i};
      group.ClearAt(i);
      heldBack := heldBack + {i};
    }

    /** Every topic is held back, and those with an offset to go back to are sought there, each once, in order. */
    method TriggerBackpressure(offsetsToSeek: map<nat, int>) returns (seeks: seq<(nat, int)>)
      requires Valid()
      modifies this, group.buffers
      ensures Valid() && Value() == HoldBack(old(Value()))
      ensures forall i, j :: 0 <= i < j < |seeks| ==> seeks[i].0 < seeks[j].0
      ensures forall i: nat, o: int ::
                (i, o) in seeks <==> i < |group.buffers| && i in offsetsToSeek && offsetsToSeek[i] == o
    {
      hide HoldBackUpTo, HoldBack;
      ghost var c := Value();
      HoldBackEnds(c);
      seeks := [];
      for i := 0 to |group.buffers|
        invariant Valid() && Value() == HoldBackUpTo(c, i)
        invariant forall x :: x in seeks ==> x.0 < i
        invariant forall k, l :: 0 <= k < l < |seeks| ==> seeks[k].0 < seeks[l].0
        invariant forall k: nat, o: int :: (k, o) in seeks <==> k < i && k in offsetsToSeek && offsetsToSeek[k] == o
      {
        HoldBackStep(c, i);
        HoldBackAt(i);
        if i in offsetsToSeek {
          seeks := seeks + [(i, offsetsToSeek[i])];
        }
      }
    }

    method ResumeBackpressured()
      requires Valid()
      modifies this
      ensures Valid() && Value() == LetGo(old(Value()))
    {
      paused := paused - heldBack;
      heldBack := {};
    }
  }

  ghost function HoldBackUpTo(c: Consumer, i: nat): Consumer
    requires i <= |c.buffers|
  {
    Consumer(Mixed(Cleared(c.buffers), c.buffers, i), c.paused + AllTopics(i), c.heldBack + AllTopics(i))
  }

  lemma HoldBackEnds(c: Consumer)
    ensures HoldBackUpTo(c, 0) == c && HoldBackUpTo(c, |c.buffers|) == HoldBack(c)
  {
    MixedEnds(Cleared(c.buffers), c.buffers);
  }

  lemma HoldBackStep(c: Consumer, i: nat)
    requires i < |c.buffers|
    ensures var d := HoldBackUpTo(c, i);
            && i < |d.buffers|
            && HoldBackUpTo(c, i + 1) == Consumer(d.buffers[i := NewBuffer()], d.paused + {i}, d.heldBack + {i})
  {
    hide Mixed;
    MixedStep(Cleared(c.buffers), c.buffers, i);
    AddTopic(c.paused, i);
    AddTopic(c.heldBack, i);
  }

  lemma AddTopic(s: set<nat>, i: nat)
    ensures s + AllTopics(0) == s && s + AllTopics(i) + {i} == s + AllTopics(i + 1)
  {
  }

  lemma PopNone(bs: seq<Buffer>)
    ensures Pop(bs).1.None? ==> Pop(bs).0 == bs
    ensures |Pop(bs).0| == |bs|
  {
  }
}
