/** The buffers that align a group of topic partitions by time (internal_consumer/buffering.py). */
module Buffering {
  import opened Wrappers

  datatype Idleness = Idle | Active | Unknown

  datatype Message = Message(offset: int, ts: int)

  /** The value of one partition's buffer. */
  datatype Buffer = Buffer(messages: seq<Message>, maxOffset: int, highWatermark: int, paused: bool) {
    function Idleness(): Idleness {
      if highWatermark < 0 then Unknown
      else if maxOffset + 1 >= highWatermark then Idle
      else Active
    }

    function NextTimestamp(): Option<int> {
      if messages == [] then None else Some(messages[0].ts)
    }

    predicate Full(maxSize: nat) { |messages| >= maxSize }

    /** An empty partition that may have more to come. */
    predicate Holds() { messages == [] && Idleness() != Idle }
  }

  function NewBuffer(): Buffer { Buffer([], -1, -1001, false) }

  /** An offset that does not go up is an error. */
  function Append(b: Buffer, m: Message): Option<Buffer> {
    if m.offset <= b.maxOffset then None else Some(b.(messages := b.messages + [m], maxOffset := m.offset))
  }

  /** Popping the last message makes the watermark unknown again. */
  function PopLeft(b: Buffer): (Buffer, Option<Message>) {
    if b.messages == [] then (b, None)
    else (b.(messages := b.messages[1..], highWatermark := if |b.messages| == 1 then -1001 else b.highWatermark),
          Some(b.messages[0]))
  }

  function Cleared(bs: seq<Buffer>): seq<Buffer> {
    seq(|bs|, i requires 0 <= i < |bs| => NewBuffer())
  }

  /** Earlier, with infinity for an empty buffer. */
  predicate Earlier(x: Option<int>, y: Option<int>) {
    x.Some? && (y.None? || x.value < y.value)
  }

  /** The first buffer with the smallest next timestamp. */
  function Soonest(bs: seq<Buffer>): (i: nat)
    requires bs != []
    ensures i < |bs|
  {
    if |bs| == 1 then 0 else
      var last := |bs| - 1;
      var i := Soonest(bs[..last]);
      if Earlier(bs[last].NextTimestamp(), bs[i].NextTimestamp()) then last else i
  }

  lemma SoonestOne(bs: seq<Buffer>)
    requires bs != []
    ensures Soonest(bs[..1]) == 0 && bs[..|bs|] == bs
  {
  }

  lemma SoonestNext(bs: seq<Buffer>, i: nat)
    requires 1 <= i < |bs|
    ensures var best := Soonest(bs[..i]);
            Soonest(bs[..i + 1]) == if Earlier(bs[i].NextTimestamp(), bs[best].NextTimestamp()) then i else best
  {
    assert bs[..i + 1][..i] == bs[..i];
  }

  ghost predicate Waits(bs: seq<Buffer>) {
    |bs| > 1 && exists i :: 0 <= i < |bs| && bs[i].Holds()
  }

  /** The position and the message popped from a group. */
  ghost function Pop(bs: seq<Buffer>): (seq<Buffer>, Option<(nat, Message)>) {
    if bs == [] || Waits(bs) then (bs, None) else
      var i := Soonest(bs);
      var (b, m) := PopLeft(bs[i]);
      (bs[i := b], if m.Some? then Some((i, m.value)) else None)
  }

  predicate ShouldPause(maxSize: nat, b: Buffer) { !b.paused && b.Full(maxSize) && b.Idleness() == Active }

  predicate ShouldResume(maxSize: nat, b: Buffer) { b.paused && (b.Idleness() != Active || !b.Full(maxSize)) }

  /** A group with a single partition is never paused. */
  function PauseFull(maxSize: nat, bs: seq<Buffer>): seq<Buffer> {
    if |bs| == 1 then bs
    else seq(|bs|, i requires 0 <= i < |bs| => if ShouldPause(maxSize, bs[i]) then bs[i].(paused := true) else bs[i])
  }

  function ResumeEmpty(maxSize: nat, bs: seq<Buffer>): seq<Buffer> {
    seq(|bs|, i requires 0 <= i < |bs| => if ShouldResume(maxSize, bs[i]) then bs[i].(paused := false) else bs[i])
  }

  /** Appends a batch of messages, each to its topic's buffer; an invalid offset is an error. */
  function AppendAll(bs: seq<Buffer>, batch: seq<(nat, Message)>): (r: Option<seq<Buffer>>)
    requires forall x :: x in batch ==> x.0 < |bs|
    ensures r.Some? ==> |r.value| == |bs|
    decreases |batch|
  {
    if batch == [] then Some(bs) else
      assert batch[0] in batch;
      var b := Append(bs[batch[0].0], batch[0].1);
      if b.None? then None else AppendAll(bs[batch[0].0 := b.value], batch[1..])
  }

  function SetWatermarks(bs: seq<Buffer>, watermarks: seq<int>): seq<Buffer>
    requires |watermarks| == |bs|
  {
    seq(|bs|, i requires 0 <= i < |bs| => bs[i].(highWatermark := watermarks[i]))
  }

  class PartitionBuffer {
    const maxSize: nat
    var messages: seq<Message>
    var nextTimestamp: Option<int>
    var maxOffset: int
    var highWatermark: int
    var paused: bool

    ghost predicate Valid()
      reads this
    {
      nextTimestamp == Value().NextTimestamp()
    }

    ghost function Value(): Buffer
      reads this
    {
      Buffer(messages, maxOffset, highWatermark, paused)
    }

    constructor (maxSize: nat)
      ensures Valid() && Value() == NewBuffer() && this.maxSize == maxSize
    {
      this.maxSize := maxSize;
      messages, nextTimestamp, maxOffset, highWatermark, paused := [], None, -1, -1001, false;
    }

    method SetHighWatermark(offset: int)
      requires Valid()
      modifies this`highWatermark
      ensures Valid() && Value() == old(Value()).(highWatermark := offset)
    {
      highWatermark := offset;
    }

    method IdlenessNow() returns (r: Idleness)
      ensures r == Value().Idleness()
    {
      if highWatermark < 0 {
        return Unknown;
      }
      return if maxOffset + 1 >= highWatermark then Idle else Active;
    }

    /** The next timestamp is set only when there was none. */
    method Add(m: Message) returns (ok: bool)
      requires Valid()
      modifies this
      ensures Valid()
      ensures if ok then Some(Value()) == Append(old(Value()), m)
              else Append(old(Value()), m).None? && Value() == old(Value())
    {
      if m.offset <= maxOffset {
        return false;
      }
      maxOffset := m.offset;
      if nextTimestamp.None? {
        nextTimestamp := Some(m.ts);
      }
      messages := messages + [m];
      return true;
    }

    method Take() returns (r: Option<Message>)
      requires Valid()
      modifies this
      ensures Valid() && (Value(), r) == PopLeft(old(Value()))
    {
      if messages == [] {
        return None;
      }
      r := Some(messages[0]);
      messages := messages[1..];
      if messages != [] {
        nextTimestamp := Some(messages[0].ts);
      } else {
        nextTimestamp := None;
        highWatermark := -1001;
      }
    }

    method SetPaused(p: bool)
      requires Valid()
      modifies this`paused
      ensures Valid() && Value() == old(Value()).(paused := p)
    {
      paused := p;
    }

    method Reset()
      requires Valid()
      modifies this
      ensures Valid() && Value() == NewBuffer()
    {
      messages, nextTimestamp, maxOffset, highWatermark, paused := [], None, -1, -1001, false;
    }
  }

  class PartitionBufferGroup {
    const maxSize: nat
    var buffers: seq<PartitionBuffer>

    ghost predicate Valid()
      reads this, buffers
    {
      && (forall i :: 0 <= i < |buffers| ==> buffers[i].maxSize == maxSize && buffers[i].Valid())
      && (forall i, j :: 0 <= i < j < |buffers| ==> buffers[i] != buffers[j])
    }

    ghost function Value(): seq<Buffer>
      reads this, buffers
    {
      seq(|buffers|, i requires 0 <= i < |buffers| reads this, buffers => buffers[i].Value())
    }

    constructor (maxSize: nat)
      ensures Valid() && Value() == [] && buffers == [] && this.maxSize == maxSize
    {
      this.maxSize := maxSize;
      buffers := [];
    }

    method AssignPartition()
      requires Valid()
      modifies this
      ensures Valid() && Value() == old(Value()) + [NewBuffer()]
      ensures |buffers| == |old(buffers)| + 1 && buffers[..|old(buffers)|] == old(buffers)
              && fresh(buffers[|old(buffers)|])
    {
      var b := new PartitionBuffer(maxSize);
      buffers := buffers + [b];
    }

    method AddAt(i: nat, m: Message) returns (ok: bool)
      requires Valid() && i < |buffers|
      modifies buffers[i]
      ensures Valid() && ok == Append(old(Value())[i], m).Some?
      ensures ok ==> Value() == old(Value())[i := Append(old(Value())[i], m).value]
    {
      hide Append;
      ok := buffers[i].Add(m);
    }

    method SetWatermarkAt(i: nat, offset: int)
      requires Valid() && i < |buffers|
      modifies buffers[i]
      ensures Valid() && Value() == old(Value())[i := old(Value())[i].(highWatermark := offset)]
    {
      buffers[i].SetHighWatermark(offset);
    }

    /** Feeds a batch and then the watermarks. */
    method Feed(batch: seq<(nat, Message)>, watermarks: seq<int>) returns (ok: bool)
      requires Valid() && |watermarks| == |buffers| && forall x :: x in batch ==> x.0 < |buffers|
      modifies buffers
      ensures Valid() && ok == AppendAll(old(Value()), batch).Some?
      ensures ok ==> Value() == SetWatermarks(AppendAll(old(Value()), batch).value, watermarks)
    {
      hide AppendAll, SetWatermarks;
      ok := AddAll(batch);
      if ok {
        SetHighWatermarks(watermarks);
      }
    }

    method AddAll(batch: seq<(nat, Message)>) returns (ok: bool)
      requires Valid() && forall x :: x in batch ==> x.0 < |buffers|
      modifies buffers
      ensures Valid() && ok == AppendAll(old(Value()), batch).Some?
      ensures ok ==> Value() == AppendAll(old(Value()), batch).value
    {
      hide Append;
      ghost var bs := Value();
      for n := 0 to |batch|
        invariant Valid() && AppendAll(Value(), batch[n..]) == AppendAll(bs, batch)
      {
        assert batch[n] in batch && batch[n..][0] == batch[n] && batch[n..][1..] == batch[n + 1..];
        ok := AddAt(batch[n].0, batch[n].1);
        if !ok {
          return;
        }
      }
      assert batch[|batch|..] == [];
      ok := true;
    }

    method SetHighWatermarks(watermarks: seq<int>)
      requires Valid() && |watermarks| == |buffers|
      modifies buffers
      ensures Valid() && Value() == SetWatermarks(old(Value()), watermarks)
    {
      hide Mixed;
      ghost var fed := Value();
      ghost var done := SetWatermarks(fed, watermarks);
      MixedEnds(done, fed);
      for i := 0 to |buffers|
        invariant Valid() && Value() == Mixed(done, fed, i)
      {
        MixedStep(done, fed, i);
        SetWatermarkAt(i, watermarks[i]);
      }
    }

    method ClearAt(i: nat)
      requires Valid() && i < |buffers|
      modifies buffers[i]
      ensures Valid() && Value() == old(Value())[i := NewBuffer()]
    {
      buffers[i].Reset();
    }

    /** The buffer to pop from: none while an empty partition may have more to come. */
    method Choose() returns (r: Option<nat>)
      requires Valid()
      ensures r == if Value() == [] || Waits(Value()) then None else Some(Soonest(Value()))
    {
      ghost var bs := Value();
      if |buffers| == 0 {
        return None;
      }
      if |buffers| > 1 {
        for i := 0 to |buffers|
          invariant forall k :: 0 <= k < i ==> !bs[k].Holds()
        {
          var idleness := buffers[i].IdlenessNow();
          if buffers[i].messages == [] && idleness != Idle {
            assert bs[i].Holds();
            return None;
          }
        }
        var best := ChooseSoonest();
        return Some(best);
      }
      SoonestOne(bs);
      return Some(0);
    }

    /** The first buffer with the smallest next timestamp. */
    method ChooseSoonest() returns (best: nat)
      requires Valid() && |buffers| > 0
      ensures best == Soonest(Value())
    {
      hide Soonest;
      ghost var bs := Value();
      best := 0;
      SoonestOne(bs);
      for i := 1 to |buffers|
        invariant best < i && best == Soonest(bs[..i])
      {
        SoonestNext(bs, i);
        if Earlier(buffers[i].nextTimestamp, buffers[best].nextTimestamp) {
          best := i;
        }
      }
      assert bs[..|buffers|] == bs;
    }

    method TakeAt(i: nat) returns (r: Option<Message>)
      requires Valid() && i < |buffers|
      modifies buffers[i]
      ensures Valid() && r == PopLeft(old(Value())[i]).1 && Value() == old(Value())[i := PopLeft(old(Value())[i]).0]
    {
      hide PopLeft;
      r := buffers[i].Take();
    }

    method PopNext() returns (r: Option<(nat, Message)>)
      requires Valid()
      modifies buffers
      ensures Valid() && (Value(), r) == Pop(old(Value()))
    {
      hide PopLeft, Soonest, Waits;
      var i := Choose();
      if i.None? {
        return None;
      }
      var m := TakeAt(i.value);
      r := if m.Some? then Some((i.value, m.value)) else None;
    }

    method SetPausedAt(i: nat, p: bool)
      requires Valid() && i < |buffers|
      modifies buffers[i]
      ensures Valid() && Value() == old(Value())[i := old(Value())[i].(paused := p)]
    {
      buffers[i].SetPaused(p);
    }

    method IsActive(i: nat) returns (r: bool)
      requires Valid() && i < |buffers|
      ensures r <==> Value()[i].Idleness() == Active
    {
      var idleness := buffers[i].IdlenessNow();
      r := idleness == Active;
    }

    /** Pauses the full partitions and names them. */
    method PauseAllFull() returns (tps: seq<nat>)
      requires Valid()
      modifies buffers
      ensures Valid() && Value() == PauseFull(maxSize, old(Value()))
      ensures tps == Pausing(maxSize, old(Value()), |old(Value())|)
    {
      hide ShouldPause, Pausing, Mixed;
      tps := [];
      ghost var bs := Value();
      ghost var done := PauseFull(maxSize, bs);
      MixedEnds(done, bs);
      PausingStep(maxSize, bs);
      if |buffers| == 1 {
        return;
      }
      hide PauseFull;
      for i := 0 to |buffers|
        invariant Valid() && Value() == Mixed(done, bs, i)
        invariant tps == Pausing(maxSize, bs, i)
      {
        MixedStep(done, bs, i);
        var active := IsActive(i);
        var pause := !buffers[i].paused && |buffers[i].messages| >= maxSize && active;
        ShouldPauseIs(maxSize, bs[i]);
        if pause {
          SetPausedAt(i, true);
          tps := tps + [i];
        }
      }
    }

    /** Resumes the partitions that are paused and either not full or not known to have more, and names them. */
    method ResumeAllEmpty() returns (tps: seq<nat>)
      requires Valid()
      modifies buffers
      ensures Valid() && Value() == ResumeEmpty(maxSize, old(Value()))
      ensures tps == Resuming(maxSize, old(Value()), |old(Value())|)
    {
      hide ShouldResume, Resuming, Mixed;
      tps := [];
      ghost var bs := Value();
      ghost var done := ResumeEmpty(maxSize, bs);
      MixedEnds(done, bs);
      ResumingStep(maxSize, bs);
      hide ResumeEmpty;
      for i := 0 to |buffers|
        invariant Valid() && Value() == Mixed(done, bs, i)
        invariant tps == Resuming(maxSize, bs, i)
      {
        MixedStep(done, bs, i);
        var active := IsActive(i);
        var resume := buffers[i].paused && (!active || |buffers[i].messages| < maxSize);
        ShouldResumeIs(maxSize, bs[i]);
        if resume {
          SetPausedAt(i, false);
          tps := tps + [i];
        }
      }
    }
  }

  /** The partitions named, in order and each once, are now paused or not, as told; nothing else has changed. */
  ghost predicate ChangedAt(before: seq<Buffer>, after: seq<Buffer>, tps: seq<nat>, paused: bool) {
    && |after| == |before| && Rises(tps)
    && forall i: nat :: i < |before| ==> after[i] == if i in tps then before[i].(paused := paused) else before[i]
  }

  lemma PausingChanges(maxSize: nat, bs: seq<Buffer>)
    ensures ChangedAt(bs, PauseFull(maxSize, bs), Pausing(maxSize, bs, |bs|), true)
    ensures forall i: nat :: i in Pausing(maxSize, bs, |bs|) <==>
                               i < |bs| && |bs| != 1 && !bs[i].paused
                               && |bs[i].messages| >= maxSize && bs[i].Idleness() == Active
  {
    PausingRises(maxSize, bs, |bs|);
  }

  lemma ResumingChanges(maxSize: nat, bs: seq<Buffer>)
    ensures ChangedAt(bs, ResumeEmpty(maxSize, bs), Resuming(maxSize, bs, |bs|), false)
    ensures forall i: nat :: i in Resuming(maxSize, bs, |bs|) <==>
                               i < |bs| && bs[i].paused && (|bs[i].messages| < maxSize || bs[i].Idleness() != Active)
  {
    ResumingRises(maxSize, bs, |bs|);
  }

  ghost predicate Rises(s: seq<nat>) { forall i, j :: 0 <= i < j < |s| ==> s[i] < s[j] }

  lemma RisesSnoc(s: seq<nat>, n: nat)
    requires Rises(s) && forall i: nat :: i in s ==> i < n
    ensures Rises(s) && Rises(s + []) && Rises(s + [n])
  {
    forall i | 0 <= i < |s| ensures s[i] < n {
      var x := s[i];
      assert x in s;
    }
  }

  lemma {:induction false} PausingRises(maxSize: nat, bs: seq<Buffer>, n: nat)
    requires n <= |bs|
    ensures Rises(Pausing(maxSize, bs, n))
  {
    if n > 0 {
      PausingRises(maxSize, bs, n - 1);
      RisesSnoc(Pausing(maxSize, bs, n - 1), n - 1);
    }
  }

  lemma {:induction false} ResumingRises(maxSize: nat, bs: seq<Buffer>, n: nat)
    requires n <= |bs|
    ensures Rises(Resuming(maxSize, bs, n))
  {
    if n > 0 {
      ResumingRises(maxSize, bs, n - 1);
      RisesSnoc(Resuming(maxSize, bs, n - 1), n - 1);
    }
  }

  /** The positions below n that PauseFull pauses. */
  function Pausing(maxSize: nat, bs: seq<Buffer>, n: nat): (r: seq<nat>)
    requires n <= |bs|
    ensures forall i: nat :: i in r <==> i < n && |bs| != 1 && ShouldPause(maxSize, bs[i])
  {
    if n == 0 then [] else Pausing(maxSize, bs, n - 1) + if |bs| != 1 && ShouldPause(maxSize, bs[n - 1]) then [n - 1]
        else []
  }

  /** The positions below n that ResumeEmpty resumes. */
  function Resuming(maxSize: nat, bs: seq<Buffer>, n: nat): (r: seq<nat>)
    requires n <= |bs|
    ensures forall i: nat :: i in r <==> i < n && ShouldResume(maxSize, bs[i])
  {
    if n == 0 then [] else Resuming(maxSize, bs, n - 1) + if ShouldResume(maxSize, bs[n - 1]) then [n - 1] else []
  }

  /** done up to i, bs from there on. */
  ghost function Mixed(done: seq<Buffer>, bs: seq<Buffer>, i: nat): (r: seq<Buffer>)
    requires i <= |bs| == |done|
    ensures |r| == |bs|
  {
    done[..i] + bs[i..]
  }

  lemma MixedEnds(done: seq<Buffer>, bs: seq<Buffer>)
    requires |bs| == |done|
    ensures Mixed(done, bs, 0) == bs && Mixed(done, bs, |bs|) == done
  {
  }

  lemma MixedStep(done: seq<Buffer>, bs: seq<Buffer>, i: nat)
    requires i < |bs| == |done|
    ensures Mixed(done, bs, i)[i] == bs[i] && Mixed(done, bs, i + 1) == Mixed(done, bs, i)[i := done[i]]
  {
  }

  lemma PausingStep(maxSize: nat, bs: seq<Buffer>)
    ensures |bs| == 1 ==> Pausing(maxSize, bs, |bs|) == []
    ensures Pausing(maxSize, bs, 0) == []
    ensures |bs| != 1 ==> forall i :: 0 <= i < |bs| ==>
                          && PauseFull(maxSize, bs)[i]
                             == (if ShouldPause(maxSize, bs[i]) then bs[i].(paused := true) else bs[i])
                          && Pausing(maxSize, bs, i + 1) == Pausing(maxSize, bs, i) +
                             if ShouldPause(maxSize, bs[i]) then [i] else []
  {
  }

  lemma ResumingStep(maxSize: nat, bs: seq<Buffer>)
    ensures Resuming(maxSize, bs, 0) == []
    ensures forall i :: 0 <= i < |bs| ==>
                          && ResumeEmpty(maxSize, bs)[i]
                             == (if ShouldResume(maxSize, bs[i]) then bs[i].(paused := false) else bs[i])
                          && Resuming(maxSize, bs, i + 1) == Resuming(maxSize, bs, i) +
                             if ShouldResume(maxSize, bs[i]) then [i] else []
  {
  }

  lemma ShouldPauseIs(maxSize: nat, b: Buffer)
    ensures ShouldPause(maxSize, b) <==> !b.paused && |b.messages| >= maxSize && b.Idleness() == Active
  {
  }

  lemma ShouldResumeIs(maxSize: nat, b: Buffer)
    ensures ShouldResume(maxSize, b) <==> b.paused && (b.Idleness() != Active || |b.messages| < maxSize)
  {
  }
}
