/** Facts about the input: processed offsets, committed offsets, and the fold of a range of records. */
module ProtocolFold {
  import opened Protocol

  /** Offsets grow within a topic, and writes go to registered stores. */
  ghost predicate WellFormed<X(!new), V(!new)>(p: Program<X, V>) {
    && (forall i :: 0 <= i < |p.input| ==> 0 <= p.input[i].offset)
    && (forall i, j :: 0 <= i < j < |p.input| && p.input[i].topic == p.input[j].topic ==>
            p.input[i].offset < p.input[j].offset)
    && (forall d, r, k :: k in p.writes(d, r) ==> k.store in p.stores)
  }

  ghost predicate Increasing<X>(input: seq<Record<X>>) {
    && (forall i :: 0 <= i < |input| ==> 0 <= input[i].offset)
    && (forall i, j :: 0 <= i < j < |input| && input[i].topic == input[j].topic ==> input[i].offset < input[j].offset)
  }

  /** What the broker holds when the first n records are committed. */
  function Committed<X>(input: seq<Record<X>>, n: nat): map<string, int>
    requires n <= |input|
  {
    NextOffsets(Processed(input, 0, n))
  }

  /** A processed offset is the one of the topic's last record in the range. */
  lemma {:induction false} ProcessedLast<X>(input: seq<Record<X>>, from: nat, upTo: nat, t: string)
    requires upTo <= |input| && Increasing(input)
    ensures forall q :: from <= q < upTo && input[q].topic == t ==>
              t in Processed(input, from, upTo) && input[q].offset <= Processed(input, from, upTo)[t]
    ensures t in Processed(input, from, upTo) ==>
              exists q :: from <= q < upTo && input[q].topic == t && input[q].offset == Processed(input, from, upTo)[t]
  {
    if from < upTo {
      ProcessedLast(input, from, upTo - 1, t);
      if input[upTo - 1].topic != t && t in Processed(input, from, upTo - 1) {
        var q :| from <= q < upTo - 1 && input[q].topic == t && input[q].offset == Processed(input, from, upTo - 1)[t];
      }
    }
  }

  lemma {:induction false} ProcessedJoin<X>(input: seq<Record<X>>, from: nat, mid: nat, upTo: nat)
    requires from <= mid <= upTo <= |input|
    ensures Processed(input, from, mid) + Processed(input, mid, upTo) == Processed(input, from, upTo)
  {
    if mid < upTo {
      ProcessedJoin(input, from, mid, upTo - 1);
    }
  }

  lemma NextOffsetsJoin(x: map<string, int>, y: map<string, int>)
    ensures NextOffsets(x + y) == NextOffsets(x) + NextOffsets(y)
  {
  }

  lemma CommittedJoin<X>(input: seq<Record<X>>, mid: nat, upTo: nat)
    requires mid <= upTo <= |input|
    ensures Committed(input, mid) + NextOffsets(Processed(input, mid, upTo)) == Committed(input, upTo)
  {
    ProcessedJoin(input, 0, mid, upTo);
    NextOffsetsJoin(Processed(input, 0, mid), Processed(input, mid, upTo));
  }

  /** A record is below the committed offset of its topic exactly when it is one of the first n. */
  lemma CoveredIff<X>(input: seq<Record<X>>, n: nat, q: nat)
    requires n <= |input| && q < |input| && Increasing(input)
    ensures input[q].offset < OffsetOf(Committed(input, n), input[q].topic, NO_OFFSET) <==> q < n
  {
    ProcessedLast(input, 0, n, input[q].topic);
  }

  /** The changelog filter: the header of a batch passes exactly when the whole batch is committed. */
  lemma FilterIff<X>(input: seq<Record<X>>, n: nat, from: nat, upTo: nat)
    requires n <= |input| && from < upTo <= |input| && Increasing(input)
    ensures ShouldApply(Committed(input, n), Processed(input, from, upTo)) <==> upTo <= n
  {
    var last := input[upTo - 1];
    assert last.topic in Processed(input, from, upTo);
    CoveredIff(input, n, upTo - 1);
    forall t | t in Processed(input, from, upTo) && upTo <= n
      ensures Processed(input, from, upTo)[t] < OffsetOf(Committed(input, n), t, NO_OFFSET)
    {
      ProcessedLast(input, from, upTo, t);
      var q :| from <= q < upTo && input[q].topic == t && input[q].offset == Processed(input, from, upTo)[t];
      CoveredIff(input, n, q);
    }
  }

  /** Consuming resumes right after the committed records. */
  lemma {:induction false} PositionIs<X>(input: seq<Record<X>>, n: nat, i: nat)
    requires i <= n <= |input| && Increasing(input)
    ensures Position(input, Committed(input, n), i) == n
    decreases n - i
  {
    if i < |input| {
      CoveredIff(input, n, i);
    }
    if i < n {
      PositionIs(input, n, i + 1);
    }
  }

  /** Processing record q writes key k. */
  ghost predicate Touches<X, V>(p: Program<X, V>, q: nat, k: Key)
    requires q < |p.input|
  {
    k in p.writes(Fold(p, q), p.input[q])
  }

  /** What records [from, upTo) write together. */
  function WritesOf<X, V>(p: Program<X, V>, from: nat, upTo: nat): Writes<V>
    requires upTo <= |p.input|
  {
    if from >= upTo then map[]
    else WritesOf(p, from, upTo - 1) + p.writes(Fold(p, upTo - 1), p.input[upTo - 1])
  }

  lemma OverlayOverlay<V>(d: map<Key, V>, w: Writes<V>, w1: Writes<V>)
    ensures Overlay(Overlay(d, w), w1) == Overlay(d, w + w1)
  {
  }

  lemma OverlayGet<V>(d: map<Key, V>, w: Writes<V>, k: Key)
    ensures Get(Overlay(d, w), k) == if k in w then w[k] else Get(d, k)
  {
  }

  lemma {:induction false} FoldRange<X, V>(p: Program<X, V>, from: nat, upTo: nat)
    requires from <= upTo <= |p.input|
    ensures Fold(p, upTo) == Overlay(Fold(p, from), WritesOf(p, from, upTo))
  {
    if from < upTo {
      FoldRange(p, from, upTo - 1);
      OverlayOverlay(Fold(p, from), WritesOf(p, from, upTo - 1), p.writes(Fold(p, upTo - 1), p.input[upTo - 1]));
    } else {
      assert Overlay(Fold(p, from), map[]) == Fold(p, from);
    }
  }

  lemma {:induction false} WritesTouched<X, V>(p: Program<X, V>, from: nat, upTo: nat, k: Key)
    requires from <= upTo <= |p.input|
    ensures k in WritesOf(p, from, upTo) <==> exists q :: from <= q < upTo && Touches(p, q, k)
  {
    if from < upTo {
      WritesTouched(p, from, upTo - 1, k);
      if k in WritesOf(p, from, upTo - 1) {
        var q :| from <= q < upTo - 1 && Touches(p, q, k);
        assert Touches(p, q, k);
      } else if k in WritesOf(p, from, upTo) {
        assert Touches(p, upTo - 1, k);
      }
    }
  }

  /** A key's value after a range is its last write in the range, or what it was before. */
  lemma FoldGet<X, V>(p: Program<X, V>, from: nat, upTo: nat, k: Key)
    requires from <= upTo <= |p.input|
    ensures Get(Fold(p, upTo), k) == if k in WritesOf(p, from, upTo) then WritesOf(p, from, upTo)[k]
            else Get(Fold(p, from), k)
  {
    FoldRange(p, from, upTo);
    OverlayGet(Fold(p, from), WritesOf(p, from, upTo), k);
  }

  lemma Untouched<X, V>(p: Program<X, V>, from: nat, upTo: nat, k: Key)
    requires from <= upTo <= |p.input| && forall q :: from <= q < upTo ==> !Touches(p, q, k)
    ensures Get(Fold(p, upTo), k) == Get(Fold(p, from), k)
  {
    WritesTouched(p, from, upTo, k);
    FoldGet(p, from, upTo, k);
  }
}
