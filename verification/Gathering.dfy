/** The collection of values against the messages of a key: what is still stored, and what a range of it reads back. */
module Gathering {
  import opened Aggregation
  import opened WindowStore
  import opened CountCollection

  /** The values at the given positions of the message history. */
  function ValuesAt<M>(h: seq<Message<M>>, keys: seq<Span>): (r: seq<M>)
    requires forall s :: s in keys ==> 0 <= s.end < |h|
    ensures |r| == |keys|
  {
    seq(|keys|, i requires 0 <= i < |keys| => assert keys[i] in keys; h[keys[i].end].value)
  }

  /** The messages with lo <= timestamp < hi, each as its timestamp and its position. */
  function KeysBetween<M>(h: seq<Message<M>>, lo: int, hi: int): set<Span> {
    set i | 0 <= i < |h| && lo <= h[i].ts < hi :: Span(h[i].ts, i)
  }

  /** The values of the messages with lo <= timestamp < hi, by timestamp and then in arrival order. */
  function InTimeOrder<M>(h: seq<Message<M>>, lo: int, hi: int): seq<M> {
    ValuesAt(h, Sorted(KeysBetween(h, lo, hi)))
  }

  /** The collection after a run, and what each window that came out had collected. */
  datatype Gathers<M> = Gathers(col: Collection<M>, lists: seq<seq<M>>)

  /** Every stored value is that of a message, under its timestamp and position, and none from low on is missing. */
  ghost predicate Kept<M>(h: seq<Message<M>>, low: int, col: Collection<M>) {
    && col.counter == |h| - 1
    && (forall s :: s in col.values ==> 0 <= s.end < |h| && s.start == h[s.end].ts && col.values[s] == h[s.end].value)
    && (forall i :: 0 <= i < |h| && h[i].ts >= low ==> Span(h[i].ts, i) in col.values)
  }

  lemma KeptAdded<M>(h: seq<Message<M>>, low: int, col: Collection<M>, m: Message<M>)
    requires Kept(h, low, col)
    ensures Kept(h + [m], low, Added(col, m.ts, m.value))
  {
    var h1, col1 := h + [m], Added(col, m.ts, m.value);
    forall s | s in col1.values
      ensures 0 <= s.end < |h1| && s.start == h1[s.end].ts && col1.values[s] == h1[s.end].value
    {
      if s != Span(m.ts, |h|) {
        assert s in col.values;
      }
    }
    forall i | 0 <= i < |h1| && h1[i].ts >= low ensures Span(h1[i].ts, i) in col1.values {
      if i < |h| {
        assert h1[i] == h[i];
      }
    }
  }

  lemma KeptTrimmed<M>(h: seq<Message<M>>, low: int, col: Collection<M>, upTo: int, low1: int)
    requires Kept(h, low, col) && low <= low1 && upTo <= low1
    ensures Kept(h, low1, Trimmed(col, upTo))
  {
    hide Sorted;
  }

  lemma KeptLater<M>(h: seq<Message<M>>, low: int, col: Collection<M>, low1: int)
    requires Kept(h, low, col) && low <= low1
    ensures Kept(h, low1, col)
  {
  }

  /** A range of ids that nothing has been dropped from reads back exactly the messages with those timestamps. */
  lemma CollectedBetween<M>(h: seq<Message<M>>, low: int, col: Collection<M>, lo: int, hi: int)
    requires Kept(h, low, col) && low <= lo
    ensures Collected(col.values, lo, hi) == InTimeOrder(h, lo, hi)
  {
    hide Sorted, Ascending;
    var keys := Sorted(KeysBetween(h, lo, hi));
    forall s ensures s in keys <==> s in col.values && lo <= s.start < hi {
      if s in col.values && lo <= s.start < hi {
        assert s == Span(h[s.end].ts, s.end);
      }
    }
    forall i | 0 <= i < |keys| ensures keys[i] in keys && InTimeOrder(h, lo, hi)[i] == col.values[keys[i]] {
      assert keys[i] in keys;
    }
    CollectedAre(col.values, lo, hi, keys, InTimeOrder(h, lo, hi));
  }

  // ----- What is still stored -----

  /** No deletion from message i on reached past its timestamp. */
  ghost predicate Spared<M>(h: seq<Message<M>>, bounds: seq<int>, i: int)
    requires 0 <= i < |h| == |bounds|
  {
    forall j :: i <= j < |bounds| ==> bounds[j] <= h[i].ts
  }

  /** The deletion index stood past the message's timestamp when it arrived, or no deletion since reached it. */
  ghost predicate Stays<M>(h: seq<Message<M>>, passed: seq<int>, bounds: seq<int>, i: int)
    requires 0 <= i < |h| == |passed| == |bounds|
  {
    h[i].ts < passed[i] || Spared(h, bounds, i)
  }

  /**
   * What is stored, exactly: passed[i] is the deletion index when message i arrived, bounds[i] the
   * bound of the deletion that followed it (0 for none). The index never goes down, and has not
   * moved since a message's arrival, or stands below a bound of a later deletion.
   */
  ghost predicate StoredExactly<M>(h: seq<Message<M>>, passed: seq<int>, bounds: seq<int>, col: Collection<M>) {
    && |h| == |passed| == |bounds| && col.counter == |h| - 1
    && (forall s :: s in col.values <==>
                      0 <= s.end < |h| && s.start == h[s.end].ts && Stays(h, passed, bounds, s.end))
    && (forall s :: s in col.values ==> col.values[s] == h[s.end].value)
    && (forall i :: 0 <= i < |h| ==>
                      && passed[i] <= col.lastDeleted
                      && (passed[i] == col.lastDeleted || exists j :: i <= j < |h| && col.lastDeleted < bounds[j]))
  }

  /** One more message, and the deletion after it. */
  lemma StaysSnoc<M>(h: seq<Message<M>>, m: Message<M>, passed: seq<int>, bounds: seq<int>, index: int, bound: int,
                     i: int)
    requires |h| == |passed| == |bounds| && 0 <= i <= |h|
    ensures Stays(h + [m], passed + [index], bounds + [bound], i)
            <==> if i == |h| then m.ts < index || bound <= m.ts
                 else h[i].ts < passed[i] || (Spared(h, bounds, i) && bound <= h[i].ts)
  {
    var h1, p1, b1 := h + [m], passed + [index], bounds + [bound];
    if i < |h| {
      assert h1[i] == h[i] && p1[i] == passed[i] && b1[|h|] == bound;
      assert forall j :: i <= j < |h| ==> b1[j] == bounds[j];
      assert Spared(h1, b1, i) <==> Spared(h, bounds, i) && bound <= h[i].ts;
    } else {
      assert h1[i] == m && p1[i] == index && b1[i] == bound;
    }
  }

  /** A key survives the deletion exactly if its message stays. */
  lemma TrimmedKey<M>(h: seq<Message<M>>, m: Message<M>, passed: seq<int>, bounds: seq<int>, col: Collection<M>,
                      bound: int, s: Span)
    requires StoredExactly(h, passed, bounds, col) && (forall i :: 0 <= i < |h| ==> 0 <= h[i].ts) && 0 <= m.ts
    ensures s in Trimmed(Added(col, m.ts, m.value), bound).values
            <==> && 0 <= s.end <= |h| && s.start == (h + [m])[s.end].ts
                 && Stays(h + [m], passed + [col.lastDeleted], bounds + [bound], s.end)
  {
    hide Sorted, Stays, Spared;
    if 0 <= s.end <= |h| {
      StaysSnoc(h, m, passed, bounds, col.lastDeleted, bound, s.end);
      if s.end < |h| {
        assert (h + [m])[s.end] == h[s.end];
        SparedAbove(h, passed, bounds, col, s.end);
        assert Stays(h, passed, bounds, s.end) <==> h[s.end].ts < passed[s.end] || Spared(h, bounds, s.end) by {
          StaysIs(h, passed, bounds, s.end);
        }
      }
    }
  }

  lemma StaysIs<M>(h: seq<Message<M>>, passed: seq<int>, bounds: seq<int>, i: int)
    requires 0 <= i < |h| == |passed| == |bounds|
    ensures Stays(h, passed, bounds, i) <==> h[i].ts < passed[i] || Spared(h, bounds, i)
  {
  }

  /** What was spared so far, and not passed by the index on arrival, still lies at or above the index. */
  lemma SparedAbove<M>(h: seq<Message<M>>, passed: seq<int>, bounds: seq<int>, col: Collection<M>, i: int)
    requires StoredExactly(h, passed, bounds, col) && 0 <= i < |h|
    ensures passed[i] <= col.lastDeleted
    ensures Spared(h, bounds, i) && h[i].ts >= passed[i] ==> h[i].ts >= col.lastDeleted
  {
    hide Stays;
  }

  /** Where the index goes: nowhere down, and if it moves, below the bound. */
  lemma TrimmedIndex<M>(col: Collection<M>, bound: int)
    requires col.lastDeleted >= -1
    ensures var index := Trimmed(col, bound).lastDeleted;
            index == col.lastDeleted || (col.lastDeleted <= index < bound)
  {
    GoneLast(col.values, col.lastDeleted, bound);
    hide Sorted;
  }

  lemma StoredStep<M>(h: seq<Message<M>>, m: Message<M>, passed: seq<int>, bounds: seq<int>, col: Collection<M>,
                      bound: int)
    requires StoredExactly(h, passed, bounds, col) && (forall i :: 0 <= i < |h| ==> 0 <= h[i].ts) && 0 <= m.ts
    requires col.lastDeleted >= -1
    ensures StoredExactly(h + [m], passed + [col.lastDeleted], bounds + [bound],
                          Trimmed(Added(col, m.ts, m.value), bound))
    ensures Trimmed(Added(col, m.ts, m.value), bound).lastDeleted >= -1
  {
    var h1, col1 := h + [m], Trimmed(Added(col, m.ts, m.value), bound);
    var p1, b1 := passed + [col.lastDeleted], bounds + [bound];
    TrimmedIndex(Added(col, m.ts, m.value), bound);
    forall s ensures s in col1.values <==> 0 <= s.end < |h1| && s.start == h1[s.end].ts && Stays(h1, p1, b1, s.end) {
      TrimmedKey(h, m, passed, bounds, col, bound, s);
    }
    hide Sorted, Stays;
    forall s | s in col1.values ensures col1.values[s] == h1[s.end].value {
      if s.end < |h| {
        assert h1[s.end] == h[s.end];
      }
    }
    forall i | 0 <= i < |h1|
      ensures p1[i] <= col1.lastDeleted
      ensures p1[i] == col1.lastDeleted || exists j :: i <= j < |h1| && col1.lastDeleted < b1[j]
    {
      if col1.lastDeleted != col.lastDeleted {
        assert col1.lastDeleted < b1[|h|];
      } else if i < |h| && passed[i] != col.lastDeleted {
        var j :| i <= j < |h| && col.lastDeleted < bounds[j];
        assert b1[j] == bounds[j];
      }
    }
  }

  lemma StoredNone<M>()
    ensures StoredExactly<M>([], [], [], NoValues())
  {
  }

  /** A deletion up to 0 deletes nothing. */
  lemma TrimmedNothing<M>(col: Collection<M>)
    ensures Trimmed(col, 0) == col
  {
    GoneLast(col.values, col.lastDeleted, 0);
    hide Sorted;
  }

  /** The positions of a history are positions of a longer one, with the same values. */
  lemma ValuesAtLonger<M>(h: seq<Message<M>>, m: Message<M>, keys: seq<Span>)
    requires forall s :: s in keys ==> 0 <= s.end < |h|
    ensures ValuesAt(h + [m], keys) == ValuesAt(h, keys)
  {
    forall i | 0 <= i < |keys| ensures ValuesAt(h + [m], keys)[i] == ValuesAt(h, keys)[i] {
      assert keys[i] in keys;
    }
  }

  lemma KeysSnoc<M>(h: seq<Message<M>>, m: Message<M>, lo: int, hi: int)
    ensures KeysBetween(h + [m], lo, hi) == KeysBetween(h, lo, hi) + if lo <= m.ts < hi then {Span(m.ts, |h|)} else {}
  {
    var h1 := h + [m];
    forall i | 0 <= i < |h| && lo <= h[i].ts < hi ensures Span(h[i].ts, i) in KeysBetween(h1, lo, hi) {
      assert h1[i] == h[i];
    }
    if lo <= m.ts < hi {
      assert h1[|h|] == m;
    }
  }

  /** A message outside the range changes nothing. */
  lemma InTimeOrderOutside<M>(h: seq<Message<M>>, m: Message<M>, lo: int, hi: int)
    requires !(lo <= m.ts < hi)
    ensures InTimeOrder(h + [m], lo, hi) == InTimeOrder(h, lo, hi)
  {
    hide KeysBetween, Sorted;
    KeysSnoc(h, m, lo, hi);
    assert KeysBetween(h + [m], lo, hi) == KeysBetween(h, lo, hi);
    KeysInside(h, lo, hi);
    ValuesAtLonger(h, m, Sorted(KeysBetween(h, lo, hi)));
  }

  lemma KeysInside<M>(h: seq<Message<M>>, lo: int, hi: int)
    ensures forall s :: s in KeysBetween(h, lo, hi) ==> 0 <= s.end < |h| && s.start == h[s.end].ts
  {
  }

  /** If messages come in time order, the values stand in arrival order. */
  lemma {:induction false} InArrivalOrder<M>(h: seq<Message<M>>, lo: int, hi: int)
    requires forall i, j :: 0 <= i < j < |h| ==> h[i].ts <= h[j].ts
    ensures InTimeOrder(h, lo, hi) == Values(Within(h, lo, hi - 1))
  {
    hide KeysBetween, Sorted, Within;
    if h == [] {
      NothingBetween(h, lo, hi);
    } else {
      var n := |h| - 1;
      var rest, m := h[..n], h[n];
      assert h == rest + [m];
      InArrivalOrder(rest, lo, hi);
      WithinSnoc(rest, m, lo, hi - 1);
      if lo <= m.ts < hi {
        LastInOrder(rest, m, lo, hi);
        ValuesSnoc(Within(rest, lo, hi - 1), m);
      } else {
        InTimeOrderOutside(rest, m, lo, hi);
        assert Within(rest, lo, hi - 1) + [] == Within(rest, lo, hi - 1);
      }
    }
  }

  lemma ValuesSnoc<M>(h: seq<Message<M>>, m: Message<M>)
    ensures Values(h + [m]) == Values(h) + [m.value]
  {
  }

  lemma NothingBetween<M>(h: seq<Message<M>>, lo: int, hi: int)
    requires h == []
    ensures InTimeOrder(h, lo, hi) == [] && Within(h, lo, hi - 1) == []
  {
  }

  /** A message that is not earlier than the others comes last. */
  lemma LastInOrder<M>(h: seq<Message<M>>, m: Message<M>, lo: int, hi: int)
    requires lo <= m.ts < hi && forall i :: 0 <= i < |h| ==> h[i].ts <= m.ts
    ensures InTimeOrder(h + [m], lo, hi) == InTimeOrder(h, lo, hi) + [m.value]
  {
    hide KeysBetween, Sorted;
    KeysSnoc(h, m, lo, hi);
    KeysInside(h, lo, hi);
    var keys, last := Sorted(KeysBetween(h, lo, hi)), Span(m.ts, |h|);
    AscendingIsSorted(keys + [last], KeysBetween(h + [m], lo, hi));
    ValuesAtLonger(h, m, keys);
    var all := keys + [last];
    assert InTimeOrder(h + [m], lo, hi) == ValuesAt(h + [m], all);
    assert ValuesAt(h + [m], all) == ValuesAt(h + [m], keys) + [m.value];
  }
}
