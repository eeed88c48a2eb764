/**
 * The collection of values of one message key, which windows read and prune
 * (state/rocksdb/windowed/transaction.py).
 */
module CountCollection {
  import opened Wrappers
  import opened WindowStore

  /** An ascending list is the sorted list of its members. */
  lemma AscendingIsSorted(x: seq<Span>, spans: set<Span>)
    requires Ascending(x) && forall s :: s in x <==> s in spans
    ensures x == Sorted(spans)
  {
    hide Sorted;
    AscendingUnique(x, Sorted(spans));
  }

  lemma {:induction false} AscendingUnique(x: seq<Span>, y: seq<Span>)
    requires Ascending(x) && Ascending(y) && forall s :: s in x <==> s in y
    ensures x == y
  {
    HasFirst(x);
    HasFirst(y);
    if x != [] {
      SameFirst(x, y);
      forall s ensures s in x[1..] <==> s in y[1..] {
        TailMember(x, s);
        TailMember(y, s);
      }
      AscendingUnique(x[1..], y[1..]);
      assert x == [x[0]] + x[1..] && y == [y[0]] + y[1..];
    }
  }

  lemma SameFirst(x: seq<Span>, y: seq<Span>)
    requires Ascending(x) && Ascending(y) && x != [] && y != []
    requires x[0] in y && y[0] in x
    ensures x[0] == y[0]
  {
    var i :| 0 <= i < |y| && y[i] == x[0];
    var j :| 0 <= j < |x| && x[j] == y[0];
  }

  lemma TailMember(x: seq<Span>, s: Span)
    requires Ascending(x) && x != []
    ensures s in x[1..] <==> s in x && s != x[0]
  {
    if s in x && s != x[0] {
      var i :| 0 <= i < |x| && x[i] == s;
      assert x[1..][i - 1] == s;
    }
    if s in x[1..] {
      var i :| 0 <= i < |x[1..]| && x[1..][i] == s;
      assert Before(x[0], x[i + 1]);
    }
  }

  /** The values whose id lies in [from, upTo), by id and then by insertion counter. */
  function Collected<M>(values: map<Span, M>, from: int, upTo: int): seq<M> {
    var keys := Sorted(set s | s in values && from <= s.start < upTo);
    seq(|keys|, i requires 0 <= i < |keys| => assert keys[i] in keys; values[keys[i]])
  }

  /** A collection read through an ascending list of its keys in the range. */
  lemma CollectedAre<M>(values: map<Span, M>, from: int, upTo: int, keys: seq<Span>, out: seq<M>)
    requires Ascending(keys) && forall s :: s in keys <==> s in values && from <= s.start < upTo
    requires |out| == |keys| && forall i :: 0 <= i < |keys| ==> keys[i] in keys && out[i] == values[keys[i]]
    ensures Collected(values, from, upTo) == out
  {
    hide Ascending, Sorted;
    AscendingIsSorted(keys, set s | s in values && from <= s.start < upTo);
  }

  /** The key of message i in a collection whose ids count from base. */
  function KeyOf(base: int, i: int): Span { Span(i - base, i) }

  /** Messages low, ..., high - 1, each under its key. */
  function Stored<M>(base: int, h: seq<M>, low: nat, high: nat): map<Span, M>
    requires high <= |h|
  {
    map s | s in (set i | low <= i < high :: KeyOf(base, i)) :: h[s.end]
  }

  lemma StoredKeys<M>(base: int, h: seq<M>, low: nat, high: nat, s: Span)
    requires high <= |h|
    ensures s in Stored(base, h, low, high) <==> low <= s.end < high && s.start == s.end - base
  {
    if low <= s.end < high && s.start == s.end - base {
      assert s == KeyOf(base, s.end);
    }
  }

  lemma StoredSize<M>(base: int, h: seq<M>, low: nat, high: nat)
    requires low <= high <= |h|
    ensures |Stored(base, h, low, high)| == high - low
  {
    hide Stored;
    forall s ensures s in Stored(base, h, low, high) <==> s in KeySet(base, low, high) {
      StoredKeys(base, h, low, high, s);
    }
    assert Stored(base, h, low, high).Keys == KeySet(base, low, high);
    KeySetSize(base, low, high);
  }

  ghost function KeySet(base: int, low: nat, high: nat): (r: set<Span>)
    requires low <= high
    ensures forall s :: s in r <==> low <= s.end < high && s.start == s.end - base
  {
    if low == high then {} else KeySet(base, low, high - 1) + {KeyOf(base, high - 1)}
  }

  lemma OneMore<T>(s: set<T>, x: T)
    requires x !in s
    ensures |s + {x}| == |s| + 1
  {
  }

  lemma NewKey(base: int, low: nat, high: nat)
    requires low <= high
    ensures KeyOf(base, high) !in KeySet(base, low, high)
  {
    hide KeySet;
  }

  lemma KeySetNext(base: int, low: nat, high: nat)
    requires low <= high
    ensures KeySet(base, low, low) == {}
    ensures KeySet(base, low, high + 1) == KeySet(base, low, high) + {KeyOf(base, high)}
  {
  }

  lemma {:induction false} KeySetSize(base: int, low: nat, high: nat)
    requires low <= high
    ensures |KeySet(base, low, high)| == high - low
  {
    hide KeySet, KeyOf;
    if low < high {
      KeySetSize(base, low, high - 1);
      KeySetNext(base, low, high - 1);
      NewKey(base, low, high - 1);
      OneMore(KeySet(base, low, high - 1), KeyOf(base, high - 1));
    } else {
      KeySetNext(base, low, high);
    }
  }

  /** The keys of messages from, ..., upTo - 1. */
  function KeysOf(base: int, from: nat, upTo: nat): (r: seq<Span>)
    requires from <= upTo
    ensures |r| == upTo - from && forall i :: 0 <= i < |r| ==> r[i] == KeyOf(base, from + i)
  {
    seq(upTo - from, i requires 0 <= i < upTo - from => KeyOf(base, from + i))
  }

  lemma KeysOfMember(base: int, from: nat, upTo: nat, s: Span)
    requires from <= upTo
    ensures s in KeysOf(base, from, upTo) <==> from <= s.end < upTo && s.start == s.end - base
  {
    if from <= s.end < upTo && s.start == s.end - base {
      assert KeysOf(base, from, upTo)[s.end - from] == s;
    }
  }

  /** Reading a range of ids gives the messages of the range, in order. */
  lemma CollectedStored<M>(base: int, h: seq<M>, low: nat, high: nat, from: nat, upTo: nat)
    requires high <= |h| && low <= from <= upTo <= high
    ensures Collected(Stored(base, h, low, high), from - base, upTo - base) == h[from..upTo]
  {
    hide Stored, Collected, KeysOf;
    var values, keys := Stored(base, h, low, high), KeysOf(base, from, upTo);
    forall s ensures s in keys <==> s in values && from - base <= s.start < upTo - base {
      StoredKeys(base, h, low, high, s);
      KeysOfMember(base, from, upTo, s);
    }
    forall i | 0 <= i < upTo - from ensures keys[i] in keys && values[keys[i]] == h[from..upTo][i] {
      assert keys[i] in keys;
      StoredValue(base, h, low, high, keys[i]);
    }
    CollectedAre(values, from - base, upTo - base, keys, h[from..upTo]);
  }

  lemma StoredValue<M>(base: int, h: seq<M>, low: nat, high: nat, s: Span)
    requires high <= |h| && s in Stored(base, h, low, high)
    ensures 0 <= s.end < |h| && Stored(base, h, low, high)[s] == h[s.end]
  {
  }

  /** delete_from_collection: drops the ids in [max(from, 0), upTo). */
  function Pruned<M>(values: map<Span, M>, from: int, upTo: int): map<Span, M> {
    map s | s in values && !((if from < 0 then 0 else from) <= s.start < upTo) :: values[s]
  }

  /** The ids dropped by a deletion. */
  function Gone<M>(values: map<Span, M>, from: int, upTo: int): set<Span> {
    set s | s in values && (if from < 0 then 0 else from) <= s.start < upTo
  }

  /** The index left by a deletion: the largest id dropped, or what it was if none was. */
  ghost predicate PrunedIndex<M>(values: map<Span, M>, from: int, upTo: int, before: int, after: int) {
    if Gone(values, from, upTo) == {} then after == before
    else
      && (exists s :: s in Gone(values, from, upTo) && s.start == after)
      && forall s :: s in Gone(values, from, upTo) ==> s.start <= after
  }

  lemma IndexOfSorted<M>(values: map<Span, M>, from: int, upTo: int, keys: seq<Span>, before: int, after: int)
    requires Ascending(keys) && forall s :: s in keys <==> s in Gone(values, from, upTo)
    requires after == if keys == [] then before else keys[|keys| - 1].start
    ensures PrunedIndex(values, from, upTo, before, after)
  {
    if keys == [] {
      assert Gone(values, from, upTo) == {};
    } else {
      assert keys[|keys| - 1] in keys;
      forall s | s in keys ensures s.start <= after {
        var i :| 0 <= i < |keys| && keys[i] == s;
      }
    }
  }

  function Without<M>(values: map<Span, M>, keys: seq<Span>): map<Span, M> {
    map s | s in values && s !in keys :: values[s]
  }

  lemma PrunedWithout<M>(values: map<Span, M>, from: int, upTo: int, keys: seq<Span>)
    requires forall s :: s in keys <==> s in Gone(values, from, upTo)
    ensures Pruned(values, from, upTo) == Without(values, keys)
  {
  }

  lemma WithoutNone<M>(values: map<Span, M>)
    ensures Without(values, []) == values
  {
  }

  lemma LaterStart(keys: seq<Span>, i: int)
    requires Ascending(keys) && 0 <= i < |keys|
    ensures i > 0 ==> keys[i - 1].start <= keys[i].start
  {
    if i > 0 {
      assert Before(keys[i - 1], keys[i]);
    }
  }

  lemma WithoutOneMore<M>(values: map<Span, M>, keys: seq<Span>, key: Span)
    ensures Without(values, keys) - {key} == Without(values, keys + [key])
  {
  }

  // ----- The collection as a whole -----

  /** The values by id and insertion counter, the last counter given, and the deletion index. */
  datatype Collection<M> = Collection(values: map<Span, M>, counter: int, lastDeleted: int)

  function NoValues<M>(): Collection<M> { Collection(map[], -1, -1) }

  /** add_to_collection */
  function Added<M>(col: Collection<M>, id: int, v: M): Collection<M> {
    Collection(col.values[Span(id, col.counter + 1) := v], col.counter + 1, col.lastDeleted)
  }

  /** delete_from_collection from an id on. */
  function TrimmedFrom<M>(col: Collection<M>, from: int, upTo: int): Collection<M> {
    var gone := Sorted(Gone(col.values, from, upTo));
    Collection(Pruned(col.values, from, upTo), col.counter,
               if gone == [] then col.lastDeleted else gone[|gone| - 1].start)
  }

  /** Without a start it is the deletion index; an index of 0 counts as a missing one, which makes no difference. */
  function Trimmed<M>(col: Collection<M>, upTo: int): Collection<M> { TrimmedFrom(col, col.lastDeleted, upTo) }

  /** The last id dropped is the largest. */
  lemma GoneLast<M>(values: map<Span, M>, from: int, upTo: int)
    ensures var gone, low := Sorted(Gone(values, from, upTo)), if from < 0 then 0 else from;
            && (gone == [] ==> forall s :: s in values ==> !(low <= s.start < upTo))
            && (gone != [] ==>
                  && gone[|gone| - 1] in values && low <= gone[|gone| - 1].start < upTo
                  && forall s :: s in values && low <= s.start < upTo ==> s.start <= gone[|gone| - 1].start)
  {
    var gone := Sorted(Gone(values, from, upTo));
    hide Sorted;
    forall s | s in values && (if from < 0 then 0 else from) <= s.start < upTo ensures s in gone {
      assert s in Gone(values, from, upTo);
    }
    if gone != [] {
      assert gone[|gone| - 1] in gone;
      forall s | s in gone ensures s.start <= gone[|gone| - 1].start {
        var i :| 0 <= i < |gone| && gone[i] == s;
      }
    }
  }

  /** Exactly the ids in [max(from, 0), upTo) go; the index is the largest of them, or what it was if there is none. */
  lemma TrimmedIs<M>(col: Collection<M>, from: int, upTo: int)
    ensures
      var out, low := TrimmedFrom(col, from, upTo), Max(0, from);
      && (forall s :: s in out.values <==> s in col.values && !(low <= s.start < upTo))
      && (forall s :: s in out.values ==> out.values[s] == col.values[s])
      && (forall s :: s in col.values && low <= s.start < upTo ==> s.start <= out.lastDeleted)
      && (out.lastDeleted == col.lastDeleted
          || exists s :: s in col.values && low <= s.start < upTo && s.start == out.lastDeleted)
  {
    hide Sorted;
    GoneLast(col.values, from, upTo);
  }

  /** Deletes the ids in [max(from, 0), upTo) one by one, and remembers the largest. */
  method Prune<M>(stored: map<Span, M>, from: int, upTo: int, before: int) returns (values: map<Span, M>, after: int)
    ensures values == Pruned(stored, from, upTo)
    ensures var gone := Sorted(Gone(stored, from, upTo)); after == if gone == [] then before else gone[|gone| - 1].start
  {
    hide Pruned, Without, Ascending;
    values, after := stored, before;
    var keys := Sorted(Gone(stored, from, upTo));
    PrunedWithout(stored, from, upTo, keys);
    var last := -1;
    WithoutNone(stored);
    for i := 0 to |keys|
      invariant values == Without(stored, keys[..i])
      invariant last == if i == 0 then -1 else keys[i - 1].start
    {
      assert keys[..i + 1] == keys[..i] + [keys[i]];
      WithoutOneMore(stored, keys[..i], keys[i]);
      LaterStart(keys, i);
      assert keys[i] in keys;
      last := Max(last, keys[i].start);
      values := values - {keys[i]};
    }
    assert keys[..|keys|] == keys;
    if keys != [] {
      after := last;
    }
  }

  lemma PrunedStored<M>(base: int, h: seq<M>, low: nat, high: nat, from: int, mid: nat)
    requires high <= |h| && low <= mid <= high && from <= low - base && base <= low
    ensures Pruned(Stored(base, h, low, high), from, mid - base) == Stored(base, h, mid, high)
  {
    var p, q := Pruned(Stored(base, h, low, high), from, mid - base), Stored(base, h, mid, high);
    forall s ensures s in p <==> s in q {
      StoredKeys(base, h, low, high, s);
      StoredKeys(base, h, mid, high, s);
    }
  }

  lemma StoredSnoc<M>(base: int, h: seq<M>, low: nat, x: M)
    requires low <= |h|
    ensures Stored(base, h + [x], low, |h| + 1) == Stored(base, h, low, |h|)[KeyOf(base, |h|) := x]
  {
    var p, q := Stored(base, h + [x], low, |h| + 1), Stored(base, h, low, |h|)[KeyOf(base, |h|) := x];
    forall s ensures s in p <==> s in q {
      StoredKeys(base, h + [x], low, |h| + 1, s);
      StoredKeys(base, h, low, |h|, s);
    }
  }
}
