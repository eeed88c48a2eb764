/** Window aggregators as folds over the messages of one key, in arrival order. */
module Aggregation {

  datatype Message<M> = Message(ts: int, value: M)

  function Values<M>(h: seq<Message<M>>): seq<M> {
    seq(|h|, i requires 0 <= i < |h| => h[i].value)
  }

  /** An aggregator: the starting value, the update with one message, and the final projection. */
  datatype Aggregator<!M, !S, R> = Aggregator(initial: S, agg: (S, M, int) -> S, result: S -> R)

  /** Stands for having no aggregator: the stored value is always the first one. */
  function Idle<M, S, R>(a: Aggregator<M, S, R>): Aggregator<M, S, R> {
    Aggregator(a.initial, (s: S, v: M, ts: int) => a.initial, a.result)
  }

  /** What a stream of messages aggregates to, oldest message first. */
  function FoldAll<M, S, R>(a: Aggregator<M, S, R>, h: seq<Message<M>>): S {
    if h == [] then a.initial
    else
      var last := h[|h| - 1];
      a.agg(FoldAll(a, h[..|h| - 1]), last.value, last.ts)
  }

  /** The messages of h with lo <= timestamp <= hi, in arrival order. */
  function Within<M>(h: seq<Message<M>>, lo: int, hi: int): seq<Message<M>> {
    if h == [] then []
    else
      var last := h[|h| - 1];
      Within(h[..|h| - 1], lo, hi) + (if lo <= last.ts <= hi then [last] else [])
  }

  ghost function Times<M>(h: seq<Message<M>>): set<int> {
    set m | m in h :: m.ts
  }

  /** The running maximum kept by the store: 0 before the first message. */
  function Latest<M>(h: seq<Message<M>>): (r: int)
    ensures 0 <= r
    ensures forall t :: t in Times(h) ==> t <= r
    ensures r == 0 || r in Times(h)
  {
    if h == [] then 0
    else
      var rest := h[..|h| - 1];
      assert h == rest + [h[|h| - 1]];
      TimesSnoc(rest, h[|h| - 1]);
      if h[|h| - 1].ts > Latest(rest) then h[|h| - 1].ts else Latest(rest)
  }

  /** Timestamps start at first, and no message is more than lateness behind the largest one before it. */
  ghost predicate LateBy<M>(first: int, lateness: int, msgs: seq<Message<M>>) {
    forall i :: 0 <= i < |msgs| ==> first <= msgs[i].ts && msgs[i].ts >= Latest(msgs[..i]) - lateness
  }

  lemma TimesSnoc<M>(h: seq<Message<M>>, m: Message<M>)
    ensures Times(h + [m]) == Times(h) + {m.ts}
  {
    assert forall x :: x in h + [m] <==> x in h || x == m;
    forall t | t in Times(h) + {m.ts} ensures t in Times(h + [m]) {
      if t == m.ts {
        assert m in h + [m];
      } else {
        var x :| x in h && x.ts == t;
        assert x in h + [m];
      }
    }
  }

  lemma LatestSnoc<M>(h: seq<Message<M>>, m: Message<M>)
    ensures Latest(h + [m]) == if m.ts > Latest(h) then m.ts else Latest(h)
  {
    assert (h + [m])[..|h|] == h;
  }

  lemma WithinSnoc<M>(h: seq<Message<M>>, m: Message<M>, lo: int, hi: int)
    ensures Within(h + [m], lo, hi) == Within(h, lo, hi) + (if lo <= m.ts <= hi then [m] else [])
  {
    assert (h + [m])[..|h|] == h;
  }

  lemma WithinOutside<M>(h: seq<Message<M>>, m: Message<M>, lo: int, hi: int)
    requires !(lo <= m.ts <= hi)
    ensures Within(h + [m], lo, hi) == Within(h, lo, hi)
  {
    WithinSnoc(h, m, lo, hi);
    assert Within(h, lo, hi) + [] == Within(h, lo, hi);
  }

  lemma FoldAllSnoc<M, S, R>(a: Aggregator<M, S, R>, h: seq<Message<M>>, m: Message<M>)
    ensures FoldAll(a, h + [m]) == a.agg(FoldAll(a, h), m.value, m.ts)
  {
    assert (h + [m])[..|h|] == h;
  }

  /** Two ranges that hold the same seen timestamps select the same messages. */
  lemma {:induction false} WithinSame<M>(h: seq<Message<M>>, lo: int, hi: int, lo': int, hi': int)
    requires forall t :: t in Times(h) ==> (lo <= t <= hi <==> lo' <= t <= hi')
    ensures Within(h, lo, hi) == Within(h, lo', hi')
  {
    if h != [] {
      var rest := h[..|h| - 1];
      assert h == rest + [h[|h| - 1]];
      TimesSnoc(rest, h[|h| - 1]);
      WithinSame(rest, lo, hi, lo', hi');
    }
  }

  lemma {:induction false} WithinNone<M>(h: seq<Message<M>>, lo: int, hi: int)
    requires forall t :: t in Times(h) ==> !(lo <= t <= hi)
    ensures Within(h, lo, hi) == []
  {
    if h != [] {
      var rest := h[..|h| - 1];
      assert h == rest + [h[|h| - 1]];
      TimesSnoc(rest, h[|h| - 1]);
      WithinNone(rest, lo, hi);
    }
  }
}
