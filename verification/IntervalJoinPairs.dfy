/** The join as a relation: which pairs come out, and how often. */
module IntervalJoinPairs {
  import opened Wrappers
  import opened TimestampedStore
  import opened IntervalJoin
  import opened IntervalJoinRun

  /** The interval join's relation between a left and a right record. */
  predicate Related<V>(cfg: Config, l: Rec<V>, r: Rec<V>) {
    l.key == r.key && l.ts - cfg.backward <= r.ts <= l.ts + cfg.forward
  }

  function Lefts<V>(es: seq<Event<V>>): seq<Rec<V>> {
    if es == [] then [] else (if es[0].Left? then [es[0].rec] else []) + Lefts(es[1..])
  }

  function Rights<V>(es: seq<Event<V>>): seq<Rec<V>> {
    if es == [] then [] else (if es[0].Right? then [es[0].rec] else []) + Rights(es[1..])
  }

  /** The pairs of positions that record i of its side makes with the records it meets. */
  function Paired(left: bool, i: nat, met: seq<nat>): seq<(nat, nat)> {
    seq(|met|, k requires 0 <= k < |met| => if left then (i, met[k]) else (met[k], i))
  }

  /** The pairs an event completes. */
  function NewPairs<V>(cfg: Config, lefts: seq<Rec<V>>, rights: seq<Rec<V>>, e: Event<V>): seq<(nat, nat)> {
    match e
    case Left(r) => Paired(true, |lefts|, Met(rights, r.key, r.ts - cfg.backward, r.ts + 1))
    case Right(r) => Paired(false, |rights|, Met(lefts, r.key, r.ts - cfg.forward, r.ts + 1))
    case Checkpoint => []
  }

  /** The pairs in the order in which they come out. */
  function Pairs<V>(cfg: Config, lefts: seq<Rec<V>>, rights: seq<Rec<V>>, es: seq<Event<V>>): seq<(nat, nat)>
    decreases |es|
  {
    if es == [] then []
    else NewPairs(cfg, lefts, rights, es[0]) + Pairs(cfg, NextLefts(lefts, es[0]), NextRights(rights, es[0]), es[1..])
  }

  predicate UpTo<V>(h: seq<Rec<V>>, now: int) { forall i :: 0 <= i < |h| ==> h[i].ts <= now }

  function Once(b: bool): nat { if b then 1 else 0 }

  lemma {:induction false} PairedCount(left: bool, i: nat, met: seq<nat>, p: (nat, nat))
    requires forall a, b :: 0 <= a < b < |met| ==> met[a] < met[b]
    ensures multiset(Paired(left, i, met))[p] == Once(if left then p.0 == i && p.1 in met else p.1 == i && p.0 in met)
  {
    if met != [] {
      var last := |met| - 1;
      PairedCount(left, i, met[..last], p);
      assert Paired(left, i, met) == Paired(left, i, met[..last]) + [if left then (i, met[last]) else (met[last], i)];
      assert met == met[..last] + [met[last]];
    }
  }

  /** How often pair p must come out of a run from lefts and rights on to l and r: once if it is related and new. */
  function Expected<V>(cfg: Config, lefts: seq<Rec<V>>, rights: seq<Rec<V>>, l: seq<Rec<V>>, r: seq<Rec<V>>,
                       p: (nat, nat)): nat {
    Once(p.0 < |l| && p.1 < |r| && (p.0 >= |lefts| || p.1 >= |rights|) && Related(cfg, l[p.0], r[p.1]))
  }

  lemma ExpectedLeft<V>(cfg: Config, lefts: seq<Rec<V>>, rights: seq<Rec<V>>, x: Rec<V>, moreL: seq<Rec<V>>,
                        moreR: seq<Rec<V>>, p: (nat, nat))
    requires UpTo(rights, x.ts)
    ensures var l, r := lefts + [x] + moreL, rights + moreR;
            Expected(cfg, lefts, rights, l, r, p)
            == multiset(NewPairs(cfg, lefts, rights, Left(x)))[p] + Expected(cfg, lefts + [x], rights, l, r, p)
  {
    hide Met, Paired;
    var met := Met(rights, x.key, x.ts - cfg.backward, x.ts + 1);
    PairedCount(true, |lefts|, met, p);
    assert p.1 in met <==> Meets(rights, x.key, x.ts - cfg.backward, x.ts + 1, p.1);
  }

  lemma ExpectedRight<V>(cfg: Config, lefts: seq<Rec<V>>, rights: seq<Rec<V>>, x: Rec<V>, moreL: seq<Rec<V>>,
                         moreR: seq<Rec<V>>, p: (nat, nat))
    requires UpTo(lefts, x.ts)
    ensures var l, r := lefts + moreL, rights + [x] + moreR;
            Expected(cfg, lefts, rights, l, r, p)
            == multiset(NewPairs(cfg, lefts, rights, Right(x)))[p] + Expected(cfg, lefts, rights + [x], l, r, p)
  {
    hide Met, Paired;
    var met := Met(lefts, x.key, x.ts - cfg.forward, x.ts + 1);
    PairedCount(false, |rights|, met, p);
    assert p.0 in met <==> Meets(lefts, x.key, x.ts - cfg.forward, x.ts + 1, p.0);
  }

  lemma ExpectedStep<V>(cfg: Config, lefts: seq<Rec<V>>, rights: seq<Rec<V>>, now: int, e: Event<V>, moreL: seq<Rec<V>>,
                        moreR: seq<Rec<V>>, p: (nat, nat))
    requires UpTo(lefts, now) && UpTo(rights, now) && (!e.Checkpoint? ==> now <= e.rec.ts)
    ensures var l, r := NextLefts(lefts, e), NextRights(rights, e);
            Expected(cfg, lefts, rights, l + moreL, r + moreR, p)
            == multiset(NewPairs(cfg, lefts, rights, e))[p] + Expected(cfg, l, r, l + moreL, r + moreR, p)
    ensures var later := if e.Checkpoint? then now else e.rec.ts;
            UpTo(NextLefts(lefts, e), later) && UpTo(NextRights(rights, e), later)
  {
    hide Expected, Met, Paired;
    match e
    case Left(x) => ExpectedLeft(cfg, lefts, rights, x, moreL, moreR, p);
    case Right(x) => ExpectedRight(cfg, lefts, rights, x, moreL, moreR, p);
    case Checkpoint =>
  }

  lemma Shift<T>(x: seq<T>, y: T, z: seq<T>)
    ensures x + ([y] + z) == x + [y] + z && [] + z == z
  {
  }

  lemma LeftsFirst<V>(lefts: seq<Rec<V>>, es: seq<Event<V>>)
    requires es != []
    ensures lefts + Lefts(es) == NextLefts(lefts, es[0]) + Lefts(es[1..])
  {
    var l := Lefts(es[1..]);
    if es[0].Left? {
      Shift(lefts, es[0].rec, l);
    } else {
      assert Lefts(es) == l;
    }
  }

  lemma RightsFirst<V>(rights: seq<Rec<V>>, es: seq<Event<V>>)
    requires es != []
    ensures rights + Rights(es) == NextRights(rights, es[0]) + Rights(es[1..])
  {
    var r := Rights(es[1..]);
    if es[0].Right? {
      Shift(rights, es[0].rec, r);
    } else {
      assert Rights(es) == r;
    }
  }

  /** The new records of either side, split off the run's first event. */
  lemma FirstEvent<V>(lefts: seq<Rec<V>>, rights: seq<Rec<V>>, es: seq<Event<V>>)
    requires es != []
    ensures lefts + Lefts(es) == NextLefts(lefts, es[0]) + Lefts(es[1..])
    ensures rights + Rights(es) == NextRights(rights, es[0]) + Rights(es[1..])
  {
    hide Lefts, Rights;
    LeftsFirst(lefts, es);
    RightsFirst(rights, es);
  }

  lemma PairsFirst<V>(cfg: Config, lefts: seq<Rec<V>>, rights: seq<Rec<V>>, now: int, es: seq<Event<V>>)
    requires es != []
    ensures Pairs(cfg, lefts, rights, es)
            == NewPairs(cfg, lefts, rights, es[0])
            + Pairs(cfg, NextLefts(lefts, es[0]), NextRights(rights, es[0]), es[1..])
    ensures Timely(now, es) ==>
              && (!es[0].Checkpoint? ==> now <= es[0].rec.ts)
              && Timely(if es[0].Checkpoint? then now else es[0].rec.ts, es[1..])
  {
  }

  /** Each related pair that the rest of the run completes comes out exactly once, and no other. */
  lemma {:induction false} PairsExact<V>(cfg: Config, lefts: seq<Rec<V>>, rights: seq<Rec<V>>, now: int,
                                         es: seq<Event<V>>, p: (nat, nat))
    requires UpTo(lefts, now) && UpTo(rights, now) && Timely(now, es)
    ensures multiset(Pairs(cfg, lefts, rights, es))[p]
            == Expected(cfg, lefts, rights, lefts + Lefts(es), rights + Rights(es), p)
    decreases |es|
  {
    if es == [] {
      NothingExpected(cfg, lefts, rights, p);
    } else {
      hide *;
      var e := es[0];
      PairsFirst(cfg, lefts, rights, now, es);
      FirstEvent(lefts, rights, es);
      ExpectedStep(cfg, lefts, rights, now, e, Lefts(es[1..]), Rights(es[1..]), p);
      PairsExact(cfg, NextLefts(lefts, e), NextRights(rights, e), if e.Checkpoint? then now else e.rec.ts, es[1..], p);
    }
  }

  lemma NothingExpected<V>(cfg: Config, lefts: seq<Rec<V>>, rights: seq<Rec<V>>, p: (nat, nat))
    ensures Expected(cfg, lefts, rights, lefts + [], rights + [], p) == 0
  {
  }

  // ----- The pairs as values -----

  /** The outputs that joined two records, in order. */
  function Matches<V>(outs: seq<seq<Joined<V>>>): seq<Joined<V>> {
    if outs == [] then [] else Both(outs[0]) + Matches(outs[1..])
  }

  function Both<V>(out: seq<Joined<V>>): seq<Joined<V>> {
    if out == [] then [] else (if out[0].left.Some? && out[0].right.Some? then [out[0]] else []) + Both(out[1..])
  }

  function ValueAt<V>(h: seq<Rec<V>>, i: nat): Option<V> { if i < |h| then Some(h[i].value) else None }

  function Valued<V>(l: seq<Rec<V>>, r: seq<Rec<V>>, pairs: seq<(nat, nat)>): seq<Joined<V>> {
    seq(|pairs|, k requires 0 <= k < |pairs| => Joined(ValueAt(l, pairs[k].0), ValueAt(r, pairs[k].1)))
  }

  lemma {:induction false} BothAll<V>(out: seq<Joined<V>>)
    requires forall i :: 0 <= i < |out| ==> out[i].left.Some? && out[i].right.Some?
    ensures Both(out) == out
  {
    if out != [] {
      BothAll(out[1..]);
    }
  }

  lemma BothMerged<V>(cfg: Config, left: bool, v: V, met: seq<V>)
    ensures Both(Merged(cfg, left, v, met)) == if met != [] then Merged(cfg, left, v, met) else []
  {
    if met != [] {
      BothAll(Merged(cfg, left, v, met));
    } else {
      assert Both<V>([]) == [];
    }
  }

  lemma MergedValued<V>(cfg: Config, left: bool, x: Rec<V>, other: seq<Rec<V>>, own: seq<Rec<V>>, i: nat,
                        more: seq<Rec<V>>, at: seq<nat>)
    requires i < |own| && own[i] == x && at != [] && forall k :: k in at ==> k < |other|
    ensures Merged(cfg, left, x.value, ValuesAt(other, at))
            == if left then Valued(own, other + more, Paired(true, i, at))
            else Valued(other + more, own, Paired(false, i, at))
  {
    forall k | 0 <= k < |at| ensures at[k] < |other| {
      assert at[k] in at;
    }
  }

  /** The matched outputs for a new record x: the values of its pairs, whatever else the run holds. */
  lemma BothIdeal<V>(cfg: Config, left: bool, x: Rec<V>, other: seq<Rec<V>>, own: seq<Rec<V>>, i: nat,
                     more: seq<Rec<V>>)
    requires i < |own| && own[i] == x
    ensures var met := Met(other, x.key, x.ts - Reach(cfg, left), x.ts + 1);
            Both(IdealOutput(cfg, left, x, other))
            == if left then Valued(own, other + more, Paired(true, i, met))
            else Valued(other + more, own, Paired(false, i, met))
  {
    MetWithin(other, x.key, x.ts - Reach(cfg, left), x.ts + 1);
    hide Met, Meets, Both, Merged;
    var met := Met(other, x.key, x.ts - Reach(cfg, left), x.ts + 1);
    BothMerged(cfg, left, x.value, ValuesAt(other, met));
    if met != [] {
      MergedValued(cfg, left, x, other, own, i, more, met);
    }
  }

  lemma ValuedSplit<V>(l: seq<Rec<V>>, r: seq<Rec<V>>, first: seq<(nat, nat)>, rest: seq<(nat, nat)>)
    ensures Valued(l, r, first + rest) == Valued(l, r, first) + Valued(l, r, rest)
  {
  }

  lemma MatchesFirst<V>(cfg: Config, lefts: seq<Rec<V>>, rights: seq<Rec<V>>, es: seq<Event<V>>)
    requires es != []
    ensures Matches(IdealOutputs(cfg, lefts, rights, es))
            == Both(IdealStep(cfg, lefts, rights, es[0]))
               + Matches(IdealOutputs(cfg, NextLefts(lefts, es[0]), NextRights(rights, es[0]), es[1..]))
  {
    hide IdealOutput;
    var all := IdealOutputs(cfg, lefts, rights, es);
    assert all == [all[0]] + all[1..];
  }

  lemma NewMatches<V>(cfg: Config, lefts: seq<Rec<V>>, rights: seq<Rec<V>>, e: Event<V>, moreL: seq<Rec<V>>,
                      moreR: seq<Rec<V>>)
    ensures Both(IdealStep(cfg, lefts, rights, e))
            == Valued(NextLefts(lefts, e) + moreL, NextRights(rights, e) + moreR, NewPairs(cfg, lefts, rights, e))
  {
    hide Valued, IdealOutput, Met, Paired;
    match e
    case Left(x) => BothIdeal(cfg, true, x, rights, lefts + [x] + moreL, |lefts|, moreR);
    case Right(x) => BothIdeal(cfg, false, x, lefts, rights + [x] + moreR, |rights|, moreL);
    case Checkpoint => ValuedNone(lefts + moreL, rights + moreR);
  }

  lemma ValuedNone<V>(l: seq<Rec<V>>, r: seq<Rec<V>>)
    ensures Valued(l, r, []) == []
  {
  }

  /** The matched outputs of the ideal run are the values of its pairs. */
  lemma {:induction false} MatchesArePairs<V>(cfg: Config, lefts: seq<Rec<V>>, rights: seq<Rec<V>>, es: seq<Event<V>>)
    ensures Matches(IdealOutputs(cfg, lefts, rights, es))
            == Valued(lefts + Lefts(es), rights + Rights(es), Pairs(cfg, lefts, rights, es))
    decreases |es|
  {
    if es == [] {
      ValuedNone(lefts + Lefts(es), rights + Rights(es));
    } else {
      hide *;
      var e, rest, l, r := es[0], es[1..], lefts + Lefts(es), rights + Rights(es);
      PairsFirst(cfg, lefts, rights, 0, es);
      FirstEvent(lefts, rights, es);
      MatchesFirst(cfg, lefts, rights, es);
      NewMatches(cfg, lefts, rights, e, Lefts(rest), Rights(rest));
      MatchesArePairs(cfg, NextLefts(lefts, e), NextRights(rights, e), rest);
      ValuedSplit(l, r, NewPairs(cfg, lefts, rights, e), Pairs(cfg, NextLefts(lefts, e), NextRights(rights, e), rest));
    }
  }

  /**
   * The join over a whole run: what comes out matched is, pair by pair, the values of the related
   * pairs of the run's records, each pair once.
   */
  lemma JoinIsRelational<V>(keys: set<Key>, cfg: Config, es: seq<Event<V>>)
    requires cfg.backward <= cfg.grace && cfg.forward <= cfg.grace && Disjoint(keys)
    requires Timely(0, es) && KeysIn(keys, es)
    ensures var l, r, pairs := Lefts(es), Rights(es), Pairs(cfg, [], [], es);
            && Matches(Outputs(cfg, EmptyState(), es)) == Valued(l, r, pairs)
            && forall p: (nat, nat) ::
                 multiset(pairs)[p] == Once(p.0 < |l| && p.1 < |r| && Related(cfg, l[p.0], r[p.1]))
  {
    hide Pairs, Lefts, Rights, Outputs, Valued, Matches;
    JoinExact(keys, cfg, es);
    MatchesArePairs(cfg, [], [], es);
    var l, r := Lefts(es), Rights(es);
    assert [] + l == l && [] + r == r;
    forall p: (nat, nat)
      ensures multiset(Pairs(cfg, [], [], es))[p] == Once(p.0 < |l| && p.1 < |r| && Related(cfg, l[p.0], r[p.1])) {
      PairsExact(cfg, [], [], 0, es, p);
    }
  }
}
