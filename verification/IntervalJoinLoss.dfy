/** When the interval join loses pairs: the exact condition on its configuration and its keys. */
module IntervalJoinLoss {
  import opened Wrappers
  import opened KeyEncoding
  import opened WindowStore
  import opened CountCollection
  import opened TimestampedStore
  import opened IntervalJoin
  import opened IntervalJoinRun

  /** Every timely run over the keys gives the join. */
  ghost predicate Complete(cfg: Config, keys: set<Key>) {
    forall es: seq<Event<int>> :: Timely(0, es) && KeysIn(keys, es) ==>
          Outputs(cfg, EmptyState(), es) == IdealOutputs(cfg, [], [], es)
  }

  lemma IntervalFrom<V>(side: Side<V>, key: Key, start: int, end: int)
    ensures forall v :: v in GetInterval(side, key, start, end) ==>
              exists s :: s in Seen(side, key) && Seen(side, key)[s] == v
  {
    hide Seen;
    forall v | v in GetInterval(side, key, start, end)
      ensures exists s :: s in Seen(side, key) && Seen(side, key)[s] == v {
      CollectedFrom(Seen(side, key), Max(start, 0), end, v);
    }
  }

  lemma CollectedFrom<V>(values: map<Span, V>, from: int, upTo: int, v: V)
    requires v in Collected(values, from, upTo)
    ensures exists s :: s in values && values[s] == v
  {
    var keys := Sorted(set s | s in values && from <= s.start < upTo);
    var i :| 0 <= i < |keys| && Collected(values, from, upTo)[i] == v;
    assert keys[i] in keys;
  }

  lemma NotOverSelf(key: Key)
    ensures !Overlaps(key, key)
  {
  }

  lemma Unfold<V>(cfg: Config, st: State<V>, e: Event<V>, rest: seq<Event<V>>)
    ensures Outputs(cfg, st, [e] + rest) == [Step(cfg, st, e).1] + Outputs(cfg, Step(cfg, st, e).0, rest)
    ensures Outputs(cfg, st, []) == []
  {
    assert ([e] + rest)[1..] == rest;
  }

  lemma UnfoldIdeal<V>(cfg: Config, lefts: seq<Rec<V>>, rights: seq<Rec<V>>, e: Event<V>, rest: seq<Event<V>>)
    ensures IdealOutputs(cfg, lefts, rights, [e] + rest) ==
            [IdealStep(cfg, lefts, rights, e)] + IdealOutputs(cfg, NextLefts(lefts, e), NextRights(rights, e), rest)
    ensures IdealOutputs(cfg, lefts, rights, []) == []
  {
    hide IdealOutput;
    assert ([e] + rest)[1..] == rest;
  }

  lemma UnfoldTimely<V>(now: int, e: Event<V>, rest: seq<Event<V>>)
    ensures Timely(now, [e] + rest) <==> if e.Checkpoint? then Timely(now, rest)
            else now <= e.rec.ts && Timely(e.rec.ts, rest)
    ensures Timely<V>(now, [])
  {
    assert ([e] + rest)[1..] == rest;
  }

  // ----- A forward reach beyond the grace period -----

  /** Two left records a forward reach apart, a commit, and a right record at the second one's time. */
  function LateRun(cfg: Config, key: Key): seq<Event<int>> {
    [Left(Rec(key, 0, 1)), Left(Rec(key, cfg.forward, 2)), Checkpoint, Right(Rec(key, cfg.forward, 3))]
  }

  function LateSide(cfg: Config, key: Key): Side<int> {
    Commit(Put(Put(EmptySide(), cfg.grace, key, 0, 1), cfg.grace, key, cfg.forward, 2))
  }

  lemma LateForgets(cfg: Config, key: Key)
    requires cfg.forward > cfg.grace
    ensures forall s :: s in Seen(LateSide(cfg, key), key) ==> Seen(LateSide(cfg, key), key)[s] != 1
  {
    var s1 := Put(EmptySide(), cfg.grace, key, 0, 1);
    var s2 := Put(s1, cfg.grace, key, cfg.forward, 2);
    assert At(s2.cache, key) == map[Span(0, 0) := 1, Span(cfg.forward, 1) := 2];
    assert EligibleAt(s2, key) == cfg.forward - cfg.grace;
    hide Put;
    NotOverSelf(key);
    CommitSeen(s2, key);
    assert Seen(s2, key) == At(s2.cache, key);
  }

  lemma LateOutput(cfg: Config, key: Key)
    ensures |Outputs(cfg, EmptyState(), LateRun(cfg, key))| == 4
    ensures Outputs(cfg, EmptyState(), LateRun(cfg, key))[3]
            == Merged(cfg, false, 3, GetInterval(LateSide(cfg, key), key, 0, cfg.forward + 1))
  {
    hide Put, GetInterval, Commit, Merged, Outputs;
    var a, b, c, d := Left(Rec(key, 0, 1)), Left(Rec(key, cfg.forward, 2)), Checkpoint, Right(Rec(key, cfg.forward, 3));
    var st0: State<int> := EmptyState();
    var st1 := Step(cfg, st0, a).0;
    var st2 := Step(cfg, st1, b).0;
    var st3 := Step(cfg, st2, c).0;
    Unfold(cfg, st3, d, []);
    Unfold(cfg, Step(cfg, st3, d).0, d, []);
    Unfold(cfg, st2, c, [d] + []);
    Unfold(cfg, st1, b, [c] + ([d] + []));
    Unfold(cfg, st0, a, [b] + ([c] + ([d] + [])));
    assert LateRun(cfg, key) == [a] + ([b] + ([c] + ([d] + [])));
  }

  lemma LateIdeal(cfg: Config, key: Key)
    ensures |IdealOutputs(cfg, [], [], LateRun(cfg, key))| == 4
    ensures Joined(Some(1), Some(3)) in IdealOutputs(cfg, [], [], LateRun(cfg, key))[3]
  {
    hide IdealOutput, IdealOutputs;
    var a, b, d := Rec(key, 0, 1), Rec(key, cfg.forward as int, 2), Rec(key, cfg.forward as int, 3);
    UnfoldIdeal(cfg, [] + [a] + [b], [], Right(d), []);
    UnfoldIdeal(cfg, [] + [a] + [b], [] + [d], Right(d), []);
    UnfoldIdeal(cfg, [] + [a] + [b], [], Checkpoint, [Right(d)] + []);
    UnfoldIdeal(cfg, [] + [a], [], Left(b), [Checkpoint] + ([Right(d)] + []));
    UnfoldIdeal(cfg, [], [], Left(a), [Left(b)] + ([Checkpoint] + ([Right(d)] + [])));
    assert LateRun(cfg, key) == [Left(a)] + ([Left(b)] + ([Checkpoint] + ([Right(d)] + [])));
    FirstIsMet(cfg, d, [] + [a] + [b]);
  }

  /** A right record that meets the first left record is joined with it. */
  lemma FirstIsMet(cfg: Config, x: Rec<int>, lefts: seq<Rec<int>>)
    requires lefts != [] && lefts[0].key == x.key && lefts[0].value == 1 && x.value == 3
    requires x.ts - cfg.forward <= lefts[0].ts <= x.ts
    ensures Joined(Some(1), Some(3)) in IdealOutput(cfg, false, x, lefts)
  {
    hide Met;
    var met := Met(lefts, x.key, x.ts - cfg.forward, x.ts + 1);
    assert Meets(lefts, x.key, x.ts - cfg.forward, x.ts + 1, 0);
    assert 0 in met;
    var i :| 0 <= i < |met| && met[i] == 0;
    assert IdealOutput(cfg, false, x, lefts)[i] == Joined(Some(1), Some(3));
  }

  lemma MergedFrom(cfg: Config, met: seq<int>, v: int)
    requires Joined(Some(v), Some(3)) in Merged(cfg, false, 3, met)
    ensures v in met
  {
  }

  lemma LateLoses(cfg: Config, key: Key)
    requires cfg.forward > cfg.grace
    ensures Timely(0, LateRun(cfg, key)) && KeysIn({key}, LateRun(cfg, key))
    ensures Outputs(cfg, EmptyState(), LateRun(cfg, key)) != IdealOutputs(cfg, [], [], LateRun(cfg, key))
  {
    LateOutput(cfg, key);
    LateIdeal(cfg, key);
    LateForgets(cfg, key);
    LateTimely(cfg, key);
    hide Outputs, IdealOutputs, Merged, GetInterval, Seen, LateSide;
    IntervalFrom(LateSide(cfg, key), key, 0, cfg.forward + 1);
    if Outputs(cfg, EmptyState(), LateRun(cfg, key)) == IdealOutputs(cfg, [], [], LateRun(cfg, key)) {
      MergedFrom(cfg, GetInterval(LateSide(cfg, key), key, 0, cfg.forward + 1), 1);
      assert false;
    }
  }

  lemma LateTimely(cfg: Config, key: Key)
    ensures Timely(0, LateRun(cfg, key)) && KeysIn({key}, LateRun(cfg, key))
  {
    hide Timely;
    var a, b, c, d := Left(Rec(key, 0, 1)), Left(Rec(key, cfg.forward, 2)), Checkpoint, Right(Rec(key, cfg.forward, 3));
    UnfoldTimely(cfg.forward, d, []);
    UnfoldTimely(cfg.forward, c, [d] + []);
    UnfoldTimely(0, b, [c] + ([d] + []));
    UnfoldTimely(0, a, [b] + ([c] + ([d] + [])));
    assert LateRun(cfg, key) == [a] + ([b] + ([c] + ([d] + [])));
  }

  // ----- Two keys, one going on from the other -----

  /** A left record of the longer key is committed, then one of the shorter key, and the longer key's match comes. */
  function SweptRun(p: Key, q: Key): seq<Event<int>> {
    [Left(Rec(q, 0, 1)), Checkpoint, Left(Rec(p, 0, 2)), Checkpoint, Right(Rec(q, 0, 3))]
  }

  function SweptSide(cfg: Config, p: Key, q: Key): Side<int> {
    Commit(Put(Commit(Put(EmptySide(), cfg.grace, q, 0, 1)), cfg.grace, p, 0, 2))
  }

  lemma SweptForgets(cfg: Config, p: Key, q: Key)
    requires Overlaps(p, q)
    ensures Seen(SweptSide(cfg, p, q), q) == map[]
  {
    hide Overlaps;
    NotOverSelf(q);
    var s1 := Commit(Put(EmptySide(), cfg.grace, q, 0, 1));
    assert s1.cache == map[];
    var s2 := Put(s1, cfg.grace, p, 0, 2);
    assert p in s2.cache && At(s2.cache, q) == map[];
    assert Swept(s2, q);
    hide Put, Commit;
    CommitSeen(s2, q);
  }

  lemma SweptOutput(cfg: Config, p: Key, q: Key)
    ensures |Outputs(cfg, EmptyState(), SweptRun(p, q))| == 5
    ensures Outputs(cfg, EmptyState(), SweptRun(p, q))[4]
            == Merged(cfg, false, 3, GetInterval(SweptSide(cfg, p, q), q, 0 - cfg.forward, 1))
  {
    hide Put, GetInterval, Commit, Merged, Outputs;
    var a, b, c, x := Left(Rec(q, 0, 1)), Checkpoint, Left(Rec(p, 0, 2)), Right(Rec(q, 0, 3));
    var st0: State<int> := EmptyState();
    var st1 := Step(cfg, st0, a).0;
    var st2 := Step(cfg, st1, b).0;
    var st3 := Step(cfg, st2, c).0;
    var st4 := Step(cfg, st3, b).0;
    Unfold(cfg, st4, x, []);
    Unfold(cfg, Step(cfg, st4, x).0, x, []);
    Unfold(cfg, st3, b, [x] + []);
    Unfold(cfg, st2, c, [b] + ([x] + []));
    Unfold(cfg, st1, b, [c] + ([b] + ([x] + [])));
    Unfold(cfg, st0, a, [b] + ([c] + ([b] + ([x] + []))));
    assert SweptRun(p, q) == [a] + ([b] + ([c] + ([b] + ([x] + []))));
  }

  lemma SweptIdeal(cfg: Config, p: Key, q: Key)
    ensures |IdealOutputs(cfg, [], [], SweptRun(p, q))| == 5
    ensures Joined(Some(1), Some(3)) in IdealOutputs(cfg, [], [], SweptRun(p, q))[4]
  {
    hide IdealOutput, IdealOutputs;
    var a, c, x, b := Rec(q, 0, 1), Rec(p, 0, 2), Rec(q, 0, 3), Checkpoint;
    UnfoldIdeal(cfg, [] + [a] + [c], [], Right(x), []);
    UnfoldIdeal(cfg, [] + [a] + [c], [] + [x], Right(x), []);
    UnfoldIdeal(cfg, [] + [a] + [c], [], b, [Right(x)] + []);
    UnfoldIdeal(cfg, [] + [a], [], Left(c), [b] + ([Right(x)] + []));
    UnfoldIdeal(cfg, [] + [a], [], b, [Left(c)] + ([b] + ([Right(x)] + [])));
    UnfoldIdeal(cfg, [], [], Left(a), [b] + ([Left(c)] + ([b] + ([Right(x)] + []))));
    assert SweptRun(p, q) == [Left(a)] + ([b] + ([Left(c)] + ([b] + ([Right(x)] + []))));
    FirstIsMet(cfg, x, [] + [a] + [c]);
  }

  lemma SweptTimely(p: Key, q: Key)
    ensures Timely(0, SweptRun(p, q)) && KeysIn({p, q}, SweptRun(p, q))
  {
    hide Timely;
    var a, b, c, x := Left(Rec(q, 0, 1)), Checkpoint, Left(Rec(p, 0, 2)), Right(Rec(q, 0, 3));
    UnfoldTimely(0, x, []);
    UnfoldTimely(0, b, [x] + []);
    UnfoldTimely(0, c, [b] + ([x] + []));
    UnfoldTimely(0, b, [c] + ([b] + ([x] + [])));
    UnfoldTimely(0, a, [b] + ([c] + ([b] + ([x] + []))));
    assert SweptRun(p, q) == [a] + ([b] + ([c] + ([b] + ([x] + []))));
  }

  lemma SweptLoses(cfg: Config, p: Key, q: Key)
    requires Overlaps(p, q)
    ensures Timely(0, SweptRun(p, q)) && KeysIn({p, q}, SweptRun(p, q))
    ensures Outputs(cfg, EmptyState(), SweptRun(p, q)) != IdealOutputs(cfg, [], [], SweptRun(p, q))
  {
    SweptOutput(cfg, p, q);
    SweptIdeal(cfg, p, q);
    SweptForgets(cfg, p, q);
    SweptTimely(p, q);
    hide Outputs, IdealOutputs, Merged, GetInterval, Seen, SweptSide;
    IntervalFrom(SweptSide(cfg, p, q), q, 0 - cfg.forward, 1);
    if Outputs(cfg, EmptyState(), SweptRun(p, q)) == IdealOutputs(cfg, [], [], SweptRun(p, q)) {
      MergedFrom(cfg, GetInterval(SweptSide(cfg, p, q), q, 0 - cfg.forward, 1), 1);
      assert false;
    }
  }

  /**
   * A join the constructor accepts gives the relational join on every timely run over the keys
   * exactly when its forward reach, too, is within the grace period and no key is another one
   * continued with a byte below the separator. The per-key maps behind Outputs stand for scans of
   * the byte keys as ScanExact and SweepExact describe them, that is for keys without the separator.
   */
  lemma JoinCondition(how: How, grace: nat, backward: nat, forward: nat, cfg: Config, keys: set<Key>)
    requires Create(how, grace, backward, forward) == Some(cfg) && keys != {} && forall k :: k in keys ==> Plain(k)
    ensures Complete(cfg, keys) <==> forward <= grace && Disjoint(keys)
  {
    hide Overlaps, Outputs, IdealOutputs, LateRun, SweptRun, Timely;
    if forward <= grace && Disjoint(keys) {
      forall es: seq<Event<int>> | Timely(0, es) && KeysIn(keys, es)
        ensures Outputs(cfg, EmptyState(), es) == IdealOutputs(cfg, [], [], es)
      {
        JoinExact(keys, cfg, es);
      }
    } else if forward > grace {
      var key :| key in keys;
      LateLoses(cfg, key);
      KeysWiden({key}, keys, LateRun(cfg, key));
    } else {
      var p, q :| p in keys && q in keys && Overlaps(p, q);
      SweptLoses(cfg, p, q);
      KeysWiden({p, q}, keys, SweptRun(p, q));
    }
  }

  lemma KeysWiden<V>(fewer: set<Key>, keys: set<Key>, es: seq<Event<V>>)
    requires fewer <= keys && KeysIn(fewer, es)
    ensures KeysIn(keys, es)
  {
  }
}
