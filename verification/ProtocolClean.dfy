/** A stop between two commits leaves nothing to recover: every store stands at the end of its changelog. */
module ProtocolClean {
  import opened Protocol
  import opened ProtocolFold
  import opened ProtocolSafety

  /** The store's offset is at the end of its changelog. */
  predicate AtEnd<V>(s: System<V>, t: string)
    requires t in s.logs && t in s.offsets
  {
    !NeedsRecovery(|s.logs[t]|, s.offsets[t])
  }

  /** One of the keys belongs to the store. */
  ghost predicate Writes(keys: set<Key>, t: string) {
    exists k :: k in keys && k.store == t
  }

  /** A store falls behind its changelog only by what the commit under way has produced for it and not yet flushed. */
  ghost predicate CleanAt<V>(s: System<V>, t: string)
    requires t in s.logs && t in s.offsets
  {
    match s.app
    case Down => true
    case Recovering(_, _) => true
    case Processing(_, _, _) => AtEnd(s, t)
    case Producing(cache, _, _, remaining) => AtEnd(s, t) || Writes(cache.Keys - remaining, t)
    case Flushing(cache, _, pending) => AtEnd(s, t) || (t in pending && Writes(cache.Keys, t))
  }

  ghost predicate Clean<V>(s: System<V>)
    requires s.logs.Keys == s.offsets.Keys
  {
    forall t :: t in s.logs ==> CleanAt(s, t)
  }

  lemma CleanStep<X(!new), V(!new)>(p: Program<X, V>, s: System<V>, e: Event)
    requires Inv(p, s) && Wired(s, p.stores) && Clean(s)
    ensures Wired(Step(p, s, e), p.stores) && Clean(Step(p, s, e))
  {
    StepWired(p, s, e);
    match e {
      case Produce(k) => CleanProduce(p, s, k);
      case FlushStore(t) => CleanFlush(p, s, t);
      case Start => CleanStart(p, s);
      case _ => CleanRest(p, s, e);
    }
  }

  lemma CleanStart<X(!new), V(!new)>(p: Program<X, V>, s: System<V>)
    requires Inv(p, s) && Wired(s, p.stores) && Clean(s)
    ensures Wired(Step(p, s, Start), p.stores) && Clean(Step(p, s, Start))
  {
    hide Fold, Processed, WritesOf, LogOk, DiskOk, Committed, WellFormed, Position, Registered;
  }

  lemma CleanProduce<X, V>(p: Program<X, V>, s: System<V>, k: Key)
    requires Wired(s, p.stores) && Clean(s)
    ensures Wired(Step(p, s, Produce(k)), p.stores) && Clean(Step(p, s, Produce(k)))
  {
    hide NeedsRecovery;
    var s1 := Step(p, s, Produce(k));
    if s1 != s {
      forall t | t in s1.logs ensures CleanAt(s1, t) {
        if t == k.store {
          assert k in s1.app.cache.Keys - s1.app.remaining;
        } else if !AtEnd(s, t) {
          assert CleanAt(s, t);
          var w :| w in s.app.cache.Keys - s.app.remaining && w.store == t;
          assert w in s1.app.cache.Keys - s1.app.remaining;
        }
      }
    }
  }

  lemma CleanFlush<X, V>(p: Program<X, V>, s: System<V>, t: string)
    requires Wired(s, p.stores) && Clean(s)
    ensures Wired(Step(p, s, FlushStore(t)), p.stores) && Clean(Step(p, s, FlushStore(t)))
  {
    hide Overlay;
    if s.app.Flushing? && t in s.app.pending && t in s.logs {
      var s1 := Step(p, s, FlushStore(t));
      assert CleanAt(s, t);
      if Writes(s.app.cache.Keys, t) {
        var k :| k in s.app.cache && k.store == t;
        var own := map k | k in s.app.cache && k.store == t :: s.app.cache[k];
        assert k in own;
      }
      assert AtEnd(s1, t);
      forall u | u in s1.logs && u != t ensures CleanAt(s1, u) {
        assert CleanAt(s, u);
      }
    }
  }

  /** The other steps neither write a changelog nor flush a store of a commit. */
  lemma CleanRest<X, V>(p: Program<X, V>, s: System<V>, e: Event)
    requires Wired(s, p.stores) && Clean(s) && !e.Produce? && !e.FlushStore? && !e.Start?
    ensures Wired(Step(p, s, e), p.stores) && Clean(Step(p, s, e))
  {
    hide Processed, Overlay, Position, ShouldApply, NextOffsets, NeedsRecovery;
    StepWired(p, s, e);
    var s1 := Step(p, s, e);
    forall t | t in s1.logs ensures CleanAt(s1, t) {
      assert CleanAt(s, t);
    }
  }

  lemma {:induction false} RunClean<X(!new), V(!new)>(p: Program<X, V>, events: seq<Event>)
    requires WellFormed(p)
    ensures Inv(p, Run(p, events)) && Clean(Run(p, events))
  {
    RunOk(p, events);
    hide Inv, Step;
    if events != [] {
      var before := events[..|events| - 1];
      RunClean(p, before);
      InvWired(p, Run(p, before));
      CleanStep(p, Run(p, before), events[|events| - 1]);
    }
  }

  lemma InvWired<X(!new), V(!new)>(p: Program<X, V>, s: System<V>)
    requires Inv(p, s)
    ensures Wired(s, p.stores)
  {
  }

  /**
   * Between two commits every store stands at the end of its changelog, so an application that stops
   * there and is assigned its partitions again has nothing to replay and can start at once.
   */
  lemma StopsClean<X(!new), V(!new)>(p: Program<X, V>, events: seq<Event>)
    requires WellFormed(p) && Run(p, events).app.Processing?
    ensures forall t :: t in p.stores ==>
              var s := Run(p, events); t in s.logs && t in s.offsets && !NeedsRecovery(|s.logs[t]|, s.offsets[t])
    ensures var s := Run(p, events);
            Run(p, events + [Crash, Assign]) == s.(app := Recovering(map[], map[]))
  {
    RunClean(p, events);
    NoInvalidOffset(p, events);
    hide Inv, Step, InvalidOffset, Clean;
    var s := Run(p, events);
    var e1, e2 := events + [Crash], events + [Crash, Assign];
    assert e1[..|e1| - 1] == events && e2[..|e2| - 1] == e1;
    AssignsNothing(p, s);
  }

  lemma AssignsNothing<X, V>(p: Program<X, V>, s: System<V>)
    requires Wired(s, p.stores) && Clean(s) && s.app.Processing?
    requires forall t :: t in p.stores ==> !InvalidOffset(|s.logs[t]|, s.offsets[t])
    ensures forall t :: t in p.stores ==> AtEnd(s, t)
    ensures Step(p, Step(p, s, Crash), Assign) == s.(app := Recovering(map[], map[]))
  {
    assert forall t :: t in s.logs ==> CleanAt(s, t);
  }
}
