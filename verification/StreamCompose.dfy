/** From a graph of operators to executors (core/stream/stream.py). */
module StreamCompose {
  import opened Wrappers
  import opened StreamGraph

  // ----- The whole tree, parents first -----

  /** v takes in the neighbours of its streams. */
  ghost predicate TakesIn<V(!new)>(v: set<Stream<V>>)
    reads v
  {
    && (forall s, x :: s in v && x in s.parents ==> x in v)
    && forall s, x :: s in v && x in s.children ==> x in v
  }

  /** Every stream's parents stand before it, and none stands twice. */
  ghost predicate ParentsFirst<V(!new)>(order: seq<Stream<V>>) {
    && (forall i, p :: 0 <= i < |order| && p in order[i].parents ==> p in order[..i])
    && forall i, j :: 0 <= i < j < |order| ==> order[i] != order[j]
  }

  lemma LowestExists<V(!new)>(v: set<Stream<V>>)
    requires v != {}
    ensures exists s :: s in v && forall x :: x in v ==> s.rank <= x.rank
  {
    var s :| s in v;
    if v != {s} {
      LowestExists(v - {s});
      var t :| t in v - {s} && forall x :: x in v - {s} ==> t.rank <= x.rank;
      var low := if s.rank <= t.rank then s else t;
      forall x | x in v ensures low.rank <= x.rank {
        assert x == s || x in v - {s};
      }
    }
  }

  lemma ReadyExists<V(!new)>(w: set<Stream<V>>, left: set<Stream<V>>)
    requires Closed(w) && left <= w && left != {}
    ensures exists s :: s in left && forall p :: p in s.parents ==> p !in left
  {
    LowestExists(left);
    var s :| s in left && forall x :: x in left ==> s.rank <= x.rank;
    assert forall p :: p in s.parents ==> p !in left;
  }

  /** Some order with parents first: there always is one, the graph having no cycle. */
  method StaticOrder<V(!new)>(nodes: set<Stream<V>>, ghost w: set<Stream<V>>) returns (order: seq<Stream<V>>)
    requires Closed(w) && nodes <= w && TakesIn(nodes)
    ensures ParentsFirst(order) && forall s :: s in order <==> s in nodes
  {
    order := [];
    var left := nodes;
    while left != {}
      invariant left <= nodes && forall s :: s in order <==> s in nodes && s !in left
      invariant ParentsFirst(order)
      decreases |left|
    {
      ReadyExists(w, left);
      var s :| s in left && forall p :: p in s.parents ==> p !in left;
      OrderSnoc(order, s);
      order := order + [s];
      left := left - {s};
    }
  }

  lemma OrderSnoc<V(!new)>(order: seq<Stream<V>>, s: Stream<V>)
    requires ParentsFirst(order) && s !in order && forall p :: p in s.parents ==> p in order
    ensures ParentsFirst(order + [s])
  {
    var longer := order + [s];
    forall i, p | 0 <= i < |longer| && p in longer[i].parents ensures p in longer[..i] {
      if i < |order| {
        assert longer[..i] == order[..i];
      } else {
        assert longer[..i] == order;
      }
    }
  }

  /** Everything related to a stream: what every set that holds it and takes in neighbours must hold. */
  ghost function Tree<V(!new)>(w: set<Stream<V>>, self: Stream<V>): set<Stream<V>>
    reads w
  {
    set s | s in w && forall v :: v <= w && self in v && TakesIn(v) ==> s in v
  }

  /** A set that holds the stream, takes in neighbours and is no larger than it must be is the tree. */
  lemma TreeIs<V(!new)>(w: set<Stream<V>>, self: Stream<V>, visited: set<Stream<V>>)
    requires visited <= w && self in visited && TakesIn(visited)
    requires forall v :: v <= w && self in v && TakesIn(v) ==> visited <= v
    ensures Tree(w, self) == visited
  {
    hide TakesIn;
  }

  lemma TreeInside<V(!new)>(w: set<Stream<V>>, self: Stream<V>)
    ensures Tree(w, self) <= w
  {
  }

  /** Lists the tree, parents first. */
  method FullTree<V(!new)>(self: Stream<V>, ghost w: set<Stream<V>>) returns (order: seq<Stream<V>>)
    requires Closed(w) && self in w
    ensures self in Tree(w, self) && TakesIn(Tree(w, self))
    ensures ParentsFirst(order) && forall s :: s in order <==> s in Tree(w, self)
  {
    var visited: set<Stream<V>> := {};
    var toTraverse := [self];
    while toTraverse != []
      invariant visited <= w && forall s :: s in toTraverse ==> s in w
      invariant self in visited || self in toTraverse
      invariant forall s, x :: s in visited && (x in s.parents || x in s.children) ==> x in visited || x in toTraverse
      invariant forall v :: v <= w && self in v && TakesIn(v) ==> visited <= v && forall s :: s in toTraverse ==> s in v
      decreases w - visited, |toTraverse|
    {
      var node := toTraverse[0];
      assert node in toTraverse;
      assert toTraverse == [node] + toTraverse[1..];
      if node in visited {
        toTraverse := toTraverse[1..];
      } else {
        visited := visited + {node};
        toTraverse := toTraverse[1..] + node.parents + node.children;
      }
    }
    TreeIs(w, self, visited);
    order := StaticOrder(visited, w);
  }

  // ----- The meaning of a graph -----

  /** All ranks of w lie below the bound: it tells how far down a stream can lead. */
  ghost predicate Bounded<V(!new)>(w: set<Stream<V>>, bound: nat) {
    forall s :: s in w ==> s.rank < bound
  }

  /** What reaches the sink when a record enters a stream, told directly: emit, pass each on to every child in turn. */
  ghost function Interpret<V(!new)>(w: set<Stream<V>>, bound: nat, s: Stream<V>, r: Record<V>): seq<Record<V>>
    requires Closed(w) && Bounded(w, bound) && s in w
    reads w
    decreases bound - s.rank, 2, 0
  {
    InterpretAll(w, bound, s, Emit(s.func, r))
  }

  ghost function InterpretAll<V(!new)>(w: set<Stream<V>>, bound: nat, s: Stream<V>, rs: seq<Record<V>>): seq<Record<V>>
    requires Closed(w) && Bounded(w, bound) && s in w
    reads w
    decreases bound - s.rank, 1, |rs|
  {
    if rs == [] then []
    else
      (if s.children == [] then [rs[0]] else InterpretChildren(w, bound, s, 0, rs[0]))
      + InterpretAll(w, bound, s, rs[1..])
  }

  ghost function InterpretChildren<V(!new)>(w: set<Stream<V>>, bound: nat, s: Stream<V>, i: nat,
                                            r: Record<V>): seq<Record<V>>
    requires Closed(w) && Bounded(w, bound) && s in w && i <= |s.children|
    reads w
    decreases bound - s.rank, 0, |s.children| - i
  {
    if i == |s.children| then []
    else Interpret(w, bound, s.children[i], r) + InterpretChildren(w, bound, s, i + 1, r)
  }

  // ----- What a merge does to the meaning -----

  /** Nothing is lost or changed in a merged stream: a record goes to its children, or to the sink if there are none. */
  lemma MergedPasses<V(!new)>(w: set<Stream<V>>, bound: nat, s: Stream<V>, r: Record<V>)
    requires Closed(w) && Bounded(w, bound) && s in w && Passes(s.func)
    ensures Interpret(w, bound, s, r) == if s.children == [] then [r] else InterpretChildren(w, bound, s, 0, r)
  {
    hide Emit, InterpretChildren;
    assert Emit(s.func, r) == [r];
    assert [r][1..] == [];
    assert InterpretAll(w, bound, s, [r][1..]) == [];
  }

  /** Whatever a parent emits reaches the sink through the merged stream, after what its other children make of it. */
  lemma {:induction false} ParentReaches<V(!new)>(w: set<Stream<V>>, bound: nat, s: Stream<V>, i: nat, r: Record<V>)
    requires Closed(w) && Bounded(w, bound) && s in w && i < |s.children|
    requires var m := s.children[|s.children| - 1]; Passes(m.func) && m.children == []
    ensures var out := InterpretChildren(w, bound, s, i, r);
            && out != [] && out[|out| - 1] == r
            && (i == |s.children| - 1 ==> out == [r])
    decreases |s.children| - i
  {
    hide Interpret, Passes;
    assert s.children[i] in s.children;
    if i == |s.children| - 1 {
      MergedPasses(w, bound, s.children[i], r);
      assert InterpretChildren(w, bound, s, i + 1, r) == [];
    } else {
      ParentReaches(w, bound, s, i + 1, r);
    }
  }

  /** A stream whose only child is the merge of it and others sends the sink what it sent before: all it emits. */
  lemma {:induction false} OnlyMerged<V(!new)>(w: set<Stream<V>>, bound: nat, s: Stream<V>, rs: seq<Record<V>>)
    requires Closed(w) && Bounded(w, bound) && s in w && |s.children| == 1
    requires Passes(s.children[0].func) && s.children[0].children == []
    ensures InterpretAll(w, bound, s, rs) == rs
  {
    hide InterpretChildren, Passes;
    if rs != [] {
      ParentReaches(w, bound, s, 0, rs[0]);
      OnlyMerged(w, bound, s, rs[1..]);
    }
  }

  // ----- Executors -----

  /** A closure run for the records it sends to the sink. */
  type Executor<!V> = Record<V> -> seq<Record<V>>

  /** A record to all child executors, one after the other. */
  function RunBranches<V>(children: seq<Executor<V>>, r: Record<V>): seq<Record<V>> {
    if children == [] then [] else children[0](r) + RunBranches(children[1..], r)
  }

  function RunAll<V>(children: seq<Executor<V>>, rs: seq<Record<V>>): seq<Record<V>> {
    if rs == [] then [] else RunBranches(children, rs[0]) + RunAll(children, rs[1..])
  }

  /** get_executor */
  function GetExecutor<V>(f: Func<V>, children: seq<Executor<V>>): Executor<V> {
    (r: Record<V>) => RunAll(children, Emit(f, r))
  }

  /** The sink's own executor: it takes the record. */
  function SinkExecutor<V>(): Executor<V> { (r: Record<V>) => [r] }

  datatype Allowed = Allowed(filters: bool, expands: bool, updates: bool, transforms: bool) {
    predicate Admits<V>(f: Func<V>) {
      && (f.Update? ==> updates)
      && (f.Filter? ==> filters)
      && (f.Transform? || f.TransformExpand? ==> transforms)
      && (f.Expands() ==> expands)
    }
  }

  /** An operator of a kind that is not allowed: a filter, an update, one that transforms, or one that expands. */
  ghost predicate Forbidden<V>(allowed: Allowed, f: Func<V>) {
    || (!allowed.filters && f.Filter?)
    || (!allowed.updates && f.Update?)
    || (!allowed.transforms && (f.Transform? || f.TransformExpand?))
    || (!allowed.expands && (f.ApplyExpand? || f.TransformExpand?))
  }

  /** The executors built so far do what their streams mean. */
  ghost predicate Faithful<V(!new)>(w: set<Stream<V>>, bound: nat, executors: map<Stream<V>, Executor<V>>)
    requires Closed(w) && Bounded(w, bound)
    reads w
  {
    forall s, r :: s in executors && s in w ==> executors[s](r) == Interpret(w, bound, s, r)
  }

  lemma {:induction false} BranchesOk<V(!new)>(w: set<Stream<V>>, bound: nat, s: Stream<V>, i: nat, r: Record<V>,
                                               executors: map<Stream<V>, Executor<V>>, children: seq<Executor<V>>)
    requires Closed(w) && Bounded(w, bound) && s in w && i <= |s.children| && Faithful(w, bound, executors)
    requires |children| == |s.children|
             && forall k :: 0 <= k < |children| ==>
                  s.children[k] in executors && children[k] == executors[s.children[k]]
    ensures RunBranches(children[i..], r) == InterpretChildren(w, bound, s, i, r)
    decreases |s.children| - i
  {
    hide Interpret;
    if i < |s.children| {
      assert s.children[i] in s.children;
      BranchesOk(w, bound, s, i + 1, r, executors, children);
      assert children[i..][1..] == children[i + 1..];
    }
  }

  lemma {:induction false} AllOk<V(!new)>(w: set<Stream<V>>, bound: nat, s: Stream<V>, rs: seq<Record<V>>,
                                          executors: map<Stream<V>, Executor<V>>, children: seq<Executor<V>>)
    requires Closed(w) && Bounded(w, bound) && s in w && Faithful(w, bound, executors)
    requires if s.children == [] then children == [SinkExecutor()]
             else
               && |children| == |s.children|
               && forall k :: 0 <= k < |children| ==>
                    s.children[k] in executors && children[k] == executors[s.children[k]]
    ensures RunAll(children, rs) == InterpretAll(w, bound, s, rs)
  {
    hide Interpret, InterpretChildren, Faithful;
    if rs != [] {
      AllOk(w, bound, s, rs[1..], executors, children);
      if s.children != [] {
        BranchesOk(w, bound, s, 0, rs[0], executors, children);
        assert children[0..] == children;
      } else {
        SinkTakes(rs[0]);
      }
    }
  }

  lemma SinkTakes<V>(r: Record<V>)
    ensures RunBranches([SinkExecutor()], r) == [r]
  {
    var only: seq<Executor<V>> := [SinkExecutor()];
    assert only[1..] == [];
    assert RunBranches(only[1..], r) == [];
  }

  /** Wrapping a stream's operator around its children's executors gives the stream's meaning. */
  lemma ExecutorOk<V(!new)>(w: set<Stream<V>>, bound: nat, s: Stream<V>, executors: map<Stream<V>, Executor<V>>,
                            children: seq<Executor<V>>)
    requires Closed(w) && Bounded(w, bound) && s in w && Faithful(w, bound, executors)
    requires if s.children == [] then children == [SinkExecutor()]
             else
               && |children| == |s.children|
               && forall k :: 0 <= k < |children| ==>
                    s.children[k] in executors && children[k] == executors[s.children[k]]
    ensures Faithful(w, bound, executors[s := GetExecutor(s.func, children)])
  {
    forall r ensures GetExecutor(s.func, children)(r) == Interpret(w, bound, s, r) {
      AllOk(w, bound, s, Emit(s.func, r), executors, children);
    }
  }

  /** In an order with parents first, children stand after their parents. */
  lemma ChildrenAfter<V(!new)>(w: set<Stream<V>>, tree: set<Stream<V>>, order: seq<Stream<V>>, i: nat, c: Stream<V>)
    requires Closed(w) && tree <= w && TakesIn(tree) && ParentsFirst(order) && forall s :: s in order <==> s in tree
    requires i < |order| && c in order[i].children
    ensures c in order[i + 1..]
  {
    assert order[i] in order && c in tree && order[i] in c.parents;
    var k :| 0 <= k < |order| && order[k] == c;
    assert order[i] in order[..k];
    var j :| 0 <= j < k && order[j] == order[i];
    assert i == j;
    assert order[i + 1..][k - i - 1] == c;
  }

  /**
   * Composition: an error exactly when the tree holds an operator that is not allowed; otherwise
   * an executor for every root of the tree, which sends the sink what the graph means.
   */
  method Compose<V(!new)>(self: Stream<V>, allowed: Allowed, ghost w: set<Stream<V>>, ghost bound: nat)
    returns (r: Option<map<Stream<V>, Executor<V>>>)
    requires Closed(w) && self in w && Bounded(w, bound)
    ensures self in Tree(w, self) && TakesIn(Tree(w, self))
    ensures r.None? <==> exists s :: s in Tree(w, self) && Forbidden(allowed, s.func)
    ensures r.Some? ==>
              Faithful(w, bound, r.value) && forall s :: s in r.value <==> s in Tree(w, self) && s.parents == []
  {
    hide Tree;
    var order := FullTree(self, w);
    TreeInside(w, self);
    ghost var tree := Tree(w, self);
    var executors: map<Stream<V>, Executor<V>> := map[];
    var i := |order|;
    while i > 0
      invariant 0 <= i <= |order| && Faithful(w, bound, executors)
      invariant forall s :: s in executors <==> s in order[i..]
      invariant forall s :: s in order[i..] ==> allowed.Admits(s.func)
    {
      i := i - 1;
      var stream := order[i];
      assert stream in order && order[i..] == [stream] + order[i + 1..];
      if !allowed.Admits(stream.func) {
        return None;
      }
      forall c | c in stream.children ensures c in executors {
        ChildrenAfter(w, tree, order, i, c);
      }
      var children := if stream.children == [] then [SinkExecutor()] else ExecutorsOf(executors, stream.children);
      ExecutorOk(w, bound, stream, executors, children);
      executors := executors[stream := GetExecutor(stream.func, children)];
    }
    assert order[0..] == order;
    return Some(map s | s in executors && s.parents == [] :: executors[s]);
  }

  function ExecutorsOf<V(!new)>(executors: map<Stream<V>, Executor<V>>, children: seq<Stream<V>>): seq<Executor<V>>
    requires forall c :: c in children ==> c in executors
  {
    seq(|children|, k requires 0 <= k < |children| => assert children[k] in children; executors[children[k]])
  }

  /** Composition for a single root: more than one is an error. */
  method ComposeSingle<V(!new)>(self: Stream<V>, allowed: Allowed, ghost w: set<Stream<V>>, ghost bound: nat)
    returns (r: Option<Executor<V>>)
    requires Closed(w) && self in w && Bounded(w, bound)
    ensures r.Some? ==>
              exists root :: root in Tree(w, self) && root.parents == []
                  && forall x :: r.value(x) == Interpret(w, bound, root, x)
    ensures r.None? <==> (exists s :: s in Tree(w, self) && Forbidden(allowed, s.func))
                         || exists s, t ::
                              s in Tree(w, self) && t in Tree(w, self) && s != t && s.parents == [] && t.parents == []
  {
    hide Tree;
    var composed := Compose(self, allowed, w, bound);
    if composed.None? {
      return None;
    }
    TreeInside(w, self);
    RootExists(w, Tree(w, self));
    var root :| root in composed.value;
    if |composed.value| > 1 {
      TwoKeys(composed.value, root);
      return None;
    }
    OneKey(composed.value, root);
    return Some(composed.value[root]);
  }

  lemma RootExists<V(!new)>(w: set<Stream<V>>, tree: set<Stream<V>>)
    requires Closed(w) && tree <= w && TakesIn(tree) && tree != {}
    ensures exists s :: s in tree && s.parents == []
  {
    ReadyExists(w, tree);
    var s :| s in tree && forall p :: p in s.parents ==> p !in tree;
    assert forall p :: p in s.parents ==> p in tree;
    HasFirst(s.parents);
  }

  lemma TwoKeys<K, T>(m: map<K, T>, k: K)
    requires k in m && |m| > 1
    ensures exists other :: other in m && other != k
  {
    var rest := m.Keys - {k};
    assert |rest| == |m.Keys| - 1;
    var other :| other in rest;
  }

  lemma OneKey<K, T>(m: map<K, T>, k: K)
    requires k in m && |m| <= 1
    ensures forall other :: other in m ==> other == k
  {
    var rest := m.Keys - {k};
    assert |rest| == |m.Keys| - 1;
    assert rest == {};
    assert forall other :: other in m ==> other == k || other in rest;
  }
}
