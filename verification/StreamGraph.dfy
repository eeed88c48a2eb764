/** Graphs of stream operators (core/stream/stream.py, core/stream/functions). */
module StreamGraph {
  import opened Wrappers

  datatype Record<V> = Record(value: V, key: V, timestamp: int, headers: V)

  /** The operators, with or without metadata; an update is the value it leaves behind. */
  datatype Func<!V> =
    | Apply(apply: Record<V> -> V)
    | ApplyExpand(expand: Record<V> -> seq<V>)
    | Update(update: Record<V> -> V)
    | Filter(keep: Record<V> -> bool)
    | Transform(transform: Record<V> -> Record<V>)
    | TransformExpand(transformExpand: Record<V> -> seq<Record<V>>)
  {
    predicate Expands() { ApplyExpand? || TransformExpand? }
  }

  /**
   * What an operator passes on: only transforms touch metadata, only expanding ones pass on more
   * than one record, only filters drop.
   */
  function Emit<V>(f: Func<V>, r: Record<V>): (out: seq<Record<V>>)
    ensures !f.Transform? && !f.TransformExpand? ==>
              forall x :: x in out ==> x.key == r.key && x.timestamp == r.timestamp && x.headers == r.headers
    ensures !f.Expands() ==> |out| <= 1
    ensures !f.Expands() && !f.Filter? ==> |out| == 1
    ensures f.Filter? ==> (r in out <==> f.keep(r)) && forall x :: x in out ==> x == r
    ensures (f.Apply? ==> out[0].value == f.apply(r)) && (f.Update? ==> out[0].value == f.update(r))
    ensures (f.Transform? ==> out[0] == f.transform(r)) && (f.TransformExpand? ==> out == f.transformExpand(r))
    ensures f.ApplyExpand? ==> |out| == |f.expand(r)| && forall i :: 0 <= i < |out| ==> out[i].value == f.expand(r)[i]
  {
    match f
    case Apply(g) => [r.(value := g(r))]
    case ApplyExpand(g) => var items := g(r); seq(|items|, i requires 0 <= i < |items| => r.(value := items[i]))
    case Update(g) => [r.(value := g(r))]
    case Filter(p) => if p(r) then [r] else []
    case Transform(g) => [g(r)]
    case TransformExpand(g) => g(r)
  }

  class Stream<!V(!new)> {
    const func: Func<V>
    const parents: seq<Stream<V>>
    var children: seq<Stream<V>>
    /** One more than that of every parent: the graph can have no cycle. */
    ghost const rank: nat

    constructor (func: Func<V>, parents: seq<Stream<V>>, ghost rank: nat)
      ensures this.func == func && this.parents == parents && this.rank == rank && children == []
    {
      this.func, this.parents, this.rank, children := func, parents, rank, [];
    }

    /** Appends an operator. */
    method Add(f: Func<V>, ghost w: set<Stream<V>>) returns (s: Stream<V>)
      requires Closed(w) && this in w
      modifies this`children
      ensures fresh(s) && s.func == f && s.parents == [this] && s.children == []
      ensures children == old(children) + [s]
      ensures Closed(w + {s})
    {
      s := new Stream(f, [this], rank + 1);
      children := children + [s];
    }

    /** The stream, its parents, theirs, and so on, as often as there are ways up. */
    method RootPath(ghost w: set<Stream<V>>) returns (nodes: seq<Stream<V>>)
      requires Closed(w) && this in w
      ensures forall s :: s in nodes <==> Upstream(this, s)
    {
      nodes := [this];
      var queue := [this];
      UpstreamSelf(this);
      while queue != []
        invariant this in nodes && (forall s :: s in queue ==> s in w && s in nodes)
        invariant forall s :: s in nodes ==> s in w && Upstream(this, s)
        invariant forall s, p :: s in nodes && p in s.parents ==> s in queue || p in nodes
        decreases WeightAll(w, queue)
      {
        var node := queue[0];
        WeightFront(w, queue);
        assert node in queue;
        UpstreamStep(this, node);
        nodes := nodes + node.parents;
        queue := queue[1..] + node.parents;
      }
      forall s, k: nat | Above(this, s, k) ensures s in nodes {
        UpstreamLeast(this, (set x | x in nodes), s, k);
      }
    }

    /**
     * Joins two streams; one of them upstream of the other, or the same, is an error. What reaches
     * the result passes unchanged.
     */
    method Merge(other: Stream<V>, ghost w: set<Stream<V>>) returns (r: Option<Stream<V>>)
      requires Closed(w) && this in w && other in w
      modifies this`children, other`children
      ensures r.None? <==> Upstream(this, other) || Upstream(other, this)
      ensures r.None? ==> children == old(children) && other.children == old(other.children)
      ensures r.Some? ==>
                && fresh(r.value) && r.value.parents == [this, other] && r.value.children == []
                && children == old(children) + [r.value] && other.children == old(other.children) + [r.value]
                && Closed(w + {r.value}) && Passes(r.value.func)
    {
      UpstreamSelf(this);
      hide Upstream;
      if other == this {
        return None;
      }
      var mine := RootPath(w);
      var theirs := other.RootPath(w);
      if other in mine || this in theirs {
        return None;
      }
      var merged := new Stream(Apply((x: Record<V>) => x.value), [this, other], 1 +
                               if rank < other.rank then other.rank else rank);
      children := children + [merged];
      other.children := other.children + [merged];
      return Some(merged);
    }
  }

  /** The operator hands on each record as it is, and nothing else. */
  ghost predicate Passes<V(!new)>(f: Func<V>) {
    forall x: Record<V> :: Emit(f, x) == [x]
  }

  /** w holds the neighbours of its streams, who know each other, and parents come before children in rank. */
  ghost predicate Closed<V(!new)>(w: set<Stream<V>>)
    reads w
  {
    && (forall s, p :: s in w && p in s.parents ==> p in w && s in p.children && p.rank < s.rank)
    && (forall s, c :: s in w && c in s.children ==> c in w && s in c.parents)
  }

  /** x is k steps above s. */
  ghost predicate Above<V(!new)>(s: Stream<V>, x: Stream<V>, k: nat) {
    if k == 0 then x == s else exists i :: 0 <= i < |s.parents| && Above(s.parents[i], x, k - 1)
  }

  /** x is s or somewhere above it. */
  ghost predicate Upstream<V(!new)>(s: Stream<V>, x: Stream<V>) {
    exists k: nat :: Above(s, x, k)
  }

  lemma UpstreamSelf<V(!new)>(s: Stream<V>)
    ensures Upstream(s, s)
  {
    assert Above(s, s, 0);
  }

  lemma {:induction false} AboveStep<V(!new)>(s: Stream<V>, x: Stream<V>, k: nat, i: nat)
    requires Above(s, x, k) && i < |x.parents|
    ensures Above(s, x.parents[i], k + 1)
  {
    if k == 0 {
      assert Above(x.parents[i], x.parents[i], 0);
    } else {
      var j :| 0 <= j < |s.parents| && Above(s.parents[j], x, k - 1);
      AboveStep(s.parents[j], x, k - 1, i);
    }
  }

  /** Upstream takes in parents. */
  lemma UpstreamStep<V(!new)>(s: Stream<V>, x: Stream<V>)
    requires Upstream(s, x)
    ensures forall p :: p in x.parents ==> Upstream(s, p)
  {
    var k: nat :| Above(s, x, k);
    forall p | p in x.parents ensures Upstream(s, p) {
      var i :| 0 <= i < |x.parents| && x.parents[i] == p;
      AboveStep(s, x, k, i);
    }
  }

  /** Whatever holds the stream and takes in parents holds all that is upstream. */
  lemma {:induction false} UpstreamLeast<V(!new)>(s: Stream<V>, v: set<Stream<V>>, x: Stream<V>, k: nat)
    requires s in v && (forall y, p :: y in v && p in y.parents ==> p in v) && Above(s, x, k)
    ensures x in v
    decreases k
  {
    if k > 0 {
      var i :| 0 <= i < |s.parents| && Above(s.parents[i], x, k - 1);
      assert s.parents[i] in s.parents;
      UpstreamLeast(s.parents[i], v, x, k - 1);
    }
  }

  // ----- Why the walk up ends -----

  /** The number of ways up from a stream, itself included. */
  ghost function Weight<V(!new)>(w: set<Stream<V>>, s: Stream<V>): nat
    requires Closed(w) && s in w
    reads w
    decreases s.rank, |s.parents|
  {
    1 + WeightOf(w, s, |s.parents|)
  }

  ghost function WeightOf<V(!new)>(w: set<Stream<V>>, s: Stream<V>, n: nat): nat
    requires Closed(w) && s in w && n <= |s.parents|
    reads w
    decreases s.rank, n, 0
  {
    if n == 0 then 0 else WeightOf(w, s, n - 1) + Weight(w, s.parents[n - 1])
  }

  ghost function WeightAll<V(!new)>(w: set<Stream<V>>, q: seq<Stream<V>>): nat
    requires Closed(w) && forall s :: s in q ==> s in w
    reads w
  {
    if q == [] then 0 else WeightAll(w, q[..|q| - 1]) + Weight(w, q[|q| - 1])
  }

  lemma {:induction false} WeightAppend<V(!new)>(w: set<Stream<V>>, p: seq<Stream<V>>, q: seq<Stream<V>>)
    requires Closed(w) && (forall s :: s in p ==> s in w) && (forall s :: s in q ==> s in w)
    ensures WeightAll(w, p + q) == WeightAll(w, p) + WeightAll(w, q)
  {
    if q == [] {
      assert p + q == p;
    } else {
      WeightAppend(w, p, q[..|q| - 1]);
      assert (p + q)[..|p + q| - 1] == p + q[..|q| - 1];
    }
  }

  lemma {:induction false} WeightOfParents<V(!new)>(w: set<Stream<V>>, s: Stream<V>, n: nat)
    requires Closed(w) && s in w && n <= |s.parents|
    ensures (forall p :: p in s.parents ==> p in w) && WeightAll(w, s.parents[..n]) == WeightOf(w, s, n)
  {
    if n > 0 {
      WeightOfParents(w, s, n - 1);
      assert s.parents[..n][..n - 1] == s.parents[..n - 1];
    }
  }

  /** Putting a stream's parents in its place makes the queue lighter. */
  lemma WeightFront<V(!new)>(w: set<Stream<V>>, q: seq<Stream<V>>)
    requires Closed(w) && q != [] && forall s :: s in q ==> s in w
    ensures (forall p :: p in q[0].parents ==> p in w) && (forall s :: s in q[1..] ==> s in w)
    ensures WeightAll(w, q[1..] + q[0].parents) < WeightAll(w, q)
  {
    WeightAppend(w, [q[0]], q[1..]);
    assert [q[0]] + q[1..] == q;
    assert WeightAll(w, [q[0]]) == Weight(w, q[0]) by {
      assert [q[0]][..0] == [];
    }
    WeightOfParents(w, q[0], |q[0].parents|);
    assert q[0].parents[..|q[0].parents|] == q[0].parents;
    WeightAppend(w, q[1..], q[0].parents);
  }
}
