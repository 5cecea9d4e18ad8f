// The modification-order graph of one memory location, as a value: its nodes
// are stores, an edge says that one store precedes another in modification
// order, and each node carries the clock that answers reachability queries.

module MoGraph {
  import opened Options
  import opened Clocks

  datatype Node = Node(edges: seq<Stamp>, rmw: Option<Stamp>, clock: Clock)

  type Graph = map<Stamp, Node>

  predicate Edge(g: Graph, a: Stamp, b: Stamp) {
    a in g && b in g[a].edges
  }

  ghost predicate Closed(g: Graph) {
    forall a, b :: Edge(g, a, b) ==> b in g
  }

  // ---- Reachability ----

  ghost predicate Path(g: Graph, p: seq<Stamp>) {
    && |p| > 0
    && (forall i :: 0 <= i < |p| ==> p[i] in g)
    && (forall i :: 0 <= i < |p| - 1 ==> Link(g, p, i))
  }

  ghost predicate Link(g: Graph, p: seq<Stamp>, i: nat)
    requires i + 1 < |p|
  {
    Edge(g, p[i], p[i + 1])
  }

  ghost predicate PathFrom(g: Graph, p: seq<Stamp>, u: Stamp, v: Stamp) {
    Path(g, p) && p[0] == u && p[|p| - 1] == v
  }

  ghost predicate Reach(g: Graph, u: Stamp, v: Stamp) {
    exists p :: PathFrom(g, p, u, v)
  }

  // An edge closes a cycle when its target reaches its source.
  ghost predicate Acyclic(g: Graph) {
    forall a, b :: Edge(g, a, b) ==> !Reach(g, b, a)
  }

  lemma ReachSelf(g: Graph, u: Stamp)
    requires u in g
    ensures Reach(g, u, u)
  {
    assert PathFrom(g, [u], u, u);
  }

  lemma ReachEdge(g: Graph, u: Stamp, v: Stamp)
    requires Edge(g, u, v) && v in g
    ensures Reach(g, u, v)
  {
    assert PathFrom(g, [u, v], u, v);
  }

  lemma ReachTrans(g: Graph, u: Stamp, v: Stamp, w: Stamp)
    requires Reach(g, u, v) && Reach(g, v, w)
    ensures Reach(g, u, w)
  {
    var p :| PathFrom(g, p, u, v);
    var q :| PathFrom(g, q, v, w);
    var r := p + q[1..];
    forall i | 0 <= i < |r| - 1 ensures Link(g, r, i) {
      assert if i < |p| - 1 then Link(g, p, i) else Link(g, q, i + 1 - |p|);
    }
    assert PathFrom(g, r, u, w);
  }

  lemma ReachIsInside(g: Graph, u: Stamp, v: Stamp)
    requires Reach(g, u, v)
    ensures u in g && v in g
  {
    var p :| PathFrom(g, p, u, v);
    assert p[0] in g && p[|p| - 1] in g;
  }

  // Whatever holds of `u` and survives edges holds of all that `u` reaches.
  lemma ReachInduct(g: Graph, s: set<Stamp>, u: Stamp, v: Stamp)
    requires Reach(g, u, v) && u in s
    requires forall a, b :: Edge(g, a, b) && a in s ==> b in s
    ensures v in s
  {
    var p :| PathFrom(g, p, u, v);
    var i := 0;
    while i < |p| - 1
      invariant 0 <= i < |p| && p[i] in s
    {
      assert Link(g, p, i);
      i := i + 1;
    }
  }

  // A non-trivial path splits off its first edge.
  lemma FirstEdge(g: Graph, u: Stamp, v: Stamp) returns (w: Stamp)
    requires Reach(g, u, v) && u != v
    ensures Edge(g, u, w) && Reach(g, w, v)
  {
    var p :| PathFrom(g, p, u, v);
    w := p[1];
    assert Link(g, p, 0);
    forall i | 0 <= i < |p| - 2 ensures Link(g, p[1..], i) {
      assert Link(g, p, i + 1);
    }
    assert PathFrom(g, p[1..], w, v);
  }

  // Dropping edges or nodes never adds a path.
  ghost predicate Within(g: Graph, h: Graph) {
    forall a :: a in g ==> a in h && forall b :: b in g[a].edges ==> b in h[a].edges
  }

  lemma ReachWithin(g: Graph, h: Graph, u: Stamp, v: Stamp)
    requires Within(g, h) && Reach(g, u, v)
    ensures Reach(h, u, v)
  {
    var p :| PathFrom(g, p, u, v);
    forall i | 0 <= i < |p| - 1 ensures Link(h, p, i) {
      assert Link(g, p, i);
    }
    assert PathFrom(h, p, u, v);
  }

  // Antisymmetry, the form of acyclicity that callers use.
  lemma AcyclicAntisymmetric(g: Graph, u: Stamp, v: Stamp)
    requires Acyclic(g) && Reach(g, u, v) && Reach(g, v, u)
    ensures u == v
  {
    if u != v {
      var w := FirstEdge(g, u, v);
      ReachTrans(g, w, v, u);
      assert false;
    }
  }

  // ---- The clock index ----

  // `checkReachable`: one comparison in place of a search.
  predicate CheckReachable(g: Graph, u: Stamp, v: Stamp) {
    u in g && v in g && SynchronizedSince(g[v].clock, u)
  }

  // Clocks grow along edges.
  ghost predicate Ordered(g: Graph) {
    forall a, b :: Edge(g, a, b) && b in g ==> Leq(g[a].clock, g[b].clock)
  }

  // Every node knows itself, under a sequence number from the global counter.
  ghost predicate OwnClocks(g: Graph) {
    forall a {:trigger g[a].clock} :: a in g ==> 0 < a.num <= At(g[a].clock, a.tid)
  }

  // Every clock entry names a real ancestor.
  ghost predicate Attained(g: Graph) {
    forall a, t: nat {:trigger At(g[a].clock, t)} :: a in g && At(g[a].clock, t) > 0 ==>
      Reach(g, Stamp(t, At(g[a].clock, t)), a)
  }

  // Stores of one thread are chained in sequence order.
  ghost predicate Chained(g: Graph) {
    forall u, v :: u in g && v in g && u.tid == v.tid && u.num <= v.num ==> Reach(g, u, v)
  }

  // The clocks are right.  That alone does not make the index exact: stores of
  // one thread must be chained too, or an entry vouches for too many of them.
  ghost predicate Indexed(g: Graph) {
    Closed(g) && Ordered(g) && OwnClocks(g) && Attained(g)
  }

  // The index answers every question about two nodes rightly.
  ghost predicate Exact(g: Graph) {
    forall u, v :: u in g && v in g ==> (CheckReachable(g, u, v) <==> Reach(g, u, v))
  }

  lemma ClockGrowsAlongPath(g: Graph, u: Stamp, v: Stamp)
    requires Closed(g) && Ordered(g) && Reach(g, u, v)
    ensures u in g && v in g && Leq(g[u].clock, g[v].clock)
  {
    ReachIsInside(g, u, v);
    var s := set a | a in g && Leq(g[u].clock, g[a].clock);
    ReachInduct(g, s, u, v);
  }

  lemma ReachIsFound(g: Graph, u: Stamp, v: Stamp)
    requires Closed(g) && Ordered(g) && OwnClocks(g) && Reach(g, u, v)
    ensures CheckReachable(g, u, v)
  {
    ClockGrowsAlongPath(g, u, v);
    assert At(g[u].clock, u.tid) <= At(g[v].clock, u.tid);
  }

  // The index is exact: the clock comparison holds just when a path exists.
  lemma IndexIsExact(g: Graph, u: Stamp, v: Stamp)
    requires Indexed(g) && Chained(g) && u in g && v in g
    ensures CheckReachable(g, u, v) <==> Reach(g, u, v)
  {
    if CheckReachable(g, u, v) {
      FoundIsReach(g, u, v);
    }
    if Reach(g, u, v) {
      ReachIsFound(g, u, v);
    }
  }

  // The half used while `v` itself is not yet chained to its own thread.
  lemma FoundIsReach(g: Graph, u: Stamp, v: Stamp)
    requires Closed(g) && OwnClocks(g) && Attained(g) && CheckReachable(g, u, v)
    requires forall w :: w in g && w.tid == u.tid && u.num <= w.num && Reach(g, w, v) ==> Reach(g, u, w)
    ensures Reach(g, u, v)
  {
    var w := Stamp(u.tid, At(g[v].clock, u.tid));
    assert At(g[u].clock, u.tid) >= u.num > 0;
    assert Reach(g, w, v);
    var p :| PathFrom(g, p, w, v);
    assert p[0] in g;
    ReachTrans(g, u, w, v);
  }

  // ---- Adding an edge ----

  function WithEdge(g: Graph, e: Stamp, to: Stamp): Graph
    requires e in g
  {
    g[e := g[e].(edges := Including(g[e].edges, to))]
  }

  // `CycleNode::addEdge`: an edge is kept once.
  function Including(edges: seq<Stamp>, b: Stamp): seq<Stamp> {
    if b in edges then edges else edges + [b]
  }

  ghost predicate SameShape(g: Graph, h: Graph) {
    g.Keys == h.Keys && forall a :: a in g ==> g[a].edges == h[a].edges && g[a].rmw == h[a].rmw
  }

  // The clock of `to` has been carried to all that `to` reaches, and nothing
  // else has changed.
  ghost predicate Flooded(g: Graph, h: Graph, to: Stamp)
    requires to in g
  {
    && SameShape(g, h)
    && forall a, t: nat :: a in g ==> FloodedAt(g, h, to, a, t)
  }

  ghost predicate FloodedAt(g: Graph, h: Graph, to: Stamp, a: Stamp, t: nat)
    requires to in g && a in g && a in h
  {
    At(h[a].clock, t) == Max(At(g[a].clock, t), if Reach(g, to, a) then At(g[to].clock, t) else 0)
  }

  // `to` absorbs the clock `m`; if that taught it anything, the news spreads.
  ghost predicate Absorbed(g: Graph, h: Graph, to: Stamp, m: Clock)
    requires to in g
  {
    if Leq(m, g[to].clock) then
      SameShape(g, h) && forall a, t: nat :: a in g ==> At(h[a].clock, t) == At(g[a].clock, t)
    else
      Flooded(g[to := g[to].(clock := Join(g[to].clock, m))], h, to)
  }

  // RMWs come after what they read, so chains of RMWs end.
  ghost predicate RmwsFollow(g: Graph) {
    forall a {:trigger g[a].rmw} :: a in g && g[a].rmw.Some? ==> g[a].rmw.value in g && a.num < g[a].rmw.value.num
  }

  ghost function Later(g: Graph, n: nat): set<Stamp> {
    set s | s in g && s.num > n
  }

  // Walk the chain of RMWs from `from`, stopping short of `to`.
  ghost function ChainEnd(g: Graph, from: Stamp, to: Stamp): (e: Stamp)
    requires from in g && RmwsFollow(g)
    ensures e in g
    ensures g[e].rmw.None? || g[e].rmw.value == to
    decreases Later(g, from.num)
  {
    match g[from].rmw
    case None => from
    case Some(next) =>
      if next == to then from
      else
        assert from.num < next.num && next in Later(g, from.num) && next !in Later(g, next.num);
        assert Later(g, next.num) <= Later(g, from.num);
        ChainEnd(g, next, to)
  }

  // What adding an edge does to edges and marks, whatever happens to clocks.
  ghost predicate EdgeMade(g: Graph, h: Graph, from: Stamp, to: Stamp, force: bool)
    requires from in g && to in g && RmwsFollow(g)
  {
    if !force && CheckReachable(g, from, to) then h == g else SameShape(WithEdge(g, ChainEnd(g, from, to), to), h)
  }

  // And to clocks, where they were in order.
  ghost predicate EdgeAdded(g: Graph, h: Graph, from: Stamp, to: Stamp, force: bool)
    requires from in g && to in g && RmwsFollow(g)
  {
    && EdgeMade(g, h, from, to, force)
    && (force || !CheckReachable(g, from, to) ==>
         var e := ChainEnd(g, from, to);
         Absorbed(WithEdge(g, e, to), h, to, g[e].clock))
  }

  lemma ReachSameShape(g: Graph, h: Graph, u: Stamp, v: Stamp)
    requires SameShape(g, h)
    ensures Reach(g, u, v) <==> Reach(h, u, v)
  {
    if Reach(g, u, v) {
      ReachWithin(g, h, u, v);
    }
    if Reach(h, u, v) {
      ReachWithin(h, g, u, v);
    }
  }

  // What one more edge makes reachable.
  lemma ReachWithEdge(g: Graph, e: Stamp, to: Stamp, u: Stamp, v: Stamp)
    requires Closed(g) && e in g && to in g
    ensures Reach(WithEdge(g, e, to), u, v) <==> Reach(g, u, v) || (Reach(g, u, e) && Reach(g, to, v))
  {
    var h := WithEdge(g, e, to);
    if Reach(h, u, v) {
      var p :| PathFrom(h, p, u, v);
      ReachSelf(g, u);
      var s := set a | a in g && (Reach(g, u, a) || (Reach(g, u, e) && Reach(g, to, a)));
      forall a, b | Edge(h, a, b) && a in s ensures b in s {
        if Edge(g, a, b) {
          ReachEdge(g, a, b);
          if Reach(g, u, a) {
            ReachTrans(g, u, a, b);
          } else {
            ReachTrans(g, to, a, b);
          }
        } else {
          ReachSelf(g, to);
        }
      }
      ReachInduct(h, s, u, v);
    }
    if Reach(g, u, v) {
      ReachWithin(g, h, u, v);
    }
    if Reach(g, u, e) && Reach(g, to, v) {
      ReachWithin(g, h, u, e);
      ReachWithin(g, h, to, v);
      ReachEdge(h, e, to);
      ReachTrans(h, u, e, to);
      ReachTrans(h, u, to, v);
    }
  }

  // The clocks after absorbing, in closed form.
  lemma AbsorbedClocks(g: Graph, h: Graph, to: Stamp, m: Clock, a: Stamp, t: nat)
    requires to in g && a in g && Absorbed(g, h, to, m)
    requires Reach(g, to, a) ==> At(g[to].clock, t) <= At(g[a].clock, t)
    ensures SameShape(g, h)
    ensures At(h[a].clock, t) == Max(At(g[a].clock, t), if Reach(g, to, a) then At(m, t) else 0)
  {
    if Leq(m, g[to].clock) {
      assert At(m, t) <= At(g[to].clock, t);
    } else {
      var g1 := g[to := g[to].(clock := Join(g[to].clock, m))];
      assert SameShape(g, g1);
      ReachSameShape(g, g1, to, a);
      ReachSelf(g, to);
      assert At(g1[to].clock, t) == Max(At(g[to].clock, t), At(m, t));
      assert FloodedAt(g1, h, to, a, t);
    }
  }

  // ---- Adding nodes ----

  // A node that only knows itself.
  function Lone(s: Stamp): Node {
    Node([], None, Stamped([], s))
  }

  function WithNode(g: Graph, s: Stamp): Graph {
    if s in g then g else g[s := Lone(s)]
  }

  function WithNodes(g: Graph, s: set<Stamp>): Graph {
    map a | a in g.Keys + s :: if a in g then g[a] else Lone(a)
  }

  lemma WithNodesOneMore(g: Graph, s: set<Stamp>, a: Stamp)
    ensures WithNodes(g, s + {a}) == WithNode(WithNodes(g, s), a)
  {
  }
}
