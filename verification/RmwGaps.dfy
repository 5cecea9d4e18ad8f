// Two short histories with an RMW in which the engine's graph goes wrong.  They
// show that the conditions of `RmwIndexIff` and `EdgeKeepsAcyclicIff` do fail.

module RmwGaps {
  import opened Options
  import opened Clocks
  import opened MoGraph
  import opened MoGraphLaws
  import opened GraphRuns
  import opened CycleGraph

  // A graph whose stores are all on different threads is chained.
  lemma OnePerThreadIsChained(g: Graph)
    requires forall u, v :: u in g && v in g && u.tid == v.tid ==> u == v
    ensures Chained(g)
  {
    forall u, v | u in g && v in g && u.tid == v.tid && u.num <= v.num ensures Reach(g, u, v) {
      ReachSelf(g, u);
    }
  }

  lemma NothingReachesInto(g: Graph, u: Stamp, v: Stamp)
    requires u !in g || v !in g
    ensures !Reach(g, u, v)
  {
    if Reach(g, u, v) {
      ReachIsInside(g, u, v);
    }
  }

  ghost predicate Sound(g: Graph) {
    Indexed(g) && RmwsImmediate(g) && Acyclic(g)
  }

  lemma NodeKeepsSound(g: Graph, s: Stamp)
    requires Sound(g) && s.num > 0
    ensures Sound(WithNode(g, s))
  {
    OneNodeKeepsIndex(g, s);
    forall a, b | Edge(WithNode(g, s), a, b) ensures !Reach(WithNode(g, s), b, a) {
      assert Edge(g, a, b);
      NodeKeepsReach(g, s, b, a);
    }
  }

  lemma EdgeKeepsSound(g: Graph, h: Graph, from: Stamp, to: Stamp)
    requires Sound(g) && from in g && to in g && EdgeAdded(g, h, from, to, false)
    requires !CheckReachable(g, from, to) && !Reach(g, to, ChainEnd(g, from, to))
    ensures Sound(h) && h.Keys == g.Keys
  {
    EdgeKeepsIndex(g, h, from, to, false);
    EdgeKeepsRmws(g, h, from, to, false);
    EdgeKeepsAcyclicIff(g, h, from, to, false);
  }

  lemma PairIsSound(a: Stamp, b: Stamp)
    requires a != b && a.num > 0 && b.num > 0
    ensures Sound(WithNode(map[], a))
    ensures Sound(map[a := Lone(a), b := Lone(b)]) && WithNode(WithNode(map[], a), b) == map[a := Lone(a), b := Lone(b)]
  {
    assert Sound(map[]);
    NodeKeepsSound(map[], a);
    NodeKeepsSound(WithNode(map[], a), b);
    assert WithNode(WithNode(map[], a), b) == map[a := Lone(a), b := Lone(b)];
  }

  lemma NothingBeyondLone(g: Graph, u: Stamp, v: Stamp)
    requires u in g && g[u].edges == [] && u != v
    ensures !Reach(g, u, v)
  {
    if Reach(g, u, v) {
      var w := FirstEdge(g, u, v);
    }
  }

  // ---- An RMW whose successor the index does not see ----

  lemma FirstLink(h: Graph, a: Stamp, b: Stamp)
    requires a.tid != b.tid && a.num > 0 && b.num > 0 && Effect(map[], Request.AddEdge(a, b, false), h)
    ensures Sound(h) && h.Keys == {a, b}
    ensures h[a].edges != [] && h[a].rmw.None? && Leq(h[a].clock, Stamped([], a))
  {
    var g := map[a := Lone(a), b := Lone(b)];
    PairIsSound(a, b);
    NothingBeyondLone(g, b, a);
    assert ChainEnd(g, a, b) == a;
    EdgeKeepsSound(g, h, a, b);
    FirstLinkSource(g, h, a, b);
  }

  lemma FirstLinkSource(g: Graph, h: Graph, a: Stamp, b: Stamp)
    requires a.tid != b.tid && a.num > 0 && b.num > 0 && g == map[a := Lone(a), b := Lone(b)] && Sound(g)
    requires EdgeAdded(g, h, a, b, false)
    ensures a in h && h[a].edges != [] && h[a].rmw.None? && Leq(h[a].clock, Stamped([], a))
  {
    NothingBeyondLone(g, b, a);
    AbsorbedShape(WithEdge(g, a, b), h, b, g[a].clock);
    forall t: nat ensures At(h[a].clock, t) <= At(Stamped([], a), t) {
      WithEdgeAbsorbedClocks(g, h, a, b, a, t);
    }
  }

  // Some store that `rmw` precedes is denied by the index.
  ghost predicate Unseen(g: Graph, rmw: Stamp) {
    exists next :: next in g && Reach(g, rmw, next) && !CheckReachable(g, rmw, next)
  }

  lemma RmwMayFollow(g: Graph, store: Stamp, other: Stamp, rmw: Stamp)
    requires g.Keys == {store, other} && store.tid == rmw.tid != other.tid && 0 < store.num < rmw.num
      && g[store].rmw.None?
    ensures Permitted(g, Request.AddRmwEdge(store, rmw)) && WithPair(g, store, rmw) == WithNode(g, rmw)
  {
    ReachSelf(g, store);
  }

  lemma NotRepaired(g: Graph, store: Stamp, rmw: Stamp)
    requires store in g && rmw !in g && store.tid == rmw.tid && store.num < rmw.num
    requires g[store].edges != [] && Leq(g[store].clock, Stamped([], store))
    ensures Leq(g[store].clock, Stamped([], rmw)) && !Repaired(g, Request.AddRmwEdge(store, rmw))
  {
    forall t: nat ensures At(g[store].clock, t) <= At(Stamped([], rmw), t) {
      assert At(g[store].clock, t) <= At(Stamped([], store), t);
    }
    assert WithPair(g, store, rmw)[rmw] == Lone(rmw);
  }

  lemma RunOfOne(r: Request, g: Graph)
    requires Permitted(map[], r) && Effect(map[], r, g)
    ensures Run([map[], g], [r])
  {
    RunStarts();
    RunGoesOn([map[]], [], r, g);
    assert [map[]] + [g] == [map[], g] && [] + [r] == [r];
  }

  // A store, then another thread's store ordered after it, then the first
  // thread's RMW reading its own store: the RMW precedes the other thread's store
  // and the index denies it.
  lemma GapLeft(g: Graph, h: Graph, store: Stamp, other: Stamp, rmw: Stamp)
    requires store.tid == rmw.tid != other.tid && 0 < store.num < rmw.num && other.num > 0
    requires Effect(map[], Request.AddEdge(store, other, false), g) && Effect(g, Request.AddRmwEdge(store, rmw), h)
    ensures Run([map[], g, h], GapRequests(store, other, rmw))
    ensures Acyclic(h) && Unseen(h, rmw)
  {
    FirstLink(g, store, other);
    GapRun(g, h, store, other, rmw);
    RmwMayFollow(g, store, other, rmw);
    NotRepaired(g, store, rmw);
    UnrepairedRun(g, h, store, rmw);
  }

  function GapRequests(store: Stamp, other: Stamp, rmw: Stamp): seq<Request> {
    [Request.AddEdge(store, other, false), Request.AddRmwEdge(store, rmw)]
  }

  lemma GapRun(g: Graph, h: Graph, store: Stamp, other: Stamp, rmw: Stamp)
    requires store.tid == rmw.tid != other.tid && 0 < store.num < rmw.num && other.num > 0
    requires g.Keys == {store, other} && g[store].rmw.None?
    requires Effect(map[], Request.AddEdge(store, other, false), g) && Effect(g, Request.AddRmwEdge(store, rmw), h)
    ensures Run([map[], g, h], GapRequests(store, other, rmw))
  {
    var r0, r1 := Request.AddEdge(store, other, false), Request.AddRmwEdge(store, rmw);
    RunOfOne(r0, g);
    RmwMayFollow(g, store, other, rmw);
    RunGoesOn([map[], g], [r0], r1, h);
    assert [map[], g] + [h] == [map[], g, h] && [r0] + [r1] == GapRequests(store, other, rmw);
  }

  lemma UnrepairedRun(g: Graph, h: Graph, store: Stamp, rmw: Stamp)
    requires Sound(g) && store in g && RmwSucceeds(g, store, rmw) && RmwLinked(WithNode(g, rmw), h, store, rmw)
    requires g[store].edges != [] && Leq(g[store].clock, Stamped([], rmw))
    ensures Acyclic(h) && Unseen(h, rmw)
  {
    NodeKeepsSound(g, rmw);
    RmwPrepared(g, h, store, rmw);
    var next := UnrepairedEdge(WithNode(g, rmw), h, store, rmw);
    RmwKeepsAcyclic(WithNode(g, rmw), h, store, rmw);
  }

  method UnseenSuccessor() returns (before: Graph, after: Graph, store: Stamp, other: Stamp, rmw: Stamp)
    ensures Run([map[], before, after], GapRequests(store, other, rmw))
    ensures Sound(before) && Acyclic(after) && Unseen(after, rmw)
  {
    store, other, rmw := Stamp(1, 1), Stamp(2, 2), Stamp(1, 3);
    var graph := TwoStores(store, other);
    before := graph.actionToNode;
    ReadOwn(graph, store, rmw);
    after := graph.actionToNode;
    GapLeft(before, after, store, other, rmw);
  }

  method ReadOwn(graph: CycleGraph, store: Stamp, rmw: Stamp)
    requires Sound(graph.actionToNode) && rmw !in graph.actionToNode && 0 < store.num < rmw.num
    modifies graph
    ensures Effect(old(graph.actionToNode), Request.AddRmwEdge(store, rmw), graph.actionToNode)
  {
    graph.AddRmwEdge(store, rmw);
  }

  method TwoStores(a: Stamp, b: Stamp) returns (graph: CycleGraph)
    requires a.tid != b.tid && a.num > 0 && b.num > 0
    ensures fresh(graph) && Effect(map[], Request.AddEdge(a, b, false), graph.actionToNode)
    ensures Sound(graph.actionToNode) && graph.actionToNode.Keys == {a, b}
  {
    graph := new CycleGraph();
    graph.AddEdge(a, b, false);
    FirstLink(graph.actionToNode, a, b);
  }

  // ---- An edge behind an RMW that closes a cycle ----

  lemma FirstRmw(h: Graph, from: Stamp, rmw: Stamp)
    requires from.tid != rmw.tid && 0 < from.num < rmw.num && Effect(map[], Request.AddRmwEdge(from, rmw), h)
    ensures Sound(h) && h.Keys == {from, rmw}
    ensures h[from].rmw == Some(rmw) && h[rmw].rmw.None? && h[rmw].edges == []
  {
    var g := map[from := Lone(from), rmw := Lone(rmw)];
    PairIsSound(from, rmw);
    FirstRmwAdded(g, h, from, rmw);
    FirstRmwSound(g, h, from, rmw);
  }

  lemma FirstRmwSound(g: Graph, h: Graph, from: Stamp, rmw: Stamp)
    requires from != rmw && from.num < rmw.num && g == map[from := Lone(from), rmw := Lone(rmw)]
    requires Sound(g) && from.tid != rmw.tid && RmwAdded(g, h, from, rmw)
    ensures Sound(h) && h.Keys == {from, rmw}
    ensures h[from].rmw == Some(rmw) && h[rmw].rmw.None? && h[rmw].edges == []
  {
    PairIsFresh(from, rmw);
    NewRmwSound(g, h, from, rmw);
    FirstRmwShape(g, h, from, rmw);
  }

  lemma PairIsFresh(from: Stamp, rmw: Stamp)
    requires from.tid != rmw.tid && 0 < rmw.num
    ensures FreshNode(map[from := Lone(from), rmw := Lone(rmw)], rmw)
  {
  }

  lemma FirstRmwShape(g: Graph, h: Graph, from: Stamp, rmw: Stamp)
    requires from != rmw && g == map[from := Lone(from), rmw := Lone(rmw)] && RmwPlaced(g, h, from, rmw)
    ensures h.Keys == {from, rmw} && h[from].rmw == Some(rmw) && h[rmw].rmw.None? && h[rmw].edges == []
  {
    var g1 := WithRmw(g, from, rmw);
    assert h[from].rmw == g1[from].rmw && h[rmw].rmw == g1[rmw].rmw && h[rmw].edges == g1[rmw].edges;
  }

  lemma NewRmwSound(g: Graph, h: Graph, from: Stamp, rmw: Stamp)
    requires Sound(g) && from in g && from.num < rmw.num && FreshNode(g, rmw) && RmwAdded(g, h, from, rmw)
    requires g[from].edges == []
    ensures Sound(h)
  {
    RmwIndexIff(g, h, from, rmw);
    RmwKeepsRmws(g, h, from, rmw);
    RmwKeepsAcyclic(g, h, from, rmw);
  }

  // Another thread's store is linked before the RMW.
  lemma RmwPreceded(g1: Graph, h: Graph, from: Stamp, rmw: Stamp, to: Stamp)
    requires Sound(g1) && g1.Keys == {from, rmw} && to.num > 0
    requires g1[from].rmw == Some(rmw) && g1[rmw].rmw.None? && g1[rmw].edges == []
    requires from.tid != rmw.tid && to.tid != from.tid && to.tid != rmw.tid
    requires Effect(g1, Request.AddEdge(to, rmw, false), h)
    ensures Sound(h) && h.Keys == {from, rmw, to} && ChainEnd(h, from, to) == rmw
  {
    NotYetLinked(g1, from, rmw, to);
    IsLinked(g1, h, to, rmw);
    PrecededSound(WithNode(g1, to), h, from, rmw, to);
  }

  lemma IsLinked(g1: Graph, h: Graph, to: Stamp, rmw: Stamp)
    requires Indexed(g1) && rmw in g1 && Effect(g1, Request.AddEdge(to, rmw, false), h)
    ensures RmwsFollow(WithNode(g1, to)) && EdgeAdded(WithNode(g1, to), h, to, rmw, false)
  {
    assert WithPair(g1, to, rmw) == WithNode(g1, to);
  }

  lemma OnlyRmwReached(g1: Graph, h: Graph, from: Stamp, rmw: Stamp, to: Stamp)
    requires Sound(g1) && g1.Keys == {from, rmw} && to.num > 0 && g1[rmw].edges == []
    requires from.tid != rmw.tid && to.tid != from.tid && to.tid != rmw.tid
    requires Effect(g1, Request.AddEdge(to, rmw, false), h)
    ensures Reach(h, to, rmw) && !Reach(h, to, from) && !Reach(h, from, to)
  {
    NotYetLinked(g1, from, rmw, to);
    ToAndFromApart(g1, h, from, rmw, to);
  }

  lemma PrecededSound(g: Graph, h: Graph, from: Stamp, rmw: Stamp, to: Stamp)
    requires Sound(g) && from in g && rmw in g && to in g && to != rmw
    requires g[from].rmw == Some(rmw) && g[rmw].rmw.None? && g[to].rmw.None?
    requires !CheckReachable(g, to, rmw) && !Reach(g, rmw, to) && EdgeAdded(g, h, to, rmw, false)
    ensures Sound(h) && h.Keys == g.Keys && ChainEnd(h, from, to) == rmw
  {
    ChainUnchanged(g, h, from, rmw, to);
    EdgeKeepsSound(g, h, to, rmw);
  }

  lemma NotYetLinked(g1: Graph, from: Stamp, rmw: Stamp, to: Stamp)
    requires Sound(g1) && g1.Keys == {from, rmw} && to.num > 0 && g1[rmw].edges == []
    requires from.tid != rmw.tid && to.tid != from.tid && to.tid != rmw.tid
    ensures Sound(WithNode(g1, to))
    ensures !CheckReachable(WithNode(g1, to), to, rmw) && !Reach(WithNode(g1, to), rmw, to)
  {
    var g := WithNode(g1, to);
    NodeKeepsSound(g1, to);
    OnePerThreadIsChained(g);
    NothingBeyondLone(g, to, rmw);
    NothingBeyondLone(g, rmw, to);
    IndexIsExact(g, to, rmw);
  }

  lemma ChainUnchanged(g: Graph, h: Graph, from: Stamp, rmw: Stamp, to: Stamp)
    requires Closed(g) && RmwsImmediate(g) && from in g && rmw in g && to in g && to != rmw
    requires g[from].rmw == Some(rmw) && g[rmw].rmw.None? && EdgeAdded(g, h, to, rmw, false)
    ensures RmwsFollow(h) && from in h && ChainEnd(h, from, to) == rmw
  {
    EdgeKeepsRmws(g, h, to, rmw, false);
    assert h[from].rmw == Some(rmw) && h[rmw].rmw == None;
  }

  // The requests of the history below.
  function CycleRequests(from: Stamp, to: Stamp, rmw: Stamp): seq<Request> {
    [Request.AddRmwEdge(from, rmw), Request.AddEdge(to, rmw, false), Request.AddEdge(from, to, false)]
  }

  lemma FirstRmwRun(g: Graph, from: Stamp, rmw: Stamp)
    requires from.tid != rmw.tid && 0 < from.num < rmw.num && Effect(map[], Request.AddRmwEdge(from, rmw), g)
    ensures Run([map[], g], [Request.AddRmwEdge(from, rmw)])
  {
    ReachSelf(WithNode(map[], from), from);
    RunOfOne(Request.AddRmwEdge(from, rmw), g);
  }

  lemma CycleRun(g1: Graph, before: Graph, after: Graph, from: Stamp, to: Stamp, rmw: Stamp)
    requires Run([map[], g1], [Request.AddRmwEdge(from, rmw)])
    requires to.tid != from.tid && to.tid != rmw.tid && from.num > 0 && to.num > 0 && rmw.num > 0
    requires g1.Keys == {from, rmw} && before.Keys == {from, rmw, to}
    requires Effect(g1, Request.AddEdge(to, rmw, false), before)
      && Effect(before, Request.AddEdge(from, to, false), after)
    ensures Run([map[], g1, before, after], CycleRequests(from, to, rmw))
  {
    var r0, r1, r2 := Request.AddRmwEdge(from, rmw), Request.AddEdge(to, rmw, false), Request.AddEdge(from, to, false);
    RunGoesOn([map[], g1], [r0], r1, before);
    assert [map[], g1] + [before] == [map[], g1, before] && [r0] + [r1] == [r0, r1];
    RunGoesOn([map[], g1, before], [r0, r1], r2, after);
    assert [map[], g1, before] + [after] == [map[], g1, before, after]
      && [r0, r1] + [r2] == CycleRequests(from, to, rmw);
  }

  // Thread 3's RMW reads thread 1's store; thread 2's store is ordered before
  // the RMW.  Reading thread 2's store after thread 1's then passes the guard,
  // since the index knows no path between the two, but the edge goes in behind
  // the RMW and closes a cycle.
  method CycleBehindRmw() returns (first: Graph, before: Graph, after: Graph, from: Stamp, to: Stamp, rmw: Stamp)
    ensures Run([map[], first, before, after], CycleRequests(from, to, rmw))
    ensures Sound(before) && !CheckReachable(before, to, from) && !Acyclic(after)
  {
    rmw, from, to := Stamp(3, 3), Stamp(1, 1), Stamp(2, 2);
    var graph := new CycleGraph();
    ReadOwn(graph, from, rmw);
    first := graph.actionToNode;
    FirstRmw(first, from, rmw);
    LinkStores(graph, to, rmw);
    before := graph.actionToNode;
    RmwPreceded(first, before, from, rmw, to);
    LinkStores(graph, from, to);
    after := graph.actionToNode;
    FirstRmwRun(first, from, rmw);
    CycleRun(first, before, after, from, to, rmw);
    CycleCloses(first, before, after, from, to, rmw);
  }

  method LinkStores(graph: CycleGraph, from: Stamp, to: Stamp)
    requires Sound(graph.actionToNode) && from.num > 0 && to.num > 0
    modifies graph
    ensures Effect(old(graph.actionToNode), Request.AddEdge(from, to, false), graph.actionToNode)
  {
    graph.AddEdge(from, to, false);
  }

  lemma CycleCloses(g1: Graph, before: Graph, after: Graph, from: Stamp, to: Stamp, rmw: Stamp)
    requires Sound(g1) && g1.Keys == {from, rmw} && to.num > 0 && g1[rmw].edges == []
    requires from.tid != rmw.tid && to.tid != from.tid && to.tid != rmw.tid
    requires Effect(g1, Request.AddEdge(to, rmw, false), before)
    requires Sound(before) && before.Keys == {from, rmw, to} && ChainEnd(before, from, to) == rmw
    requires Effect(before, Request.AddEdge(from, to, false), after)
    ensures !CheckReachable(before, to, from) && !Acyclic(after)
  {
    OnlyRmwReached(g1, before, from, rmw, to);
    NeitherIsFound(before, from, to, rmw);
    EdgeKeepsAcyclicIff(before, after, from, to, false);
  }

  lemma NeitherIsFound(g: Graph, a: Stamp, b: Stamp, c: Stamp)
    requires Sound(g) && !Reach(g, a, b) && !Reach(g, b, a)
    requires g.Keys == {a, b, c} && a.tid != b.tid && b.tid != c.tid && c.tid != a.tid
    ensures !CheckReachable(g, a, b) && !CheckReachable(g, b, a)
  {
    OnePerThreadIsChained(g);
    IndexIsExact(g, a, b);
    IndexIsExact(g, b, a);
  }

  lemma ToAndFromApart(g1: Graph, h: Graph, from: Stamp, rmw: Stamp, to: Stamp)
    requires Closed(g1) && Closed(WithNode(g1, to)) && from in g1 && rmw in g1 && to !in g1 && from != rmw
    requires g1[rmw].edges == []
    requires RmwsFollow(WithNode(g1, to)) && EdgeAdded(WithNode(g1, to), h, to, rmw, false)
    requires !CheckReachable(WithNode(g1, to), to, rmw)
    ensures Reach(h, to, rmw) && !Reach(h, to, from) && !Reach(h, from, to)
  {
    var g := WithNode(g1, to);
    NothingReachesInto(g1, from, to);
    NodeKeepsReach(g1, to, from, to);
    NothingBeyondLone(g, to, from);
    NothingBeyondLone(g, rmw, from);
    NothingBeyondLone(g, rmw, to);
    ReachSelf(g, to);
    ReachSelf(g, rmw);
    EdgeReach(g, h, to, rmw, false, to, rmw);
    EdgeReach(g, h, to, rmw, false, to, from);
    EdgeReach(g, h, to, rmw, false, from, to);
  }
}
