// Whole runs of requests to the modification-order graph, RMWs included: after
// any of them the index is exact, exactly when no RMW left moved edges unrepaired.

module GraphRuns {
  import opened Options
  import opened Clocks
  import opened MoGraph
  import opened MoGraphLaws
  import opened EdgeSets

  datatype Request =
    | AddEdge(from: Stamp, to: Stamp, force: bool)
    | AddEdges(edgeset: seq<Stamp>, to: Stamp)
    | AddRmwEdge(from: Stamp, rmw: Stamp)

  // The graph with the nodes of a request's first two stores.
  function WithPair(g: Graph, a: Stamp, b: Stamp): (h: Graph)
    ensures a in h && b in h
  {
    WithNode(WithNode(g, a), b)
  }

  // What the methods of `CycleGraph` do to edges and marks.
  ghost predicate Made(g: Graph, r: Request, h: Graph) {
    match r
    case AddEdge(from, to, force) =>
      var g1 := WithPair(g, from, to);
      RmwsFollow(g1) && EdgeMade(g1, h, from, to, force)
    case AddEdges(edgeset, to) => exists kept :: LinkedMade(g, edgeset, kept, to, h)
    case AddRmwEdge(from, rmw) => RmwMade(WithPair(g, from, rmw), h, from, rmw)
  }

  // And to clocks, where these were right.
  ghost predicate Clocked(g: Graph, r: Request, h: Graph) {
    match r
    case AddEdge(from, to, force) =>
      var g1 := WithPair(g, from, to);
      RmwsFollow(g1) && EdgeAdded(g1, h, from, to, force)
    case AddEdges(edgeset, to) => exists kept :: Linked(g, edgeset, kept, to, h)
    case AddRmwEdge(from, rmw) => RmwLinked(WithPair(g, from, rmw), h, from, rmw)
  }

  // The clocks are right, and so are the answers by which a request is pruned.
  ghost predicate Trusted(g: Graph, r: Request) {
    Indexed(g) && (r.AddEdges? ==> RmwsImmediate(g) && SoundOn(WithNodes(g, Members(r.edgeset)), r.edgeset))
  }

  // All that the methods promise, of any graph.
  ghost predicate Effect(g: Graph, r: Request, h: Graph) {
    Made(g, r, h) && (Trusted(g, r) ==> Clocked(g, r, h))
  }

  // ---- Stores of one thread come in sequence order ----

  // A store that is in the graph, or the first of its thread to come there.
  ghost predicate Enters(g: Graph, s: Stamp) {
    s.num > 0 && (s in g || forall u :: u in g ==> u.tid != s.tid)
  }

  ghost predicate AllEnter(g: Graph, es: seq<Stamp>) {
    forall e {:trigger e.num} :: e in es ==>
      e.num > 0 && (e in g || forall u :: u in g || u in es ==> u.tid != e.tid || u == e)
  }

  // A later store of its thread comes with predecessors that cover the earlier.
  ghost predicate Succeeds(g: Graph, es: seq<Stamp>, s: Stamp) {
    s.num > 0 && (s in g || forall u {:trigger CoveredBy(g, u, es)} :: u in g && u.tid == s.tid ==>
      u.num < s.num && CoveredBy(g, u, es))
  }

  // `build_may_read_from` offers an RMW only stores that none has read so far.
  predicate Unread(g: Graph, s: Stamp) {
    s !in g || g[s].rmw.None?
  }

  // Likewise an RMW, by what it reads.
  ghost predicate RmwSucceeds(g: Graph, from: Stamp, rmw: Stamp)
    requires from in g
  {
    && 0 < from.num < rmw.num && rmw !in g && Unread(g, from)
    && forall u :: u in g && u.tid == rmw.tid ==> u.num < rmw.num && Reach(g, u, from)
  }

  ghost predicate Permitted(g: Graph, r: Request) {
    match r
    case AddEdge(from, to, _) => Enters(g, from) && Enters(WithNode(g, from), to)
    case AddEdges(edgeset, to) => AllEnter(g, edgeset) && Succeeds(WithNodes(g, Members(edgeset)), edgeset, to)
    case AddRmwEdge(from, rmw) => Enters(g, from) && RmwSucceeds(WithNode(g, from), from, rmw)
  }

  // An RMW's merge teaches it something, or there are no edges to move.
  ghost predicate Repaired(g: Graph, r: Request) {
    r.AddRmwEdge? ==>
      var g1 := WithPair(g, r.from, r.rmw);
      !Leq(g1[r.from].clock, g1[r.rmw].clock) || g1[r.from].edges == []
  }

  // ---- The invariant ----

  ghost predicate Tracked(g: Graph) {
    Indexed(g) && RmwsImmediate(g) && Chained(g)
  }

  lemma TrackedIsExact(g: Graph)
    requires Tracked(g)
    ensures Exact(g)
  {
    forall u, v | u in g && v in g ensures CheckReachable(g, u, v) <==> Reach(g, u, v) {
      IndexIsExact(g, u, v);
    }
  }

  ghost predicate RmwsStay(g: Graph, h: Graph) {
    forall a {:trigger g[a].rmw} :: a in g && g[a].rmw.Some? ==> a in h && h[a].rmw == g[a].rmw
  }

  // ---- Nodes ----

  lemma NodeKeepsTracked(g: Graph, s: Stamp)
    requires Tracked(g) && Enters(g, s)
    ensures Tracked(WithNode(g, s)) && RmwsStay(g, WithNode(g, s))
  {
    NodeKeepsIndex(g, s);
    var h := WithNode(g, s);
    forall u, v | u in h && v in h && u.tid == v.tid && u.num <= v.num ensures Reach(h, u, v) {
      NodeKeepsReach(g, s, u, v);
    }
  }

  lemma NodesKeepTracked(g: Graph, es: seq<Stamp>, s: set<Stamp>)
    requires Tracked(g) && AllEnter(g, es) && s <= Members(es)
    ensures Tracked(WithNodes(g, s)) && RmwsStay(g, WithNodes(g, s))
    decreases s
  {
    if s == {} {
      assert WithNodes(g, s) == g;
    } else {
      var a :| a in s;
      NodesKeepTracked(g, es, s - {a});
      assert a in es && a.num > 0;
      NodeKeepsTracked(WithNodes(g, s - {a}), a);
      WithNodesOneMore(g, s - {a}, a);
      assert s - {a} + {a} == s;
    }
  }

  // Where requests are permitted, the index can be trusted to prune them.
  lemma TrackedIsSound(g: Graph, es: seq<Stamp>)
    requires Tracked(g) && AllEnter(g, es)
    ensures SoundOn(WithNodes(g, Members(es)), es)
  {
    NodesKeepTracked(g, es, Members(es));
    TrackedIsExact(WithNodes(g, Members(es)));
  }

  lemma PermittedIsClocked(g: Graph, r: Request, h: Graph)
    requires Tracked(g) && Permitted(g, r) && Effect(g, r, h)
    ensures Clocked(g, r, h)
  {
    if r.AddEdges? {
      TrackedIsSound(g, r.edgeset);
    }
  }

  // ---- One request ----

  lemma LinkKeepsTracked(g: Graph, h: Graph, from: Stamp, to: Stamp, force: bool)
    requires Tracked(g) && from in g && to in g && EdgeAdded(g, h, from, to, force)
    ensures Tracked(h) && RmwsStay(g, h)
  {
    EdgeKeepsIndex(g, h, from, to, force);
    EdgeKeepsRmws(g, h, from, to, force);
    StillChained(g, h);
  }

  lemma StillChained(g: Graph, h: Graph)
    requires Chained(g) && Within(g, h) && g.Keys == h.Keys
    ensures Chained(h)
  {
    forall u, v | u in h && v in h && u.tid == v.tid && u.num <= v.num ensures Reach(h, u, v) {
      ReachWithin(g, h, u, v);
    }
  }

  lemma LinkAllKeepsTracked(g: Graph, es: seq<Stamp>, kept: seq<Stamp>, to: Stamp, h: Graph)
    requires Tracked(g) && AllEnter(g, es) && Succeeds(WithNodes(g, Members(es)), es, to)
    requires Linked(g, es, kept, to, h)
    ensures Tracked(h) && RmwsStay(g, h)
  {
    if es != [] {
      var gn := WithNodes(g, Members(es));
      NodesKeepTracked(g, es, Members(es));
      NewPredecessors(gn, es, kept, to, h);
    }
  }

  lemma NewPredecessors(g: Graph, es: seq<Stamp>, kept: seq<Stamp>, to: Stamp, h: Graph)
    requires Tracked(g) && Succeeds(g, es, to) && Covers(g, es, kept) && EdgesAdded(WithNode(g, to), h, kept, to)
    ensures Tracked(h) && RmwsStay(g, h)
  {
    EdgesIndexed(g, kept, to, h);
    if to in g {
      StillChained(g, h);
    } else {
      OneNodeKeepsIndex(g, to);
      PredecessorsReach(g, es, kept, to, h);
      SuccessorChained(g, to, h);
    }
  }

  lemma EdgesIndexed(g: Graph, kept: seq<Stamp>, to: Stamp, h: Graph)
    requires Indexed(g) && RmwsImmediate(g) && to.num > 0 && EdgesAdded(WithNode(g, to), h, kept, to)
    ensures Indexed(h) && RmwsImmediate(h) && RmwsStay(g, h)
    ensures Within(WithNode(g, to), h) && h.Keys == WithNode(g, to).Keys
  {
    OneNodeKeepsIndex(g, to);
    EdgesKeepIndex(WithNode(g, to), h, kept, to);
    SameRmwsStay(g, to, h);
  }

  lemma SameRmwsStay(g: Graph, to: Stamp, h: Graph)
    requires SameRmws(WithNode(g, to), h)
    ensures RmwsStay(g, h)
  {
  }

  lemma PredecessorsReach(g: Graph, es: seq<Stamp>, kept: seq<Stamp>, to: Stamp, h: Graph)
    requires Tracked(g) && to !in g && Succeeds(g, es, to) && Covers(g, es, kept)
    requires Indexed(WithNode(g, to)) && RmwsImmediate(WithNode(g, to)) && EdgesAdded(WithNode(g, to), h, kept, to)
    requires Within(WithNode(g, to), h)
    ensures forall u :: u in g && u.tid == to.tid ==> u.num < to.num && Reach(h, u, to)
  {
    forall u | u in g && u.tid == to.tid ensures u.num < to.num && Reach(h, u, to) {
      assert CoveredBy(g, u, es);
      PredecessorReaches(g, es, kept, to, h, u);
    }
  }

  lemma SuccessorChained(g: Graph, to: Stamp, h: Graph)
    requires Chained(g) && to !in g && Within(WithNode(g, to), h) && h.Keys == g.Keys + {to}
    requires forall u :: u in g && u.tid == to.tid ==> u.num < to.num && Reach(h, u, to)
    ensures Chained(h)
  {
    forall u, v | u in h && v in h && u.tid == v.tid && u.num <= v.num ensures Reach(h, u, v) {
      if u == v {
        ReachSelf(h, u);
      } else if v != to {
        ReachWithin(g, WithNode(g, to), u, v);
        ReachWithin(WithNode(g, to), h, u, v);
      }
    }
  }

  lemma PredecessorReaches(g: Graph, es: seq<Stamp>, kept: seq<Stamp>, to: Stamp, h: Graph, u: Stamp)
    requires Chained(g) && to !in g && Covers(g, es, kept) && u in g && CoveredBy(g, u, es)
    requires Indexed(WithNode(g, to)) && RmwsImmediate(WithNode(g, to)) && EdgesAdded(WithNode(g, to), h, kept, to)
    requires Within(WithNode(g, to), h)
    ensures Reach(h, u, to)
  {
    var g1 := WithNode(g, to);
    var e :| e in es && Reach(g, u, e);
    assert CoveredBy(g, e, kept);
    var k :| k in kept && Reach(g, e, k);
    ReachTrans(g, u, e, k);
    ReachWithin(g, g1, u, k);
    ReachWithin(g1, h, u, k);
    KeptReaches(g, kept, to, h, k);
    ReachTrans(h, u, k, to);
  }

  lemma KeptReaches(g: Graph, kept: seq<Stamp>, to: Stamp, h: Graph, k: Stamp)
    requires Chained(g) && to !in g && k in kept
    requires Indexed(WithNode(g, to)) && RmwsImmediate(WithNode(g, to)) && EdgesAdded(WithNode(g, to), h, kept, to)
    ensures Reach(h, k, to)
  {
    var g1 := WithNode(g, to);
    forall a, b | a in g1 && b in g1 && a.tid == b.tid != to.tid && a.num <= b.num ensures Reach(g1, a, b) {
      ReachWithin(g, g1, a, b);
    }
    EdgesHold(g1, h, kept, to, k);
  }

  // An RMW whose thread's stores all precede what it reads comes to a graph that
  // knows nothing of it.
  lemma RmwComesFresh(g: Graph, from: Stamp, rmw: Stamp)
    requires Indexed(g) && from in g && RmwSucceeds(g, from, rmw)
    ensures FreshNode(WithNode(g, rmw), rmw)
  {
    var h := WithNode(g, rmw);
    forall a | a in h && a != rmw ensures rmw !in h[a].edges && At(h[a].clock, rmw.tid) < rmw.num {
      assert Edge(g, a, rmw) ==> rmw in g;
      if At(g[a].clock, rmw.tid) > 0 {
        ReachIsInside(g, Stamp(rmw.tid, At(g[a].clock, rmw.tid)), a);
      }
    }
  }

  lemma RmwKeepsChained(g: Graph, h: Graph, from: Stamp, rmw: Stamp)
    requires Closed(g) && Chained(g) && from in g && RmwSucceeds(g, from, rmw)
    requires Unlinked(WithNode(g, rmw), rmw) && RmwPlaced(WithNode(g, rmw), h, from, rmw)
    ensures Chained(h)
  {
    var g1 := WithNode(g, rmw);
    assert Closed(g1) by {
      assert forall a, b :: Edge(g1, a, b) ==> Edge(g, a, b);
    }
    forall u, v | u in h && v in h && u.tid == v.tid && u.num <= v.num ensures Reach(h, u, v) {
      if u == v {
        ReachSelf(h, u);
      } else {
        assert u != rmw;
        ReachWithin(g, g1, u, if v == rmw then from else v);
        RmwReach(g1, h, from, rmw, u, if v == rmw then from else v);
      }
    }
  }

  // The index of a graph with RMWs is exact after one more, exactly when its
  // merge repaired the edges that moved, or none did.
  lemma RmwExactIff(g: Graph, h: Graph, from: Stamp, rmw: Stamp)
    requires Tracked(g) && from in g && RmwSucceeds(g, from, rmw) && RmwLinked(WithNode(g, rmw), h, from, rmw)
    ensures Exact(h) <==> !Leq(g[from].clock, Stamped([], rmw)) || g[from].edges == []
    ensures Tracked(h) <==> !Leq(g[from].clock, Stamped([], rmw)) || g[from].edges == []
  {
    var g1 := WithNode(g, rmw);
    OneNodeKeepsIndex(g, rmw);
    RmwPrepared(g, h, from, rmw);
    RmwKeepsChained(g, h, from, rmw);
    RmwKeepsRmws(g1, h, from, rmw);
    RmwIndexIff(g1, h, from, rmw);
    if Indexed(h) {
      TrackedIsExact(h);
    }
  }

  lemma RmwPrepared(g: Graph, h: Graph, from: Stamp, rmw: Stamp)
    requires Indexed(g) && from in g && RmwSucceeds(g, from, rmw) && RmwLinked(WithNode(g, rmw), h, from, rmw)
    ensures FreshNode(WithNode(g, rmw), rmw)
    ensures RmwAdded(WithNode(g, rmw), h, from, rmw)
    ensures RmwsStay(g, h) && from in h && h[from].rmw == Some(rmw)
  {
    RmwComesFresh(g, from, rmw);
    FirstRmwAdded(WithNode(g, rmw), h, from, rmw);
    RmwMarks(WithNode(g, rmw), h, from, rmw);
  }

  lemma RmwMarks(g: Graph, h: Graph, from: Stamp, rmw: Stamp)
    requires from in g && rmw in g && from != rmw && g[from].rmw.None? && RmwPlaced(g, h, from, rmw)
    ensures RmwsStay(g, h) && from in h && h[from].rmw == Some(rmw)
  {
    var g1 := WithRmw(g, from, rmw);
    forall a {:trigger g[a].rmw} | a in g && g[a].rmw.Some? ensures a in h && h[a].rmw == g[a].rmw {
      assert h[a].rmw == g1[a].rmw;
    }
    assert h[from].rmw == g1[from].rmw;
  }

  // One request keeps the invariant exactly when it is no unrepaired RMW, and
  // without the invariant the index is wrong somewhere.
  lemma StepExactIff(g: Graph, r: Request, h: Graph)
    requires Tracked(g) && Permitted(g, r) && Effect(g, r, h)
    ensures Exact(h) <==> Repaired(g, r)
    ensures Tracked(h) <==> Repaired(g, r)
    ensures RmwsStay(g, h) && (r.AddRmwEdge? ==> r.from in h && h[r.from].rmw == Some(r.rmw))
  {
    PermittedIsClocked(g, r, h);
    match r
    case AddEdge(from, to, force) =>
      NodeKeepsTracked(g, from);
      NodeKeepsTracked(WithNode(g, from), to);
      LinkKeepsTracked(WithPair(g, from, to), h, from, to, force);
      TrackedIsExact(h);
    case AddEdges(edgeset, to) =>
      var kept :| Linked(g, edgeset, kept, to, h);
      LinkAllKeepsTracked(g, edgeset, kept, to, h);
      TrackedIsExact(h);
    case AddRmwEdge(from, rmw) =>
      NodeKeepsTracked(g, from);
      RmwPrepared(WithNode(g, from), h, from, rmw);
      RmwExactIff(WithNode(g, from), h, from, rmw);
  }

  // ---- Runs ----

  ghost predicate Step(gs: seq<Graph>, rs: seq<Request>, i: nat)
    requires i < |rs| && |gs| == |rs| + 1
  {
    Permitted(gs[i], rs[i]) && Effect(gs[i], rs[i], gs[i + 1])
  }

  // The graphs that a sequence of requests goes through, from the empty one.
  ghost predicate Run(gs: seq<Graph>, rs: seq<Request>) {
    && |gs| == |rs| + 1 && gs[0] == map[]
    && forall i :: 0 <= i < |rs| ==> Step(gs, rs, i)
  }

  lemma RunStarts()
    ensures Run([map[]], [])
  {
  }

  lemma RunGoesOn(gs: seq<Graph>, rs: seq<Request>, r: Request, h: Graph)
    requires Run(gs, rs) && Permitted(gs[|rs|], r) && Effect(gs[|rs|], r, h)
    ensures Run(gs + [h], rs + [r])
  {
    var gs', rs' := gs + [h], rs + [r];
    forall i | 0 <= i < |rs'| ensures Step(gs', rs', i) {
      assert i < |rs| ==> Step(gs, rs, i);
    }
  }

  ghost predicate RepairedUpTo(gs: seq<Graph>, rs: seq<Request>, n: nat)
    requires n <= |rs| && |gs| == |rs| + 1
  {
    forall i :: 0 <= i < n ==> Repaired(gs[i], rs[i])
  }

  lemma {:induction false} RunTracked(gs: seq<Graph>, rs: seq<Request>, n: nat)
    requires Run(gs, rs) && n <= |rs| && RepairedUpTo(gs, rs, n)
    ensures Tracked(gs[n])
  {
    if n > 0 {
      RunTracked(gs, rs, n - 1);
      assert Step(gs, rs, n - 1);
      StepExactIff(gs[n - 1], rs[n - 1], gs[n]);
    }
  }

  // `checkReachable` is exact in all states of a run exactly when every RMW in it
  // was repaired.
  lemma {:induction false} RunExactIff(gs: seq<Graph>, rs: seq<Request>, n: nat)
    requires Run(gs, rs) && n <= |rs|
    ensures (forall i :: 0 <= i <= n ==> Exact(gs[i])) <==> RepairedUpTo(gs, rs, n)
  {
    if n == 0 {
      RunTracked(gs, rs, 0);
      TrackedIsExact(gs[0]);
    } else {
      RunExactIff(gs, rs, n - 1);
      if RepairedUpTo(gs, rs, n - 1) {
        RunTracked(gs, rs, n - 1);
        assert Step(gs, rs, n - 1);
        StepExactIff(gs[n - 1], rs[n - 1], gs[n]);
      }
    }
  }
}
