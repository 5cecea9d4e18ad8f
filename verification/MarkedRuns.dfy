// Runs of requests to the modification-order graph, whatever becomes of its
// clocks: what holds of edges and marks alone.

module MarkedRuns {
  import opened Options
  import opened Clocks
  import opened MoGraph
  import opened MoGraphLaws
  import opened EdgeSets
  import opened GraphRuns
  import opened ModificationOrder

  // The filter on what an RMW may read has been heeded.
  ghost predicate Filtered(g: Graph, r: Request) {
    r.AddRmwEdge? ==> r.from.num < r.rmw.num && r.rmw !in WithNode(g, r.from) && Unread(g, r.from)
  }

  ghost predicate MarkedStep(gs: seq<Graph>, rs: seq<Request>, i: nat)
    requires i < |rs| && |gs| == |rs| + 1
  {
    Filtered(gs[i], rs[i]) && Made(gs[i], rs[i], gs[i + 1])
  }

  ghost predicate MarkedRun(gs: seq<Graph>, rs: seq<Request>) {
    && |gs| == |rs| + 1 && gs[0] == map[]
    && forall i :: 0 <= i < |rs| ==> MarkedStep(gs, rs, i)
  }

  lemma RunIsMarked(gs: seq<Graph>, rs: seq<Request>)
    requires Run(gs, rs)
    ensures MarkedRun(gs, rs)
  {
    forall i | 0 <= i < |rs| ensures MarkedStep(gs, rs, i) {
      assert Step(gs, rs, i);
    }
  }

  // ---- One request ----

  lemma NodeKeepsMarks(g: Graph, s: Stamp)
    requires Closed(g) && RmwsImmediate(g)
    ensures Closed(WithNode(g, s)) && RmwsImmediate(WithNode(g, s)) && RmwsStay(g, WithNode(g, s))
  {
    var h := WithNode(g, s);
    forall a, b | Edge(h, a, b) ensures b in h {
      assert Edge(g, a, b);
    }
  }

  lemma NodesKeepMarks(g: Graph, s: set<Stamp>)
    requires Closed(g) && RmwsImmediate(g)
    ensures Closed(WithNodes(g, s)) && RmwsImmediate(WithNodes(g, s)) && RmwsStay(g, WithNodes(g, s))
    decreases s
  {
    if s == {} {
      assert WithNodes(g, s) == g;
    } else {
      var a :| a in s;
      NodesKeepMarks(g, s - {a});
      NodeKeepsMarks(WithNodes(g, s - {a}), a);
      WithNodesOneMore(g, s - {a}, a);
      assert s - {a} + {a} == s;
    }
  }

  lemma EdgeStepKeepsMarks(g: Graph, h: Graph, from: Stamp, to: Stamp, force: bool)
    requires Closed(g) && RmwsImmediate(g) && from in g && to in g && EdgeMade(g, h, from, to, force)
    ensures Closed(h) && RmwsImmediate(h) && RmwsStay(g, h)
  {
    EdgeKeepsClosed(g, h, from, to, force);
    EdgeKeepsRmws(g, h, from, to, force);
  }

  lemma EdgesStepKeepsMarks(g: Graph, h: Graph, es: seq<Stamp>, kept: seq<Stamp>, to: Stamp)
    requires Closed(g) && RmwsImmediate(g) && LinkedMade(g, es, kept, to, h)
    ensures Closed(h) && RmwsImmediate(h) && RmwsStay(g, h)
  {
    if es != [] {
      var g1 := WithNodes(g, Members(es));
      NodesKeepMarks(g, Members(es));
      NodeKeepsMarks(g1, to);
      EdgesKeepMarks(WithNode(g1, to), h, kept, to);
    }
  }

  lemma RmwStepKeepsMarks(g: Graph, h: Graph, from: Stamp, rmw: Stamp)
    requires Closed(g) && RmwsImmediate(g) && from in g && rmw !in g && from.num < rmw.num && g[from].rmw.None?
    requires RmwMade(WithNode(g, rmw), h, from, rmw)
    ensures Closed(h) && RmwsImmediate(h) && RmwsStay(g, h) && from in h && h[from].rmw == Some(rmw)
    ensures Acyclic(h) <==> Acyclic(WithNode(g, rmw))
  {
    var g1 := WithNode(g, rmw);
    NodeKeepsMarks(g, rmw);
    NewIsUnlinked(g, rmw);
    FirstRmwAdded(g1, h, from, rmw);
    PlacedKeepsMarks(g1, h, from, rmw);
  }

  lemma PlacedKeepsMarks(g: Graph, h: Graph, from: Stamp, rmw: Stamp)
    requires Closed(g) && RmwsImmediate(g) && from in g && from.num < rmw.num && g[from].rmw.None?
    requires Unlinked(g, rmw) && RmwPlaced(g, h, from, rmw)
    ensures Closed(h) && RmwsImmediate(h) && RmwsStay(g, h) && from in h && h[from].rmw == Some(rmw)
    ensures Acyclic(h) <==> Acyclic(g)
  {
    WithRmwClosed(g, h, from, rmw);
    RmwKeepsRmws(g, h, from, rmw);
    RmwKeepsAcyclic(g, h, from, rmw);
    RmwMarks(g, h, from, rmw);
  }

  lemma NewIsUnlinked(g: Graph, s: Stamp)
    requires Closed(g) && s !in g
    ensures Unlinked(WithNode(g, s), s)
  {
    forall a | a in g ensures s !in g[a].edges {
      assert Edge(g, a, s) ==> s in g;
    }
  }

  lemma RmwRequestKeepsMarks(g: Graph, r: Request, h: Graph)
    requires Closed(g) && RmwsImmediate(g) && r.AddRmwEdge? && Filtered(g, r) && Made(g, r, h)
    ensures Closed(h) && RmwsImmediate(h) && RmwsStay(g, h) && r.from in h && h[r.from].rmw == Some(r.rmw)
    ensures Acyclic(h) <==> Acyclic(WithPair(g, r.from, r.rmw))
  {
    NodeKeepsMarks(g, r.from);
    RmwStepKeepsMarks(WithNode(g, r.from), h, r.from, r.rmw);
  }

  // No request, repaired or not, disturbs a store and the RMW behind it.
  lemma RequestKeepsMarks(g: Graph, r: Request, h: Graph)
    requires Closed(g) && RmwsImmediate(g) && Filtered(g, r) && Made(g, r, h)
    ensures Closed(h) && RmwsImmediate(h) && RmwsStay(g, h)
  {
    match r
    case AddEdge(from, to, force) =>
      NodeKeepsMarks(g, from);
      NodeKeepsMarks(WithNode(g, from), to);
      EdgeStepKeepsMarks(WithPair(g, from, to), h, from, to, force);
    case AddEdges(edgeset, to) =>
      var kept :| LinkedMade(g, edgeset, kept, to, h);
      EdgesStepKeepsMarks(g, h, edgeset, kept, to);
    case AddRmwEdge(from, rmw) =>
      RmwRequestKeepsMarks(g, r, h);
  }

  // ---- Runs ----

  lemma {:induction false} RunImmediate(gs: seq<Graph>, rs: seq<Request>, n: nat)
    requires MarkedRun(gs, rs) && n <= |rs|
    ensures Closed(gs[n]) && RmwsImmediate(gs[n])
  {
    if n > 0 {
      RunImmediate(gs, rs, n - 1);
      assert MarkedStep(gs, rs, n - 1);
      RequestKeepsMarks(gs[n - 1], rs[n - 1], gs[n]);
    }
  }

  // Every graph of a run can be put into a modification order, with each RMW right
  // behind what it reads, exactly when it is acyclic.
  lemma RunOrderableIff(gs: seq<Graph>, rs: seq<Request>, n: nat)
    requires MarkedRun(gs, rs) && n <= |rs|
    ensures Acyclic(gs[n]) <==> exists o :: IsModificationOrder(gs[n], o)
  {
    RunImmediate(gs, rs, n);
    OrderableIffAcyclic(gs[n]);
  }

  // No store is ever read by two RMWs: the mark stays, and the filter heeds it.
  lemma {:induction false} MarkStays(gs: seq<Graph>, rs: seq<Request>, i: nat, j: nat)
    requires MarkedRun(gs, rs) && i < j <= |rs| && rs[i].AddRmwEdge?
    ensures rs[i].from in gs[j] && gs[j][rs[i].from].rmw == Some(rs[i].rmw)
    decreases j
  {
    RunImmediate(gs, rs, j - 1);
    assert MarkedStep(gs, rs, j - 1);
    RequestKeepsMarks(gs[j - 1], rs[j - 1], gs[j]);
    if i < j - 1 {
      MarkStays(gs, rs, i, j - 1);
    } else {
      RmwRequestKeepsMarks(gs[i], rs[i], gs[j]);
    }
  }

  lemma NoSecondRmw(gs: seq<Graph>, rs: seq<Request>, i: nat, j: nat)
    requires MarkedRun(gs, rs) && i < j < |rs| && rs[i].AddRmwEdge? && rs[j].AddRmwEdge?
    ensures rs[i].from != rs[j].from
  {
    MarkStays(gs, rs, i, j);
    assert MarkedStep(gs, rs, j);
  }

  // ---- Staying acyclic ----

  // The guard on an edge that tests what the edge will really be: `to` must not
  // reach the end of the chain behind `from`.
  ghost predicate Guarded(g: Graph, from: Stamp, to: Stamp, force: bool)
    requires from in g && to in g && RmwsFollow(g)
  {
    (!force && CheckReachable(g, from, to)) || !Reach(g, to, ChainEnd(g, from, to))
  }

  ghost predicate AllGuarded(g: Graph, es: seq<Stamp>, to: Stamp)
    requires RmwsFollow(g)
  {
    forall e :: e in es && e in g ==> !Reach(g, to, ChainEnd(g, e, to))
  }

  // Where the index is exact it can be the test.
  lemma GuardedByIndex(g: Graph, from: Stamp, to: Stamp, force: bool)
    requires Tracked(g) && Permitted(g, Request.AddEdge(from, to, force))
    ensures var g1 := WithPair(g, from, to);
      && RmwsFollow(g1)
      && (Guarded(g1, from, to, force) <==>
           (!force && CheckReachable(g1, from, to)) || !CheckReachable(g1, to, ChainEnd(g1, from, to)))
  {
    NodeKeepsTracked(g, from);
    NodeKeepsTracked(WithNode(g, from), to);
    var g1 := WithPair(g, from, to);
    IndexIsExact(g1, to, ChainEnd(g1, from, to));
  }

  // For a set of edges, into a store that reaches none of those ends.  An RMW
  // needs no guard but the filter.
  ghost predicate Safe(g: Graph, r: Request) {
    match r
    case AddEdge(from, to, force) =>
      var g1 := WithPair(g, from, to);
      RmwsFollow(g1) && Guarded(g1, from, to, force)
    case AddEdges(edgeset, to) =>
      var g1 := WithNode(WithNodes(g, Members(edgeset)), to);
      RmwsFollow(g1) && AllGuarded(g1, edgeset, to)
    case AddRmwEdge(_, _) => true
  }

  lemma NodeKeepsAcyclic(g: Graph, s: Stamp)
    requires Closed(g)
    ensures Acyclic(WithNode(g, s)) <==> Acyclic(g)
  {
    var h := WithNode(g, s);
    assert forall a, b :: Edge(h, a, b) <==> Edge(g, a, b);
    forall a, b | Edge(g, a, b) ensures Reach(h, b, a) <==> Reach(g, b, a) {
      NodeKeepsReach(g, s, b, a);
    }
  }

  lemma NodesKeepAcyclic(g: Graph, s: set<Stamp>)
    requires Closed(g) && RmwsImmediate(g) && Acyclic(g)
    ensures Acyclic(WithNodes(g, s))
    decreases s
  {
    if s == {} {
      assert WithNodes(g, s) == g;
    } else {
      var a :| a in s;
      NodesKeepAcyclic(g, s - {a});
      NodesKeepMarks(g, s - {a});
      NodeKeepsAcyclic(WithNodes(g, s - {a}), a);
      WithNodesOneMore(g, s - {a}, a);
      assert s - {a} + {a} == s;
    }
  }

  lemma EdgeAcyclicIff(g: Graph, h: Graph, from: Stamp, to: Stamp, force: bool)
    requires Closed(g) && RmwsImmediate(g) && Acyclic(g) && from in g && to in g && EdgeMade(g, h, from, to, force)
    ensures Acyclic(h) <==> Guarded(g, from, to, force)
  {
    if force || !CheckReachable(g, from, to) {
      EdgeKeepsAcyclicIff(g, h, from, to, force);
    }
  }

  // A safe request closes no cycle; an edge that is not safe does.
  lemma SafeKeepsAcyclic(g: Graph, r: Request, h: Graph)
    requires Closed(g) && RmwsImmediate(g) && Acyclic(g) && Filtered(g, r) && Made(g, r, h)
    ensures Safe(g, r) ==> Acyclic(h)
    ensures r.AddEdge? && Acyclic(h) ==> Safe(g, r)
  {
    match r
    case AddEdge(from, to, force) =>
      NodeKeepsMarks(g, from);
      NodeKeepsAcyclic(g, from);
      NodeKeepsMarks(WithNode(g, from), to);
      NodeKeepsAcyclic(WithNode(g, from), to);
      EdgeAcyclicIff(WithPair(g, from, to), h, from, to, force);
    case AddEdges(edgeset, to) =>
      if Safe(g, r) {
        var kept :| LinkedMade(g, edgeset, kept, to, h);
        SafeEdgesKeepAcyclic(g, h, edgeset, kept, to);
      }
    case AddRmwEdge(from, rmw) =>
      NodeKeepsMarks(g, from);
      NodeKeepsAcyclic(g, from);
      NodeKeepsAcyclic(WithNode(g, from), rmw);
      RmwRequestKeepsMarks(g, r, h);
  }

  lemma SafeEdgesKeepAcyclic(g: Graph, h: Graph, es: seq<Stamp>, kept: seq<Stamp>, to: Stamp)
    requires Closed(g) && RmwsImmediate(g) && Acyclic(g) && LinkedMade(g, es, kept, to, h)
    requires Safe(g, Request.AddEdges(es, to))
    ensures Acyclic(h)
  {
    if es != [] {
      var g1 := WithNodes(g, Members(es));
      NodesKeepMarks(g, Members(es));
      NodesKeepAcyclic(g, Members(es));
      NodeKeepsMarks(g1, to);
      NodeKeepsAcyclic(g1, to);
      EdgesKeepAcyclic(WithNode(g1, to), h, kept, to);
    }
  }

  ghost predicate SafeUpTo(gs: seq<Graph>, rs: seq<Request>, n: nat)
    requires n <= |rs| && |gs| == |rs| + 1
  {
    forall i :: 0 <= i < n ==> Safe(gs[i], rs[i])
  }

  // A run whose edges are guarded by the ends of the chains stays acyclic, RMWs or
  // not.
  lemma {:induction false} SafeRunAcyclic(gs: seq<Graph>, rs: seq<Request>, n: nat)
    requires MarkedRun(gs, rs) && n <= |rs| && SafeUpTo(gs, rs, n)
    ensures Acyclic(gs[n])
  {
    if n > 0 {
      SafeRunAcyclic(gs, rs, n - 1);
      RunImmediate(gs, rs, n - 1);
      assert MarkedStep(gs, rs, n - 1);
      SafeKeepsAcyclic(gs[n - 1], rs[n - 1], gs[n]);
    }
  }

  // ---- Some store can always be read ----

  // Nothing follows it, and no RMW has read it.
  predicate Last(g: Graph, m: Stamp) {
    m in g && g[m].edges == [] && g[m].rmw.None?
  }

  lemma ChainEndsElsewhere(g: Graph, p: Stamp, m: Stamp)
    requires RmwsFollow(g) && p in g && p != m
    ensures ChainEnd(g, p, m) != m
    decreases Later(g, p.num)
  {
    if g[p].rmw.Some? && g[p].rmw.value != m {
      var next := g[p].rmw.value;
      assert next in Later(g, p.num) && next !in Later(g, next.num) && Later(g, next.num) <= Later(g, p.num);
      ChainEndsElsewhere(g, next, m);
    }
  }

  // An edge to the last store passes the guard, and leaves it last.
  lemma LastIsSafe(g: Graph, h: Graph, p: Stamp, m: Stamp)
    requires Closed(g) && RmwsImmediate(g) && Last(g, m) && p != m && Made(g, Request.AddEdge(p, m, false), h)
    ensures Safe(g, Request.AddEdge(p, m, false)) && Last(h, m)
  {
    var g1 := WithPair(g, p, m);
    ChainEndsElsewhere(g1, p, m);
    var e := ChainEnd(g1, p, m);
    if Reach(g1, m, e) {
      var b := FirstEdge(g1, m, e);
    }
  }

  // The edges of a load that reads `m`.
  ghost predicate Reads(gs: seq<Graph>, priors: seq<Stamp>, m: Stamp) {
    && |gs| == |priors| + 1
    && forall i :: 0 <= i < |priors| ==> Made(gs[i], Request.AddEdge(priors[i], m, false), gs[i + 1])
  }

  // Whatever stores must precede it, a load may read the last store: all its
  // edges pass the guard, the graph stays acyclic, and an RMW may read it too.
  lemma {:induction false} LastCanBeRead(gs: seq<Graph>, priors: seq<Stamp>, m: Stamp, n: nat)
    requires Reads(gs, priors, m) && n <= |priors| && m !in priors
    requires Closed(gs[0]) && RmwsImmediate(gs[0]) && Acyclic(gs[0]) && Last(gs[0], m)
    ensures Closed(gs[n]) && RmwsImmediate(gs[n]) && Acyclic(gs[n]) && Last(gs[n], m)
    ensures forall i :: 0 <= i < n ==> Safe(gs[i], Request.AddEdge(priors[i], m, false))
  {
    if n > 0 {
      LastCanBeRead(gs, priors, m, n - 1);
      var r := Request.AddEdge(priors[n - 1], m, false);
      LastIsSafe(gs[n - 1], gs[n], priors[n - 1], m);
      RequestKeepsMarks(gs[n - 1], r, gs[n]);
      SafeKeepsAcyclic(gs[n - 1], r, gs[n]);
    }
  }

  // And behind any store of an acyclic graph there is one.
  lemma LastExists(g: Graph, w: Stamp) returns (m: Stamp)
    requires Closed(g) && RmwsImmediate(g) && Acyclic(g) && w in g
    ensures Last(g, m) && Reach(g, w, m)
  {
    ReachSelf(g, w);
    m := SinkExists(g, set a | a in g && Reach(g, w, a), {}, w);
    if g[m].edges != [] {
      var b := g[m].edges[0];
      assert Edge(g, m, b);
      ReachEdge(g, m, b);
      ReachTrans(g, w, m, b);
    }
  }

  // So in every state of a safe run, from any store, a load or RMW finds a store
  // to read, and the run stays safe.
  lemma SomeStoreCanBeRead(gs: seq<Graph>, rs: seq<Request>, n: nat, w: Stamp) returns (m: Stamp)
    requires MarkedRun(gs, rs) && n <= |rs| && SafeUpTo(gs, rs, n) && w in gs[n]
    ensures Reach(gs[n], w, m) && Unread(gs[n], m)
    ensures forall hs, priors :: Reads(hs, priors, m) && hs[0] == gs[n] && m !in priors ==>
      Acyclic(hs[|priors|]) && forall i :: 0 <= i < |priors| ==> Safe(hs[i], Request.AddEdge(priors[i], m, false))
  {
    SafeRunAcyclic(gs, rs, n);
    RunImmediate(gs, rs, n);
    m := LastExists(gs[n], w);
    forall hs, priors | Reads(hs, priors, m) && hs[0] == gs[n] && m !in priors
      ensures Acyclic(hs[|priors|]) && forall i :: 0 <= i < |priors| ==>
        Safe(hs[i], Request.AddEdge(priors[i], m, false))
    {
      LastCanBeRead(hs, priors, m, |priors|);
    }
  }
}
