// Adding a whole set of predecessors to one store.

module EdgeSets {
  import opened Options
  import opened Clocks
  import opened MoGraph
  import opened MoGraphLaws

  // One edge after another, forced where both ends are on the same thread.
  ghost predicate EdgesAdded(g: Graph, h: Graph, es: seq<Stamp>, to: Stamp)
    decreases |es|
  {
    if es == [] then h == g
    else
      var e := es[|es| - 1];
      exists k: Graph ::
        EdgesAdded(g, k, es[..|es| - 1], to) && e in k && to in k && RmwsFollow(k)
          && EdgeAdded(k, h, e, to, e.tid == to.tid)
  }

  // The same for edges and marks alone.
  ghost predicate EdgesMade(g: Graph, h: Graph, es: seq<Stamp>, to: Stamp)
    decreases |es|
  {
    if es == [] then h == g
    else
      var e := es[|es| - 1];
      exists k: Graph ::
        EdgesMade(g, k, es[..|es| - 1], to) && e in k && to in k && RmwsFollow(k)
          && EdgeMade(k, h, e, to, e.tid == to.tid)
  }

  lemma EdgesAddedMade(g: Graph, h: Graph, es: seq<Stamp>, to: Stamp)
    requires EdgesAdded(g, h, es, to)
    ensures EdgesMade(g, h, es, to)
    decreases |es|
  {
    if es != [] {
      var e := es[|es| - 1];
      var k: Graph :| EdgesAdded(g, k, es[..|es| - 1], to) && e in k && to in k && RmwsFollow(k)
                      && EdgeAdded(k, h, e, to, e.tid == to.tid);
      EdgesAddedMade(g, k, es[..|es| - 1], to);
    }
  }

  lemma EdgesMadeOneMore(g: Graph, k: Graph, h: Graph, es: seq<Stamp>, i: nat, to: Stamp)
    requires i < |es| && EdgesMade(g, k, es[..i], to) && es[i] in k && to in k && RmwsFollow(k)
    requires EdgeMade(k, h, es[i], to, es[i].tid == to.tid)
    ensures EdgesMade(g, h, es[..i + 1], to)
  {
    var upTo := es[..i + 1];
    assert upTo[..|upTo| - 1] == es[..i] && upTo[|upTo| - 1] == es[i];
  }

  lemma EdgesAddedOneMore(g: Graph, k: Graph, h: Graph, es: seq<Stamp>, i: nat, to: Stamp)
    requires i < |es| && EdgesAdded(g, k, es[..i], to) && es[i] in k && to in k && RmwsFollow(k)
    requires EdgeAdded(k, h, es[i], to, es[i].tid == to.tid)
    ensures EdgesAdded(g, h, es[..i + 1], to)
  {
    var upTo := es[..i + 1];
    assert upTo[..|upTo| - 1] == es[..i] && upTo[|upTo| - 1] == es[i];
  }

  // Every member of `es` is, or reaches, a member of `kept`.
  ghost predicate Covers(g: Graph, es: seq<Stamp>, kept: seq<Stamp>) {
    forall e {:trigger CoveredBy(g, e, kept)} :: e in es ==> CoveredBy(g, e, kept)
  }

  ghost predicate CoveredBy(g: Graph, e: Stamp, kept: seq<Stamp>) {
    exists k :: k in kept && Reach(g, e, k)
  }

  // What `addEdges` leaves: nodes for all members of `es`, and edges from those
  // kept, which cover the rest.
  ghost predicate Linked(g: Graph, es: seq<Stamp>, kept: seq<Stamp>, to: Stamp, h: Graph) {
    if es == [] then h == g
    else
      var gn := WithNodes(g, Members(es));
      Covers(gn, es, kept) && (forall k :: k in kept ==> k in es) && EdgesAdded(WithNode(gn, to), h, kept, to)
  }

  // The same for edges and marks alone, with nothing said of what was dropped.
  ghost predicate LinkedMade(g: Graph, es: seq<Stamp>, kept: seq<Stamp>, to: Stamp, h: Graph) {
    if es == [] then h == g
    else
      var gn := WithNodes(g, Members(es));
      kept != [] && (forall k :: k in kept ==> k in es) && EdgesMade(WithNode(gn, to), h, kept, to)
  }

  ghost function Members(es: seq<Stamp>): set<Stamp> {
    set a | a in es
  }

  // The index tells the truth about the members of `es`.
  ghost predicate SoundOn(g: Graph, es: seq<Stamp>) {
    forall a, b :: a in es && b in es && CheckReachable(g, a, b) ==> Reach(g, a, b)
  }

  // The stores of every thread but `to`'s are chained.
  ghost predicate OthersChained(g: Graph, to: Stamp) {
    forall u, v :: u in g && v in g && u.tid == v.tid != to.tid && u.num <= v.num ==> Reach(g, u, v)
  }

  ghost predicate SameRmws(g: Graph, h: Graph) {
    g.Keys == h.Keys && forall a :: a in g ==> g[a].rmw == h[a].rmw
  }

  lemma SameChainEnd(g: Graph, h: Graph, from: Stamp, to: Stamp)
    requires SameRmws(g, h) && RmwsFollow(g) && RmwsFollow(h) && from in g
    ensures ChainEnd(g, from, to) == ChainEnd(h, from, to)
    decreases Later(g, from.num)
  {
    if g[from].rmw.Some? && g[from].rmw.value != to {
      var next := g[from].rmw.value;
      assert next in Later(g, from.num) && next !in Later(g, next.num) && Later(g, next.num) <= Later(g, from.num);
      SameChainEnd(g, h, next, to);
    }
  }

  // A store reaches the end of its chain of RMWs.
  lemma ReachesChainEnd(g: Graph, from: Stamp, to: Stamp)
    requires RmwsImmediate(g) && from in g
    ensures Reach(g, from, ChainEnd(g, from, to))
    decreases Later(g, from.num)
  {
    ReachSelf(g, from);
    if g[from].rmw.Some? && g[from].rmw.value != to {
      var next := g[from].rmw.value;
      assert next in Later(g, from.num) && next !in Later(g, next.num) && Later(g, next.num) <= Later(g, from.num);
      assert Edge(g, from, next);
      ReachEdge(g, from, next);
      ReachesChainEnd(g, next, to);
      ReachTrans(g, from, next, ChainEnd(g, next, to));
    }
  }

  // After an edge request, forced or found redundant, the edge holds.
  lemma EdgeRequestHolds(g: Graph, h: Graph, e: Stamp, to: Stamp)
    requires Indexed(g) && RmwsImmediate(g) && OthersChained(g, to) && e in g && to in g
    requires EdgeAdded(g, h, e, to, e.tid == to.tid)
    ensures Reach(h, e, to)
  {
    if e.tid != to.tid && CheckReachable(g, e, to) {
      FoundIsReach(g, e, to);
    } else {
      ReachesChainEnd(g, e, to);
      ReachSelf(g, to);
      EdgeReach(g, h, e, to, e.tid == to.tid, e, to);
    }
  }

  lemma EdgesKeepIndex(g: Graph, h: Graph, es: seq<Stamp>, to: Stamp)
    requires Indexed(g) && RmwsImmediate(g) && EdgesAdded(g, h, es, to)
    ensures Indexed(h) && RmwsImmediate(h) && SameRmws(g, h) && Within(g, h)
    decreases |es|
  {
    if es != [] {
      var e := es[|es| - 1];
      var k: Graph :| EdgesAdded(g, k, es[..|es| - 1], to) && e in k && to in k && RmwsFollow(k)
                      && EdgeAdded(k, h, e, to, e.tid == to.tid);
      EdgesKeepIndex(g, k, es[..|es| - 1], to);
      EdgeKeepsIndex(k, h, e, to, e.tid == to.tid);
      EdgeKeepsRmws(k, h, e, to, e.tid == to.tid);
    }
  }

  lemma EdgesHold(g: Graph, h: Graph, es: seq<Stamp>, to: Stamp, e: Stamp)
    requires Indexed(g) && RmwsImmediate(g) && OthersChained(g, to) && EdgesAdded(g, h, es, to) && e in es
    ensures Reach(h, e, to)
    decreases |es|
  {
    var last := es[|es| - 1];
    var k: Graph :| EdgesAdded(g, k, es[..|es| - 1], to) && last in k && to in k && RmwsFollow(k)
                    && EdgeAdded(k, h, last, to, last.tid == to.tid);
    EdgesKeepIndex(g, k, es[..|es| - 1], to);
    EdgeKeepsIndex(k, h, last, to, last.tid == to.tid);
    forall u, v | u in k && v in k && u.tid == v.tid != to.tid && u.num <= v.num ensures Reach(k, u, v) {
      ReachWithin(g, k, u, v);
    }
    if e == last {
      EdgeRequestHolds(k, h, e, to);
    } else {
      EdgesHold(g, k, es[..|es| - 1], to, e);
      ReachWithin(k, h, e, to);
    }
  }

  lemma EdgesKeepMarks(g: Graph, h: Graph, es: seq<Stamp>, to: Stamp)
    requires Closed(g) && RmwsImmediate(g) && EdgesMade(g, h, es, to)
    ensures Closed(h) && RmwsImmediate(h) && SameRmws(g, h) && Within(g, h)
    decreases |es|
  {
    if es != [] {
      var e := es[|es| - 1];
      var k: Graph :| EdgesMade(g, k, es[..|es| - 1], to) && e in k && to in k && RmwsFollow(k)
                      && EdgeMade(k, h, e, to, e.tid == to.tid);
      EdgesKeepMarks(g, k, es[..|es| - 1], to);
      EdgeKeepsClosed(k, h, e, to, e.tid == to.tid);
      EdgeKeepsRmws(k, h, e, to, e.tid == to.tid);
    }
  }

  // `v` is reachable from `u` by way of a new edge.
  ghost predicate ViaNewEdge(g: Graph, es: seq<Stamp>, to: Stamp, u: Stamp, v: Stamp)
    requires RmwsFollow(g)
  {
    Reach(g, to, v) && exists e :: e in es && e in g && Reach(g, u, ChainEnd(g, e, to))
  }

  // Nothing becomes reachable except by way of a new edge.
  lemma EdgesReach(g: Graph, h: Graph, es: seq<Stamp>, to: Stamp, u: Stamp, v: Stamp)
    requires Closed(g) && RmwsImmediate(g) && EdgesMade(g, h, es, to) && Reach(h, u, v)
    ensures Reach(g, u, v) || ViaNewEdge(g, es, to, u, v)
    decreases |es|
  {
    if es != [] {
      var e := es[|es| - 1];
      var rest := es[..|es| - 1];
      var k: Graph :| EdgesMade(g, k, rest, to) && e in k && to in k && RmwsFollow(k)
                      && EdgeMade(k, h, e, to, e.tid == to.tid);
      EdgesKeepMarks(g, k, rest, to);
      assert forall x :: x in rest ==> x in es;
      if Reach(k, u, v) {
        EdgesReach(g, k, rest, to, u, v);
      } else {
        EdgeReach(k, h, e, to, e.tid == to.tid, u, v);
        SameChainEnd(g, k, e, to);
        EdgesReach(g, k, rest, to, u, ChainEnd(k, e, to));
        EdgesReach(g, k, rest, to, to, v);
      }
    }
  }

  // Every edge is an old one or leads to `to`.
  lemma EdgesBound(g: Graph, h: Graph, es: seq<Stamp>, to: Stamp, a: Stamp, b: Stamp)
    requires Closed(g) && RmwsImmediate(g) && EdgesMade(g, h, es, to) && Edge(h, a, b)
    ensures Edge(g, a, b) || (b == to && exists e :: e in es && e in g && a == ChainEnd(g, e, to))
    decreases |es|
  {
    if es != [] {
      var e := es[|es| - 1];
      var rest := es[..|es| - 1];
      var k: Graph :| EdgesMade(g, k, rest, to) && e in k && to in k && RmwsFollow(k)
                      && EdgeMade(k, h, e, to, e.tid == to.tid);
      EdgesKeepMarks(g, k, rest, to);
      assert forall x :: x in rest ==> x in es;
      SameChainEnd(g, k, e, to);
      EdgeBound(k, h, e, to, e.tid == to.tid, a, b);
      if Edge(k, a, b) {
        EdgesBound(g, k, rest, to, a, b);
      }
    }
  }

  // Edges into a store that reaches none of their sources close no cycle.
  lemma EdgesKeepAcyclic(g: Graph, h: Graph, es: seq<Stamp>, to: Stamp)
    requires Closed(g) && RmwsImmediate(g) && EdgesMade(g, h, es, to) && Acyclic(g)
    requires forall e :: e in es && e in g ==> !Reach(g, to, ChainEnd(g, e, to))
    ensures Acyclic(h)
  {
    forall a, b | Edge(h, a, b) ensures !Reach(h, b, a) {
      if Reach(h, b, a) {
        EdgesBound(g, h, es, to, a, b);
        EdgesReach(g, h, es, to, b, a);
        if Edge(g, a, b) {
          if !Reach(g, b, a) {
            var e :| e in es && e in g && Reach(g, b, ChainEnd(g, e, to));
            ReachEdge(g, a, b);
            ReachTrans(g, to, a, b);
            ReachTrans(g, to, b, ChainEnd(g, e, to));
          }
          assert false;
        }
      }
    }
  }
}
