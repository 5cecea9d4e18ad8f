// What adding edges does to the modification-order graph: the clock index stays
// exact, and acyclicity fails exactly when the new edge closes a cycle.

module MoGraphLaws {
  import opened Options
  import opened Clocks
  import opened MoGraph

  // ---- Adding a node ----

  lemma NodeKeepsReach(g: Graph, s: Stamp, u: Stamp, v: Stamp)
    requires Closed(g)
    ensures Reach(WithNode(g, s), u, v) <==> Reach(g, u, v) || (u == v == s)
  {
    var h := WithNode(g, s);
    if Reach(h, u, v) && s !in g {
      var p :| PathFrom(h, p, u, v);
      assert p[0] in h;
      if u == s {
        ReachInduct(h, {s}, u, v);
      } else {
        ReachSelf(g, u);
        var r := set a | a in g && Reach(g, u, a);
        forall a, b | Edge(h, a, b) && a in r ensures b in r {
          assert Edge(g, a, b);
          ReachEdge(g, a, b);
          ReachTrans(g, u, a, b);
        }
        ReachInduct(h, r, u, v);
      }
    }
    if Reach(g, u, v) {
      ReachWithin(g, h, u, v);
    }
    ReachSelf(h, s);
  }

  lemma NodeKeepsIndex(g: Graph, s: Stamp)
    requires Indexed(g) && RmwsFollow(g) && s.num > 0
    ensures Indexed(WithNode(g, s)) && RmwsFollow(WithNode(g, s))
  {
    var h := WithNode(g, s);
    forall a, b | Edge(h, a, b) ensures b in h && Leq(h[a].clock, h[b].clock) {
      assert Edge(g, a, b);
    }
    forall a, t: nat | a in h && At(h[a].clock, t) > 0 ensures Reach(h, Stamp(t, At(h[a].clock, t)), a) {
      NodeKeepsReach(g, s, Stamp(t, At(h[a].clock, t)), a);
    }
  }

  // ---- Adding one edge ----

  lemma WithEdgeAbsorbedClocks(g: Graph, h: Graph, e: Stamp, to: Stamp, a: Stamp, t: nat)
    requires Closed(g) && Ordered(g) && e in g && to in g && a in g
    requires Absorbed(WithEdge(g, e, to), h, to, g[e].clock)
    ensures a in h
    ensures At(h[a].clock, t) == Max(At(g[a].clock, t), if Reach(g, to, a) then At(g[e].clock, t) else 0)
  {
    var g1 := WithEdge(g, e, to);
    ReachWithEdge(g, e, to, to, a);
    assert Reach(g1, to, a) <==> Reach(g, to, a) by {
      if Reach(g, to, e) && Reach(g, to, a) {
      }
    }
    if Reach(g, to, a) {
      ClockGrowsAlongPath(g, to, a);
      assert At(g[to].clock, t) <= At(g[a].clock, t);
    }
    AbsorbedClocks(g1, h, to, g[e].clock, a, t);
  }

  lemma AbsorbedShape(g: Graph, h: Graph, to: Stamp, m: Clock)
    requires to in g && Absorbed(g, h, to, m)
    ensures SameShape(g, h)
  {
    if !Leq(m, g[to].clock) {
      var g1 := g[to := g[to].(clock := Join(g[to].clock, m))];
      assert SameShape(g, g1) && SameShape(g1, h);
    }
  }

  lemma EdgeKeepsOrder(g: Graph, h: Graph, e: Stamp, to: Stamp)
    requires Closed(g) && Ordered(g) && e in g && to in g
    requires Absorbed(WithEdge(g, e, to), h, to, g[e].clock)
    ensures Ordered(h)
  {
    AbsorbedShape(WithEdge(g, e, to), h, to, g[e].clock);
    forall a, b, t: nat | Edge(h, a, b) && b in h ensures At(h[a].clock, t) <= At(h[b].clock, t) {
      WithEdgeAbsorbedClocks(g, h, e, to, a, t);
      WithEdgeAbsorbedClocks(g, h, e, to, b, t);
      if Edge(g, a, b) {
        assert Leq(g[a].clock, g[b].clock);
        assert At(g[a].clock, t) <= At(g[b].clock, t);
        ReachEdge(g, a, b);
        if Reach(g, to, a) {
          ReachTrans(g, to, a, b);
        }
      } else {
        ReachSelf(g, to);
      }
    }
    forall a, b | Edge(h, a, b) && b in h ensures Leq(h[a].clock, h[b].clock) {
    }
  }

  lemma EdgeKeepsAttained(g: Graph, h: Graph, e: Stamp, to: Stamp)
    requires Closed(g) && Ordered(g) && Attained(g) && e in g && to in g
    requires Absorbed(WithEdge(g, e, to), h, to, g[e].clock)
    ensures Attained(h)
  {
    var g1 := WithEdge(g, e, to);
    AbsorbedShape(g1, h, to, g[e].clock);
    forall a, t: nat | a in h && At(h[a].clock, t) > 0
      ensures Reach(h, Stamp(t, At(h[a].clock, t)), a)
    {
      var w := Stamp(t, At(h[a].clock, t));
      WithEdgeAbsorbedClocks(g, h, e, to, a, t);
      if At(h[a].clock, t) == At(g[a].clock, t) {
        assert Reach(g, w, a);
      } else {
        assert Reach(g, w, e) && Reach(g, to, a);
      }
      ReachWithEdge(g, e, to, w, a);
      ReachSameShape(g1, h, w, a);
    }
  }

  lemma EdgeKeepsOwnClocks(g: Graph, h: Graph, e: Stamp, to: Stamp)
    requires Closed(g) && Ordered(g) && OwnClocks(g) && e in g && to in g
    requires Absorbed(WithEdge(g, e, to), h, to, g[e].clock)
    ensures Closed(h) && OwnClocks(h)
  {
    AbsorbedShape(WithEdge(g, e, to), h, to, g[e].clock);
    forall a, b | Edge(h, a, b) ensures b in h {
      assert b == to || Edge(g, a, b);
    }
    forall a | a in h ensures 0 < a.num <= At(h[a].clock, a.tid) {
      WithEdgeAbsorbedClocks(g, h, e, to, a, a.tid);
    }
  }

  lemma WithEdgeKeepsIndex(g: Graph, h: Graph, e: Stamp, to: Stamp)
    requires Indexed(g) && e in g && to in g
    requires Absorbed(WithEdge(g, e, to), h, to, g[e].clock)
    ensures Indexed(h)
  {
    EdgeKeepsOwnClocks(g, h, e, to);
    EdgeKeepsOrder(g, h, e, to);
    EdgeKeepsAttained(g, h, e, to);
  }

  lemma WithEdgeGrows(g: Graph, h: Graph, e: Stamp, to: Stamp)
    requires e in g && SameShape(WithEdge(g, e, to), h)
    ensures h.Keys == g.Keys && Within(g, h)
  {
    forall a | a in g ensures a in h && forall b :: b in g[a].edges ==> b in h[a].edges {
      assert a in WithEdge(g, e, to);
    }
  }

  // An added edge leaves the index consistent, and every path in place.
  lemma EdgeKeepsIndex(g: Graph, h: Graph, from: Stamp, to: Stamp, force: bool)
    requires Indexed(g) && RmwsFollow(g) && from in g && to in g
    requires EdgeAdded(g, h, from, to, force)
    ensures Indexed(h) && h.Keys == g.Keys && Within(g, h)
  {
    if force || !CheckReachable(g, from, to) {
      var e := ChainEnd(g, from, to);
      WithEdgeKeepsIndex(g, h, e, to);
      WithEdgeGrows(g, h, e, to);
    }
  }

  lemma EdgeKeepsClosed(g: Graph, h: Graph, from: Stamp, to: Stamp, force: bool)
    requires Closed(g) && RmwsFollow(g) && from in g && to in g && EdgeMade(g, h, from, to, force)
    ensures Closed(h) && RmwsFollow(h) && h.Keys == g.Keys && Within(g, h)
  {
    if force || !CheckReachable(g, from, to) {
      var g1 := WithEdge(g, ChainEnd(g, from, to), to);
      forall a, b | Edge(h, a, b) ensures b in h {
        assert Edge(g1, a, b);
        assert b == to || Edge(g, a, b);
      }
      forall a {:trigger h[a].rmw} | a in h && h[a].rmw.Some?
        ensures h[a].rmw.value in h && a.num < h[a].rmw.value.num {
        assert h[a].rmw == g1[a].rmw == g[a].rmw;
      }
      WithEdgeGrows(g, h, ChainEnd(g, from, to), to);
    }
  }

  // Exactly what becomes reachable when an edge is really added.
  lemma EdgeReach(g: Graph, h: Graph, from: Stamp, to: Stamp, force: bool, u: Stamp, v: Stamp)
    requires Closed(g) && RmwsFollow(g) && from in g && to in g
    requires EdgeMade(g, h, from, to, force)
    requires force || !CheckReachable(g, from, to)
    ensures Reach(h, u, v) <==>
      Reach(g, u, v) || (Reach(g, u, ChainEnd(g, from, to)) && Reach(g, to, v))
  {
    var e := ChainEnd(g, from, to);
    ReachWithEdge(g, e, to, u, v);
    ReachSameShape(WithEdge(g, e, to), h, u, v);
  }

  lemma EdgeBound(g: Graph, h: Graph, from: Stamp, to: Stamp, force: bool, a: Stamp, b: Stamp)
    requires from in g && to in g && RmwsFollow(g) && EdgeMade(g, h, from, to, force) && Edge(h, a, b)
    ensures Edge(g, a, b) || (a == ChainEnd(g, from, to) && b == to)
  {
    if force || !CheckReachable(g, from, to) {
      var e := ChainEnd(g, from, to);
    }
  }

  // The edge goes in at the end of `from`'s chain of RMWs, so that is the node
  // `to` must not reach: this guard is both sufficient and necessary.
  lemma EdgeKeepsAcyclicIff(g: Graph, h: Graph, from: Stamp, to: Stamp, force: bool)
    requires Closed(g) && RmwsFollow(g) && from in g && to in g
    requires EdgeMade(g, h, from, to, force)
    requires force || !CheckReachable(g, from, to)
    ensures Acyclic(h) <==> Acyclic(g) && !Reach(g, to, ChainEnd(g, from, to))
  {
    var e := ChainEnd(g, from, to);
    EdgeReach(g, h, from, to, force, to, e);
    ReachSelf(g, to);
    ReachSelf(g, e);
    assert Edge(h, e, to);
    if Acyclic(h) {
      forall a, b | Edge(g, a, b) ensures !Reach(g, b, a) {
        assert Edge(h, a, b);
        EdgeReach(g, h, from, to, force, b, a);
      }
    }
    if Acyclic(g) && !Reach(g, to, e) {
      forall a, b | Edge(h, a, b) ensures !Reach(h, b, a) {
        EdgeReach(g, h, from, to, force, b, a);
        if Edge(g, a, b) {
          if Reach(g, b, e) && Reach(g, to, a) {
            ReachEdge(g, a, b);
            ReachTrans(g, to, a, b);
            ReachTrans(g, to, b, e);
          }
        } else {
          assert a == e && b == to;
        }
      }
    }
  }

  // ---- RMW atomicity ----

  // A store read by an RMW has that RMW as its only successor, and an RMW reads
  // from a single store.
  ghost predicate RmwsImmediate(g: Graph) {
    && RmwsFollow(g)
    && (forall a {:trigger g[a].rmw} :: a in g && g[a].rmw.Some? ==> g[a].edges == [g[a].rmw.value])
    && (forall a, b {:trigger g[a].rmw, g[b].rmw} :: a in g && b in g && g[a].rmw.Some? && g[a].rmw == g[b].rmw ==>
      a == b)
  }

  lemma OneNodeKeepsIndex(g: Graph, a: Stamp)
    requires Indexed(g) && RmwsImmediate(g) && a.num > 0
    ensures Indexed(WithNode(g, a)) && RmwsImmediate(WithNode(g, a))
  {
    NodeKeepsIndex(g, a);
  }

  lemma EdgeKeepsRmws(g: Graph, h: Graph, from: Stamp, to: Stamp, force: bool)
    requires Closed(g) && RmwsImmediate(g) && from in g && to in g
    requires EdgeMade(g, h, from, to, force)
    ensures RmwsImmediate(h)
    ensures forall a :: a in g ==> a in h && h[a].rmw == g[a].rmw
  {
    if force || !CheckReachable(g, from, to) {
      var e := ChainEnd(g, from, to);
      WithEdgeKeepsRmws(g, h, e, to);
    }
  }

  lemma WithEdgeKeepsMarks(g: Graph, h: Graph, e: Stamp, to: Stamp)
    requires e in g && SameShape(WithEdge(g, e, to), h)
    ensures h.Keys == g.Keys && forall a :: a in g ==> h[a].rmw == g[a].rmw
    ensures forall a :: a in g ==> h[a].edges == if a == e then Including(g[e].edges, to) else g[a].edges
  {
    var g1 := WithEdge(g, e, to);
    forall a | a in g ensures a in h && h[a].rmw == g[a].rmw {
      assert a in g1 && h[a].rmw == g1[a].rmw;
    }
    forall a | a in g ensures h[a].edges == if a == e then Including(g[e].edges, to) else g[a].edges {
      assert a in g1 && h[a].edges == g1[a].edges;
    }
  }

  lemma WithEdgeKeepsRmws(g: Graph, h: Graph, e: Stamp, to: Stamp)
    requires RmwsImmediate(g) && e in g && (g[e].rmw.None? || g[e].rmw.value == to)
    requires SameShape(WithEdge(g, e, to), h)
    ensures RmwsImmediate(h)
    ensures forall a :: a in g ==> a in h && h[a].rmw == g[a].rmw
  {
    WithEdgeKeepsMarks(g, h, e, to);
    forall a {:trigger h[a].rmw} | a in h && h[a].rmw.Some?
      ensures h[a].edges == [h[a].rmw.value] && h[a].rmw.value in h && a.num < h[a].rmw.value.num
    {
      assert g[a].edges == [g[a].rmw.value];
    }
    forall a, b | a in h && b in h && h[a].rmw.Some? && h[a].rmw == h[b].rmw ensures a == b {
      assert g[a].rmw == g[b].rmw;
    }
  }

  // `from`'s edges move to `rmw`, which becomes its only successor.
  function WithRmw(g: Graph, from: Stamp, rmw: Stamp): Graph
    requires from in g && rmw in g
  {
    var moved := g[rmw].(edges := IncludingAll(g[rmw].edges, g[from].edges, rmw));
    g[rmw := moved][from := Node([rmw], Some(rmw), g[from].clock)]
  }

  // `edges` with each of `more` but `rmw` added.
  function IncludingAll(edges: seq<Stamp>, more: seq<Stamp>, rmw: Stamp): (r: seq<Stamp>)
    ensures forall b :: b in r <==> b in edges || (b in more && b != rmw)
  {
    if more == [] then edges
    else
      var last := more[|more| - 1];
      var r := IncludingAll(edges, more[..|more| - 1], rmw);
      if last == rmw then r else Including(r, last)
  }

  ghost predicate RmwAdded(g: Graph, h: Graph, from: Stamp, rmw: Stamp)
    requires from in g && rmw in g
  {
    RmwPlaced(g, h, from, rmw) && Absorbed(WithRmw(g, from, rmw), h, rmw, g[from].clock)
  }

  ghost predicate RmwPlaced(g: Graph, h: Graph, from: Stamp, rmw: Stamp)
    requires from in g && rmw in g
  {
    SameShape(WithRmw(g, from, rmw), h)
  }

  // `setRMW` keeps a mark set before, and `from`'s edges move to `rmw`.
  function Cleared(g: Graph, from: Stamp, rmw: Stamp): Graph
    requires from in g && rmw in g
  {
    var moved := g[rmw].(edges := IncludingAll(g[rmw].edges, g[from].edges, rmw));
    var mark := if g[from].rmw.None? then Some(rmw) else g[from].rmw;
    g[rmw := moved][from := Node([], mark, g[from].clock)]
  }

  // What `addRMWEdge` does: move the edges, then link `from` to `rmw`.
  ghost predicate RmwLinked(g: Graph, h: Graph, from: Stamp, rmw: Stamp)
    requires from in g && rmw in g
  {
    RmwMade(g, h, from, rmw) && EdgeAdded(Cleared(g, from, rmw), h, from, rmw, true)
  }

  // Edges and marks alone.
  ghost predicate RmwMade(g: Graph, h: Graph, from: Stamp, rmw: Stamp)
    requires from in g && rmw in g
  {
    RmwsFollow(Cleared(g, from, rmw)) && EdgeMade(Cleared(g, from, rmw), h, from, rmw, true)
  }

  // Where `from` had no RMW yet, it ends up with `rmw` as its only successor.
  lemma FirstRmwAdded(g: Graph, h: Graph, from: Stamp, rmw: Stamp)
    requires from in g && rmw in g && from != rmw && g[from].rmw.None? && RmwMade(g, h, from, rmw)
    ensures RmwPlaced(g, h, from, rmw) && (RmwLinked(g, h, from, rmw) ==> RmwAdded(g, h, from, rmw))
  {
    var c := Cleared(g, from, rmw);
    assert ChainEnd(c, from, rmw) == from;
    assert WithEdge(c, from, rmw)[from] == WithRmw(g, from, rmw)[from];
    assert WithEdge(c, from, rmw) == WithRmw(g, from, rmw);
  }

  // No edges in or out.
  ghost predicate Unlinked(g: Graph, s: Stamp) {
    && s in g && g[s].edges == [] && g[s].rmw.None?
    && forall a :: a in g && a != s ==> s !in g[a].edges
  }

  // Not yet exposed to anything, and unknown to other nodes.
  ghost predicate FreshNode(g: Graph, s: Stamp) {
    && Unlinked(g, s) && g[s] == Lone(s) && s.num > 0
    && forall a :: a in g && a != s ==> At(g[a].clock, s.tid) < s.num
  }

  lemma WithRmwReachFrom(g: Graph, from: Stamp, rmw: Stamp, x: Stamp, y: Stamp)
    requires Closed(g) && from in g && from != rmw && Unlinked(g, rmw)
    requires x != rmw && Reach(WithRmw(g, from, rmw), x, y)
    ensures if y == rmw then Reach(g, x, from) else Reach(g, x, y)
  {
    var g1 := WithRmw(g, from, rmw);
    var p :| PathFrom(g1, p, x, y);
    assert p[0] in g1;
    ReachSelf(g, x);
    var s := set a | a in g && Reach(g, x, if a == rmw then from else a);
    forall a, b | Edge(g1, a, b) && a in s ensures b in s {
      if a == rmw {
        assert Edge(g, from, b);
        ReachEdge(g, from, b);
        ReachTrans(g, x, from, b);
      } else if a != from {
        assert Edge(g, a, b);
        ReachEdge(g, a, b);
        ReachTrans(g, x, a, b);
      }
    }
    ReachInduct(g1, s, x, y);
  }

  lemma WithRmwKeepsReach(g: Graph, from: Stamp, rmw: Stamp, x: Stamp, y: Stamp)
    requires Closed(g) && from in g && from != rmw && Unlinked(g, rmw)
    requires Reach(g, x, y)
    ensures Reach(WithRmw(g, from, rmw), x, y)
  {
    var g1 := WithRmw(g, from, rmw);
    var p :| PathFrom(g, p, x, y);
    assert p[0] in g;
    ReachSelf(g1, x);
    ReachEdge(g1, from, rmw);
    var s := set a | a in g && Reach(g1, x, a);
    forall a, b | Edge(g, a, b) && a in s ensures b in s {
      if a == from {
        ReachEdge(g1, rmw, b);
        ReachTrans(g1, from, rmw, b);
      } else {
        ReachEdge(g1, a, b);
      }
      ReachTrans(g1, x, a, b);
    }
    ReachInduct(g, s, x, y);
  }

  // `x` lies strictly after `a`.
  ghost predicate After(g: Graph, a: Stamp, x: Stamp) {
    exists b :: Edge(g, a, b) && Reach(g, b, x)
  }

  lemma WithRmwReachOnward(g: Graph, from: Stamp, rmw: Stamp, x: Stamp)
    requires Closed(g) && from in g && from != rmw && Unlinked(g, rmw) && x in g && x != rmw
    ensures Reach(WithRmw(g, from, rmw), rmw, x) <==> After(g, from, x)
  {
    var g1 := WithRmw(g, from, rmw);
    if Reach(g1, rmw, x) {
      var b := FirstEdge(g1, rmw, x);
      WithRmwReachFrom(g, from, rmw, b, x);
      assert Edge(g, from, b);
    }
    if After(g, from, x) {
      var b :| Edge(g, from, b) && Reach(g, b, x);
      WithRmwKeepsReach(g, from, rmw, b, x);
      ReachEdge(g1, rmw, b);
      ReachTrans(g1, rmw, b, x);
    }
  }

  // Reachability around a new RMW: unchanged among the other stores, while the
  // RMW sits right behind `from`, after whatever reached `from` and before all
  // that `from` preceded.
  lemma RmwReach(g: Graph, h: Graph, from: Stamp, rmw: Stamp, x: Stamp, y: Stamp)
    requires Closed(g) && from in g && from != rmw && Unlinked(g, rmw) && RmwPlaced(g, h, from, rmw)
    requires x in g && y in g && x != rmw && y != rmw
    ensures Reach(h, x, y) <==> Reach(g, x, y)
    ensures Reach(h, x, rmw) <==> Reach(g, x, from)
    ensures Reach(h, rmw, x) <==> After(g, from, x)
  {
    var g1 := WithRmw(g, from, rmw);
    ReachSameShape(g1, h, x, y);
    ReachSameShape(g1, h, x, rmw);
    ReachSameShape(g1, h, rmw, x);
    if Reach(g1, x, y) {
      WithRmwReachFrom(g, from, rmw, x, y);
    }
    if Reach(g, x, y) {
      WithRmwKeepsReach(g, from, rmw, x, y);
    }
    if Reach(g1, x, rmw) {
      WithRmwReachFrom(g, from, rmw, x, rmw);
    }
    if Reach(g, x, from) {
      WithRmwKeepsReach(g, from, rmw, x, from);
      ReachEdge(g1, from, rmw);
      ReachTrans(g1, x, from, rmw);
    }
    WithRmwReachOnward(g, from, rmw, x);
  }

  lemma RmwKeepsAcyclic(g: Graph, h: Graph, from: Stamp, rmw: Stamp)
    requires Closed(g) && from in g && from != rmw && Unlinked(g, rmw) && RmwPlaced(g, h, from, rmw)
    ensures Acyclic(h) <==> Acyclic(g)
  {
    ReachSelf(g, from);
    if Acyclic(g) {
      forall a, b | Edge(h, a, b) ensures !Reach(h, b, a) {
        if a == rmw {
          assert Edge(g, from, b);
          RmwReach(g, h, from, rmw, b, b);
        } else if b == rmw {
          RmwReach(g, h, from, rmw, a, a);
        } else {
          assert Edge(g, a, b);
          RmwReach(g, h, from, rmw, b, a);
        }
      }
    }
    if Acyclic(h) {
      forall a, b | Edge(g, a, b) ensures !Reach(g, b, a) {
        RmwReach(g, h, from, rmw, b, a);
        if a == from {
          assert Edge(h, rmw, b);
        } else {
          assert Edge(h, a, b);
        }
        RmwReach(g, h, from, rmw, b, b);
      }
    }
  }

  lemma RmwKeepsRmws(g: Graph, h: Graph, from: Stamp, rmw: Stamp)
    requires RmwsImmediate(g) && from in g && from.num < rmw.num && Unlinked(g, rmw) && RmwPlaced(g, h, from, rmw)
    ensures RmwsImmediate(h)
  {
    var g1 := WithRmw(g, from, rmw);
    forall a | a in g && a != from ensures g1[a].rmw == g[a].rmw != Some(rmw) {
      if g[a].rmw == Some(rmw) {
        assert false;
      }
    }
    forall a {:trigger h[a].rmw} | a in h && h[a].rmw.Some?
      ensures h[a].rmw.value in h && a.num < h[a].rmw.value.num
      ensures h[a].edges == [h[a].rmw.value]
    {
      assert h[a].rmw == g1[a].rmw && h[a].edges == g1[a].edges;
      assert a != from ==> a != rmw && g1[a] == g[a];
    }
    forall a, b | a in h && b in h && h[a].rmw.Some? && h[a].rmw == h[b].rmw ensures a == b {
      assert h[a].rmw == g1[a].rmw && h[b].rmw == g1[b].rmw;
    }
  }

  // ---- A second RMW ----

  lemma ChainsOnward(g: Graph, c: Graph, rmw: Stamp, x: Stamp)
    requires RmwsImmediate(g) && RmwsFollow(c) && Unlinked(g, rmw) && x in g && x != rmw && x in c
    requires forall a :: a in g && a != rmw && a.num >= x.num ==>
      a in c && c[a].rmw == g[a].rmw && c[a].edges == g[a].edges
    ensures ChainEnd(c, x, rmw) != rmw && Reach(c, x, ChainEnd(c, x, rmw))
    decreases Later(c, x.num)
  {
    ReachSelf(c, x);
    if c[x].rmw.Some? {
      var next := c[x].rmw.value;
      assert g[x].edges == [next] && next != rmw && Edge(c, x, next);
      ReachEdge(c, x, next);
      assert next in Later(c, x.num) && next !in Later(c, next.num) && Later(c, next.num) <= Later(c, x.num);
      ChainsOnward(g, c, rmw, next);
      ReachTrans(c, x, next, ChainEnd(c, next, rmw));
    }
  }

  // A second RMW on one store closes a cycle at once: it precedes the first one,
  // to which `from`'s edge has moved, and is linked behind it.
  lemma SecondRmwCloses(g: Graph, h: Graph, from: Stamp, rmw: Stamp)
    requires RmwsImmediate(g) && from in g && from != rmw && Unlinked(g, rmw)
    requires g[from].rmw.Some? && RmwMade(g, h, from, rmw)
    ensures !Acyclic(h)
  {
    var c := Cleared(g, from, rmw);
    var first := g[from].rmw.value;
    assert g[from].edges == [first] && first != rmw && first != from;
    ChainsOnward(g, c, rmw, first);
    var e := ChainEnd(c, from, rmw);
    assert e == ChainEnd(c, first, rmw);
    assert Edge(c, rmw, first);
    ReachEdge(c, rmw, first);
    ReachTrans(c, rmw, first, e);
    ReachWithin(c, h, rmw, e);
    assert Edge(h, e, rmw);
  }

  // So `addRMWEdge` keeps the graph acyclic exactly on a store no RMW has read.
  lemma RmwLinkKeepsAcyclicIff(g: Graph, h: Graph, from: Stamp, rmw: Stamp)
    requires Closed(g) && RmwsImmediate(g) && from in g && from != rmw && Unlinked(g, rmw) && RmwMade(g, h, from, rmw)
    ensures Acyclic(h) <==> Acyclic(g) && g[from].rmw.None?
  {
    if g[from].rmw.None? {
      FirstRmwAdded(g, h, from, rmw);
      RmwKeepsAcyclic(g, h, from, rmw);
    } else {
      SecondRmwCloses(g, h, from, rmw);
    }
  }

  // ---- The clocks around a new RMW ----

  lemma RmwClocks(g: Graph, h: Graph, from: Stamp, rmw: Stamp, a: Stamp, t: nat)
    requires from in g && from != rmw && rmw in g && RmwAdded(g, h, from, rmw)
    requires !Leq(g[from].clock, g[rmw].clock) && a in g
    ensures At(h[a].clock, t) ==
      Max(At(g[a].clock, t),
          if Reach(h, rmw, a) then Max(At(g[rmw].clock, t), At(g[from].clock, t)) else 0)
  {
    var g1 := WithRmw(g, from, rmw);
    assert g1[rmw].clock == g[rmw].clock && g1[a].clock == g[a].clock;
    AbsorbedShape(g1, h, rmw, g[from].clock);
    FloodedClocks(g1, h, rmw, g[from].clock, a, t);
  }

  lemma FloodedClocks(g: Graph, h: Graph, to: Stamp, m: Clock, a: Stamp, t: nat)
    requires to in g && a in g && Absorbed(g, h, to, m) && SameShape(g, h) && !Leq(m, g[to].clock)
    ensures At(h[a].clock, t) ==
      Max(At(g[a].clock, t), if Reach(h, to, a) then Max(At(g[to].clock, t), At(m, t)) else 0)
  {
    var g2 := g[to := g[to].(clock := Join(g[to].clock, m))];
    assert SameShape(g2, h);
    ReachSameShape(g2, h, to, a);
    ReachSelf(h, to);
    assert At(g2[to].clock, t) == Max(At(g[to].clock, t), At(m, t));
    assert FloodedAt(g2, h, to, a, t);
  }

  lemma RmwKeepsOrder(g: Graph, h: Graph, from: Stamp, rmw: Stamp)
    requires Indexed(g) && from in g && from != rmw && FreshNode(g, rmw) && RmwAdded(g, h, from, rmw)
    requires !Leq(g[from].clock, g[rmw].clock)
    ensures Ordered(h)
  {
    AbsorbedShape(WithRmw(g, from, rmw), h, rmw, g[from].clock);
    ReachSelf(h, rmw);
    forall a, b, t: nat | Edge(h, a, b) && b in h ensures At(h[a].clock, t) <= At(h[b].clock, t) {
      RmwClocks(g, h, from, rmw, a, t);
      RmwClocks(g, h, from, rmw, b, t);
      ReachEdge(h, a, b);
      if Reach(h, rmw, a) {
        ReachTrans(h, rmw, a, b);
      }
      if a != rmw && b != rmw {
        assert Edge(g, a, b) && Leq(g[a].clock, g[b].clock);
        assert At(g[a].clock, t) <= At(g[b].clock, t);
      }
    }
    forall a, b | Edge(h, a, b) && b in h ensures Leq(h[a].clock, h[b].clock) {
    }
  }

  lemma RmwAttained(g: Graph, h: Graph, from: Stamp, rmw: Stamp)
    requires Indexed(g) && from in g && from != rmw && FreshNode(g, rmw) && RmwAdded(g, h, from, rmw)
    requires !Leq(g[from].clock, g[rmw].clock)
    ensures Attained(h)
  {
    AbsorbedShape(WithRmw(g, from, rmw), h, rmw, g[from].clock);
    ReachSelf(g, from);
    RmwReach(g, h, from, rmw, from, from);
    forall a, t: nat | a in h && At(h[a].clock, t) > 0
      ensures Reach(h, Stamp(t, At(h[a].clock, t)), a)
    {
      var w := Stamp(t, At(h[a].clock, t));
      RmwClocks(g, h, from, rmw, a, t);
      ReachSelf(h, a);
      if a != rmw && At(h[a].clock, t) == At(g[a].clock, t) {
        AncestorSurvivesRmw(g, h, from, rmw, w, a);
      } else if w != rmw {
        AncestorSurvivesRmw(g, h, from, rmw, w, from);
        ReachTrans(h, w, from, rmw);
        ReachTrans(h, w, rmw, a);
      }
    }
  }

  lemma AncestorSurvivesRmw(g: Graph, h: Graph, from: Stamp, rmw: Stamp, w: Stamp, a: Stamp)
    requires Closed(g) && from in g && from != rmw && FreshNode(g, rmw) && RmwAdded(g, h, from, rmw)
    requires Reach(g, w, a) && a != rmw
    ensures Reach(h, w, a)
  {
    AbsorbedShape(WithRmw(g, from, rmw), h, rmw, g[from].clock);
    WithRmwKeepsReach(g, from, rmw, w, a);
    ReachSameShape(WithRmw(g, from, rmw), h, w, a);
  }

  // When the merge teaches the RMW nothing and no edge moves, only the edge
  // from `from` to `rmw` is new, and no clock changes.
  lemma IdleRmwKeepsOrder(g: Graph, h: Graph, from: Stamp, rmw: Stamp)
    requires Indexed(g) && from in g && from != rmw && FreshNode(g, rmw) && RmwAdded(g, h, from, rmw)
    requires Leq(g[from].clock, g[rmw].clock) && g[from].edges == []
    ensures Ordered(h)
  {
    forall a, b | Edge(h, a, b) && b in h ensures Leq(h[a].clock, h[b].clock) {
      IdleEdge(g, h, from, rmw, a, b);
      SameClocks(g, h, from, rmw, a, b);
    }
  }

  lemma IdleEdge(g: Graph, h: Graph, from: Stamp, rmw: Stamp, a: Stamp, b: Stamp)
    requires Closed(g) && Ordered(g) && from in g && rmw in g && from != rmw && RmwPlaced(g, h, from, rmw)
    requires Leq(g[from].clock, g[rmw].clock) && g[from].edges == [] && Edge(h, a, b)
    ensures a in g && b in g && Leq(g[a].clock, g[b].clock)
  {
    assert Edge(WithRmw(g, from, rmw), a, b);
    if a != from {
      assert Edge(g, a, b);
    }
  }

  lemma SameClocks(g: Graph, h: Graph, from: Stamp, rmw: Stamp, a: Stamp, b: Stamp)
    requires from in g && from != rmw && rmw in g && RmwAdded(g, h, from, rmw) && Leq(g[from].clock, g[rmw].clock)
    requires a in g && b in g && Leq(g[a].clock, g[b].clock)
    ensures a in h && b in h && Leq(h[a].clock, h[b].clock)
  {
    var g1 := WithRmw(g, from, rmw);
    assert g1[a].clock == g[a].clock && g1[b].clock == g[b].clock;
    forall t: nat ensures At(h[a].clock, t) <= At(h[b].clock, t) {
      assert At(g[a].clock, t) <= At(g[b].clock, t);
      assert At(h[a].clock, t) == At(g1[a].clock, t) && At(h[b].clock, t) == At(g1[b].clock, t);
    }
  }

  lemma IdleRmwKeepsAttained(g: Graph, h: Graph, from: Stamp, rmw: Stamp)
    requires Indexed(g) && from in g && from != rmw && FreshNode(g, rmw) && RmwAdded(g, h, from, rmw)
    requires Leq(g[from].clock, g[rmw].clock) && g[from].edges == []
    ensures Attained(h)
  {
    AbsorbedShape(WithRmw(g, from, rmw), h, rmw, g[from].clock);
    forall a, t: nat | a in h && At(h[a].clock, t) > 0
      ensures Reach(h, Stamp(t, At(h[a].clock, t)), a)
    {
      ReachSelf(h, a);
      if a != rmw {
        AncestorSurvivesRmw(g, h, from, rmw, Stamp(t, At(h[a].clock, t)), a);
      }
    }
  }

  // The out-edges of `from` move to `rmw` without a merge of their own.  The
  // index survives exactly when the merge into `rmw` changed something, and so
  // went on to repair them, or there was nothing to move.
  lemma RmwIndexIff(g: Graph, h: Graph, from: Stamp, rmw: Stamp)
    requires Indexed(g) && from in g && from != rmw && FreshNode(g, rmw) && RmwAdded(g, h, from, rmw)
    ensures Indexed(h) <==> !Leq(g[from].clock, g[rmw].clock) || g[from].edges == []
    ensures !Indexed(h) ==> exists b :: b in h && Reach(h, rmw, b) && !CheckReachable(h, rmw, b)
  {
    if !Leq(g[from].clock, g[rmw].clock) {
      RmwKeepsOrder(g, h, from, rmw);
      RmwAttained(g, h, from, rmw);
      RmwKeepsOwnClocks(g, h, from, rmw);
    } else if g[from].edges == [] {
      IdleRmwKeepsOrder(g, h, from, rmw);
      IdleRmwKeepsAttained(g, h, from, rmw);
      RmwKeepsOwnClocks(g, h, from, rmw);
    } else {
      var b := UnrepairedEdge(g, h, from, rmw);
      if Indexed(h) {
        ReachIsFound(h, rmw, b);
      }
    }
  }

  lemma UnrepairedEdge(g: Graph, h: Graph, from: Stamp, rmw: Stamp) returns (b: Stamp)
    requires Indexed(g) && from in g && from != rmw && FreshNode(g, rmw) && RmwAdded(g, h, from, rmw)
    requires Leq(g[from].clock, g[rmw].clock) && g[from].edges != []
    ensures b in h && Reach(h, rmw, b) && !CheckReachable(h, rmw, b)
  {
    var g1 := WithRmw(g, from, rmw);
    AbsorbedShape(g1, h, rmw, g[from].clock);
    b := g[from].edges[0];
    assert Edge(g, from, b);
    assert b in g1[rmw].edges;
    ReachEdge(h, rmw, b);
    assert g1[b].clock == g[b].clock;
    assert At(h[b].clock, rmw.tid) == At(g1[b].clock, rmw.tid) < rmw.num;
  }

  lemma RmwKeepsOwnClocks(g: Graph, h: Graph, from: Stamp, rmw: Stamp)
    requires Indexed(g) && from in g && from != rmw && FreshNode(g, rmw) && RmwAdded(g, h, from, rmw)
    ensures Closed(h) && OwnClocks(h)
  {
    AbsorbedShape(WithRmw(g, from, rmw), h, rmw, g[from].clock);
    WithRmwClosed(g, h, from, rmw);
    forall a {:trigger h[a].clock} | a in h ensures 0 < a.num <= At(h[a].clock, a.tid) {
      RmwClockGrows(g, h, from, rmw, a);
    }
  }

  lemma WithRmwClosed(g: Graph, h: Graph, from: Stamp, rmw: Stamp)
    requires Closed(g) && from in g && rmw in g && SameShape(WithRmw(g, from, rmw), h)
    ensures Closed(h)
  {
    forall a, b | Edge(h, a, b) ensures b in h {
      assert b == rmw || Edge(g, a, b) || Edge(g, from, b);
    }
  }

  lemma RmwClockGrows(g: Graph, h: Graph, from: Stamp, rmw: Stamp, a: Stamp)
    requires OwnClocks(g) && from in g && from != rmw && rmw in g && RmwAdded(g, h, from, rmw) && a in g
    ensures a in h && 0 < a.num <= At(h[a].clock, a.tid)
  {
    AbsorbedShape(WithRmw(g, from, rmw), h, rmw, g[from].clock);
    assert 0 < a.num <= At(g[a].clock, a.tid);
    if !Leq(g[from].clock, g[rmw].clock) {
      RmwClocks(g, h, from, rmw, a, a.tid);
    }
  }
}
