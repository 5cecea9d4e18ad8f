// The reasoning behind the clock-propagation worklist, on graph values.

module Propagation {
  import opened Clocks
  import opened MoGraph

  // Edges out of every node but `to` are in clock order.
  ghost predicate SettledBut(g: Graph, to: Stamp) {
    forall a, b :: Edge(g, a, b) && a != to && b in g ==> Leq(g[a].clock, g[b].clock)
  }

  // Part-way through carrying `to`'s clock onward from the state `g0`: each
  // clock entry is as it was or has taken `to`'s value, and edges may be out of
  // clock order only where they leave a node still on the worklist.
  ghost predicate Wave(g0: Graph, g: Graph, to: Stamp, work: set<Stamp>)
    requires to in g0
  {
    && SameShape(g0, g)
    && (forall a, t: nat :: a in g0 ==> EntryOk(g0, g, to, a, t))
    && (forall a :: a in work ==> a in g0 && Reach(g0, to, a))
    && (forall a, b :: Edge(g0, a, b) && b in g0 && a !in work ==> Leq(g[a].clock, g[b].clock))
  }

  ghost predicate EntryOk(g0: Graph, g: Graph, to: Stamp, a: Stamp, t: nat)
    requires to in g0 && a in g0 && a in g
  {
    || At(g[a].clock, t) == At(g0[a].clock, t)
    || (Reach(g0, to, a) && At(g0[a].clock, t) < At(g[a].clock, t) == At(g0[to].clock, t))
  }

  function Merged(g: Graph, n: Stamp, e: Stamp): Graph
    requires n in g && e in g
  {
    g[e := g[e].(clock := Join(g[e].clock, g[n].clock))]
  }

  lemma WaveStarts(g: Graph, to: Stamp)
    requires Closed(g) && to in g && SettledBut(g, to)
    ensures Wave(g, g, to, {to})
  {
    ReachSelf(g, to);
    forall a, t: nat | a in g ensures EntryOk(g, g, to, a, t) {
    }
  }

  lemma MergeEntry(g0: Graph, g: Graph, to: Stamp, work: set<Stamp>, n: Stamp, e: Stamp, t: nat)
    requires Closed(g0) && to in g0 && SettledBut(g0, to) && Wave(g0, g, to, work)
    requires n in work && Edge(g0, n, e)
    ensures n in g && e in g && EntryOk(g0, Merged(g, n, e), to, e, t)
    ensures At(g[n].clock, t) > At(g[e].clock, t) ==> At(g[n].clock, t) == At(g0[to].clock, t)
  {
    assert EntryOk(g0, g, to, n, t);
    assert EntryOk(g0, g, to, e, t);
    ReachEdge(g0, n, e);
    ReachTrans(g0, to, n, e);
    if n != to {
      assert Leq(g0[n].clock, g0[e].clock);
      assert At(g0[n].clock, t) <= At(g0[e].clock, t);
    }
    assert At(Merged(g, n, e)[e].clock, t) == Max(At(g[e].clock, t), At(g[n].clock, t));
  }

  // One merge along the edge n -> e keeps the wave, with `e` queued again if
  // it learnt something; the room then shrinks.
  lemma MergeKeepsWave(g0: Graph, g: Graph, to: Stamp, work: set<Stamp>, n: Stamp, e: Stamp)
    requires Closed(g0) && to in g0 && SettledBut(g0, to) && Wave(g0, g, to, work)
    requires n in work && Edge(g0, n, e)
    ensures n in g && e in g
    ensures Wave(g0, Merged(g, n, e), to, if Leq(g[n].clock, g[e].clock) then work else work + {e})
  {
    var g' := Merged(g, n, e);
    var work' := if Leq(g[n].clock, g[e].clock) then work else work + {e};
    JoinIsLeastUpperBound(g[e].clock, g[n].clock, g[e].clock);
    ReachEdge(g0, n, e);
    ReachTrans(g0, to, n, e);
    forall a, t: nat | a in g0 ensures EntryOk(g0, g', to, a, t) {
      if a == e {
        MergeEntry(g0, g, to, work, n, e, t);
      } else {
        assert EntryOk(g0, g, to, a, t);
      }
    }
    assert forall a :: a in g && a != e ==> g'[a] == g[a];
    MergeKeepsOrder(g0, g, to, work, n, e);
  }

  lemma MergeLeq(g: Graph, n: Stamp, e: Stamp, a: Stamp, b: Stamp)
    requires n in g && e in g && a in g && b in g
    requires Leq(g[a].clock, g[b].clock) || (a == n && b == e)
    requires a != e || Leq(g[n].clock, g[e].clock) || n == e
    ensures Leq(Merged(g, n, e)[a].clock, Merged(g, n, e)[b].clock)
  {
    var g' := Merged(g, n, e);
    forall t: nat ensures At(g'[a].clock, t) <= At(g'[b].clock, t) {
      assert At(g'[e].clock, t) == Max(At(g[e].clock, t), At(g[n].clock, t));
      assert Leq(g[a].clock, g[b].clock) ==> At(g[a].clock, t) <= At(g[b].clock, t);
      assert Leq(g[n].clock, g[e].clock) ==> At(g[n].clock, t) <= At(g[e].clock, t);
    }
  }

  lemma MergeKeepsOrder(g0: Graph, g: Graph, to: Stamp, work: set<Stamp>, n: Stamp, e: Stamp)
    requires Closed(g0) && to in g0 && Wave(g0, g, to, work)
    requires n in work && Edge(g0, n, e)
    ensures n in g && e in g
    ensures forall a, b ::
      (Edge(g0, a, b) && b in g0 && a !in work && (a == e ==> Leq(g[n].clock, g[e].clock))
       ==> Leq(Merged(g, n, e)[a].clock, Merged(g, n, e)[b].clock))
  {
    forall a, b | Edge(g0, a, b) && b in g0 && a !in work && (a == e ==> Leq(g[n].clock, g[e].clock))
      ensures Leq(Merged(g, n, e)[a].clock, Merged(g, n, e)[b].clock)
    {
      MergeLeq(g, n, e, a, b);
    }
  }

  // All of `done` already know what `n` knows.
  ghost predicate Informed(g: Graph, n: Stamp, done: seq<Stamp>) {
    n in g && forall b :: b in done ==> b in g && Leq(g[n].clock, g[b].clock)
  }

  // A node whose edges are all in order leaves the worklist.
  lemma WaveSettles(g0: Graph, g: Graph, to: Stamp, work: set<Stamp>, n: Stamp)
    requires to in g0 && Wave(g0, g, to, work + {n}) && n in g
    requires n in g && Informed(g, n, g[n].edges)
    ensures Wave(g0, g, to, work)
  {
    forall a, b | Edge(g0, a, b) && b in g0 && a !in work ensures Leq(g[a].clock, g[b].clock) {
      if a == n {
        assert b in g[n].edges;
      }
    }
  }

  // With an empty worklist the wave has arrived everywhere.
  lemma WaveEnds(g0: Graph, g: Graph, to: Stamp)
    requires Closed(g0) && to in g0 && Wave(g0, g, to, {})
    ensures Flooded(g0, g, to)
  {
    ReachSelf(g0, to);
    forall a, t: nat | a in g0
      ensures FloodedAt(g0, g, to, a, t)
    {
      assert EntryOk(g0, g, to, a, t);
      assert EntryOk(g0, g, to, to, t);
      if Reach(g0, to, a) {
        var s := set x | x in g0 && At(g[to].clock, t) <= At(g[x].clock, t);
        forall x, y | Edge(g0, x, y) && x in s ensures y in s {
          assert Leq(g[x].clock, g[y].clock);
          assert At(g[x].clock, t) <= At(g[y].clock, t);
        }
        ReachInduct(g0, s, to, a);
      }
    }
  }

  // ---- On any graph ----

  // An edge that was out of order to begin with, from a node untouched so far.
  ghost predicate Stale(g0: Graph, g: Graph, to: Stamp, a: Stamp, b: Stamp)
    requires a in g0 && b in g0 && a in g
  {
    a != to && Leq(g[a].clock, g0[a].clock) && !Leq(g0[a].clock, g0[b].clock)
  }

  ghost predicate InOrder(g0: Graph, g: Graph, to: Stamp, a: Stamp, b: Stamp)
    requires a in g0 && b in g0 && a in g && b in g
  {
    Leq(g[a].clock, g[b].clock) || Stale(g0, g, to, a, b)
  }

  // Clocks only grow, and only behind `to`.
  ghost predicate Grown(g0: Graph, g: Graph, to: Stamp, a: Stamp)
    requires a in g0 && a in g
  {
    Leq(g0[a].clock, g[a].clock) && (Leq(g[a].clock, g0[a].clock) || Reach(g0, to, a))
  }

  // Part-way through, on a graph with edges out of clock order anywhere.
  ghost predicate Ripple(g0: Graph, g: Graph, to: Stamp, work: set<Stamp>) {
    && SameShape(g0, g)
    && (forall a {:trigger g[a].clock} :: a in g0 ==> Grown(g0, g, to, a))
    && (forall a :: a in work ==> a in g0 && Reach(g0, to, a))
    && (forall a, b {:trigger Edge(g0, a, b)} :: Edge(g0, a, b) && b in g0 && a !in work ==> InOrder(g0, g, to, a, b))
  }

  // What the worklist leaves: no edge is out of order but those that were, from
  // nodes the news has not changed.
  ghost predicate Carried(g0: Graph, g: Graph, to: Stamp) {
    Ripple(g0, g, to, {})
  }

  lemma RippleStarts(g: Graph, to: Stamp)
    requires Closed(g) && to in g
    ensures Ripple(g, g, to, {to})
  {
    ReachSelf(g, to);
  }

  lemma MergedClock(g: Graph, n: Stamp, e: Stamp)
    requires n in g && e in g
    ensures Leq(g[e].clock, Merged(g, n, e)[e].clock) && Leq(g[n].clock, Merged(g, n, e)[e].clock)
    ensures Leq(g[n].clock, g[e].clock) ==> Leq(Merged(g, n, e)[e].clock, g[e].clock)
  {
    JoinIsLeastUpperBound(g[e].clock, g[n].clock, g[e].clock);
  }

  lemma LeqTrans(c: Clock, d: Clock, e: Clock)
    requires Leq(c, d) && Leq(d, e)
    ensures Leq(c, e)
  {
    forall t: nat ensures At(c, t) <= At(e, t) {
      assert At(c, t) <= At(d, t) <= At(e, t);
    }
  }

  lemma MergeGrows(g0: Graph, g: Graph, to: Stamp, n: Stamp, e: Stamp, a: Stamp)
    requires n in g && e in g && a in g && a in g0 && Grown(g0, g, to, a) && Reach(g0, to, e)
    ensures Grown(g0, Merged(g, n, e), to, a)
  {
    MergedClock(g, n, e);
    if a == e {
      LeqTrans(g0[a].clock, g[a].clock, Merged(g, n, e)[a].clock);
    }
  }

  lemma MergeKeepsInOrder(g0: Graph, g: Graph, to: Stamp, n: Stamp, e: Stamp, a: Stamp, b: Stamp)
    requires n in g && e in g && a in g && b in g && a in g0 && b in g0 && InOrder(g0, g, to, a, b)
    requires a != e || Leq(g[n].clock, g[e].clock)
    ensures InOrder(g0, Merged(g, n, e), to, a, b)
  {
    var h := Merged(g, n, e);
    MergedClock(g, n, e);
    if Leq(g[a].clock, g[b].clock) {
      MergeLeq(g, n, e, a, b);
    } else if a == e {
      LeqTrans(h[a].clock, g[a].clock, g0[a].clock);
    }
  }

  lemma MergeKeepsRipple(g0: Graph, g: Graph, to: Stamp, work: set<Stamp>, n: Stamp, e: Stamp)
    requires Closed(g0) && Ripple(g0, g, to, work) && n in work && Edge(g0, n, e)
    ensures n in g && e in g
    ensures Ripple(g0, Merged(g, n, e), to, if Leq(g[n].clock, g[e].clock) then work else work + {e})
  {
    var h, work' := Merged(g, n, e), if Leq(g[n].clock, g[e].clock) then work else work + {e};
    ReachEdge(g0, n, e);
    ReachTrans(g0, to, n, e);
    forall a | a in g0 ensures Grown(g0, h, to, a) {
      assert g[a].clock == g[a].clock;
      MergeGrows(g0, g, to, n, e, a);
    }
    forall a, b | Edge(g0, a, b) && b in g0 && a !in work' ensures InOrder(g0, h, to, a, b) {
      MergeKeepsInOrder(g0, g, to, n, e, a, b);
    }
  }

  // ---- The measure ----

  // No clock is longer than `len` or has an entry above `top`.
  ghost predicate Bounded(g: Graph, len: nat, top: nat) {
    forall a {:trigger g[a].clock} :: a in g ==> |g[a].clock| <= len && forall t: nat :: At(g[a].clock, t) <= top
  }

  lemma EntriesBounded(c: Clock) returns (top: nat)
    ensures forall t: nat :: At(c, t) <= top
  {
    top := 0;
    for i := 0 to |c|
      invariant forall t :: 0 <= t < i ==> c[t] <= top
    {
      top := Max(top, c[i]);
    }
  }

  // Every graph has such bounds, being finite.
  lemma BoundsExist(g: Graph) returns (len: nat, top: nat)
    ensures Bounded(g, len, top)
    decreases |g|
  {
    len, top := 0, 0;
    if g != map[] {
      var a :| a in g;
      var rest := g - {a};
      assert rest.Keys == g.Keys - {a};
      var l, k := BoundsExist(rest);
      var k' := EntriesBounded(g[a].clock);
      len, top := Max(l, |g[a].clock|), Max(k, k');
      forall b | b in g ensures |g[b].clock| <= len && forall t: nat :: At(g[b].clock, t) <= top {
        if b != a {
          assert rest[b].clock == g[b].clock;
        }
      }
    }
  }

  // What the clocks may still learn.
  ghost function Headroom(g: Graph, len: nat, top: nat): set<(Stamp, nat, nat)> {
    set a, t: nat, v: nat | a in g.Keys && 0 <= t < len && 0 <= v <= top && At(g[a].clock, t) < v :: (a, t, v)
  }

  lemma MergeKeepsBounded(g: Graph, n: Stamp, e: Stamp, len: nat, top: nat)
    requires n in g && e in g && Bounded(g, len, top)
    ensures Bounded(Merged(g, n, e), len, top)
  {
    var h := Merged(g, n, e);
    assert |g[n].clock| <= len && |g[e].clock| <= len;
    forall a | a in h ensures |h[a].clock| <= len && forall t: nat :: At(h[a].clock, t) <= top {
      assert |g[a].clock| <= len;
    }
  }

  lemma MergeUsesHeadroom(g: Graph, n: Stamp, e: Stamp, len: nat, top: nat)
    requires n in g && e in g && Bounded(g, len, top)
    ensures Leq(g[n].clock, g[e].clock) ==> Headroom(Merged(g, n, e), len, top) == Headroom(g, len, top)
    ensures !Leq(g[n].clock, g[e].clock) ==> Headroom(Merged(g, n, e), len, top) < Headroom(g, len, top)
  {
    var h := Merged(g, n, e);
    assert forall t: nat :: At(h[e].clock, t) == Max(At(g[e].clock, t), At(g[n].clock, t));
    if !Leq(g[n].clock, g[e].clock) {
      var t: nat :| At(g[n].clock, t) > At(g[e].clock, t);
      assert |g[n].clock| <= len;
      var x := (e, t, At(g[n].clock, t));
      assert x in Headroom(g, len, top) && x !in Headroom(h, len, top);
    }
  }

  // ---- The two together ----

  // The state of the worklist: a wave too, where the graph was settled.
  ghost predicate Spreading(g0: Graph, g: Graph, to: Stamp, work: set<Stamp>) {
    && Closed(g0) && to in g0 && Ripple(g0, g, to, work)
    && (SettledBut(g0, to) ==> Wave(g0, g, to, work))
  }

  lemma SpreadStarts(g: Graph, to: Stamp)
    requires Closed(g) && to in g
    ensures Spreading(g, g, to, {to})
  {
    RippleStarts(g, to);
    if SettledBut(g, to) {
      WaveStarts(g, to);
    }
  }

  lemma InformedMore(g: Graph, n: Stamp, e: Stamp, done: seq<Stamp>)
    requires n in g && e in g && Informed(g, n, done)
    ensures Informed(Merged(g, n, e), n, done + [e])
  {
    var h := Merged(g, n, e);
    MergedClock(g, n, e);
    forall b | b in done + [e] ensures b in h && Leq(h[n].clock, h[b].clock) {
      if b in done {
        MergeLeq(g, n, e, n, b);
      } else {
        MergeLeq(g, n, e, n, e);
      }
    }
  }

  // One merge along the edge n -> e, whatever the graph: `e` is queued again if it
  // learnt something, and then there is less to learn.
  lemma MergeStep(g0: Graph, g: Graph, to: Stamp, queued: set<Stamp>, n: Stamp, e: Stamp, done: seq<Stamp>)
    requires Spreading(g0, g, to, queued + {n}) && Edge(g0, n, e) && Informed(g, n, done)
    ensures e in g
    ensures Spreading(g0, Merged(g, n, e), to, (if Leq(g[n].clock, g[e].clock) then queued else queued + {e}) + {n})
    ensures Informed(Merged(g, n, e), n, done + [e])
  {
    MergeKeepsRipple(g0, g, to, queued + {n}, n, e);
    if SettledBut(g0, to) {
      MergeKeepsWave(g0, g, to, queued + {n}, n, e);
    }
    InformedMore(g, n, e, done);
    assert queued + {n} + {e} == queued + {e} + {n};
  }

  // A node whose edges are all in order leaves the worklist.
  lemma NodeSettles(g0: Graph, g: Graph, to: Stamp, work: set<Stamp>, n: Stamp)
    requires Spreading(g0, g, to, work + {n}) && n in g && Informed(g, n, g[n].edges)
    ensures Spreading(g0, g, to, work)
  {
    if SettledBut(g0, to) {
      WaveSettles(g0, g, to, work, n);
    }
    forall a, b | Edge(g0, a, b) && b in g0 && a !in work ensures InOrder(g0, g, to, a, b) {
      if a == n {
        assert b in g[n].edges;
      }
    }
  }

  // With an empty worklist the news has arrived.
  lemma SpreadEnds(g0: Graph, g: Graph, to: Stamp)
    requires Spreading(g0, g, to, {})
    ensures Carried(g0, g, to) && (SettledBut(g0, to) ==> Flooded(g0, g, to))
  {
    if SettledBut(g0, to) {
      WaveEnds(g0, g, to);
    }
  }
}
