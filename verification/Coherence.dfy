// Runs of plain loads and stores on one location: what holds between the
// happens-before clocks and the modification-order graph in every state.

module Coherence {
  import opened Options
  import opened Clocks
  import opened MoGraph
  import opened MoGraphLaws
  import opened EdgeSets
  import opened ModificationOrder

  // An executed load or store: the store it read, if a load; its clock; and the
  // clock that an acquire load of it takes over, if a store (its own clock for a
  // release store, that of the last release fence before it otherwise); and the
  // value stored or read.
  datatype Access = Access(stamp: Stamp, isWrite: bool, readsFrom: Stamp, cv: Clock, released: Clock, value: nat)

  // The store an access observes: itself, or the one it read.
  function Source(a: Access): Stamp {
    if a.isWrite then a.stamp else a.readsFrom
  }

  predicate HappensBefore(a: Access, b: Access) {
    SynchronizedSince(b.cv, a.stamp)
  }

  ghost predicate AtOrBefore(g: Graph, x: Stamp, y: Stamp) {
    x == y || Reach(g, x, y)
  }

  // ---- The state of a run ----

  // An access carries its own number, and clocks name only past actions.
  ghost predicate WellTimed(a: Access) {
    && 0 < a.stamp.num == At(a.cv, a.stamp.tid)
    && (forall t: nat :: At(a.cv, t) <= a.stamp.num)
    && Leq(a.released, a.cv)
  }

  ghost predicate Timeline(hist: set<Access>, last: nat) {
    && (forall a :: a in hist ==> a.stamp.num <= last)
    && (forall a {:trigger WellTimed(a)} :: a in hist ==> WellTimed(a))
    && (forall a, b :: a in hist && b in hist && a.stamp.num == b.stamp.num ==> a == b)
  }

  ghost predicate Stored(hist: set<Access>, s: Stamp) {
    exists w :: w in hist && w.isWrite && w.stamp == s
  }

  ghost predicate ReadsStored(hist: set<Access>) {
    forall a {:trigger a.readsFrom} :: a in hist && !a.isWrite ==>
      Stored(hist, a.readsFrom) && a.readsFrom.num < a.stamp.num
  }

  ghost predicate NoRmws(g: Graph) {
    forall a {:trigger g[a].rmw} :: a in g ==> g[a].rmw.None?
  }

  ghost predicate GraphOf(g: Graph, hist: set<Access>) {
    && Indexed(g) && NoRmws(g) && Acyclic(g)
    && forall s {:trigger Stored(hist, s)} :: s in g ==> Stored(hist, s)
  }

  // Happens-before never runs against modification order.
  ghost predicate Coherent(g: Graph, hist: set<Access>) {
    forall a, b {:trigger HappensBefore(a, b)} :: a in hist && b in hist && a != b && HappensBefore(a, b) ==>
      AtOrBefore(g, Source(a), Source(b))
  }

  ghost predicate Consistent(g: Graph, hist: set<Access>, last: nat) {
    Timeline(hist, last) && ReadsStored(hist) && GraphOf(g, hist) && Coherent(g, hist)
  }

  lemma EmptyIsConsistent()
    ensures Consistent(map[], {}, 0)
  {
  }

  // C++11, section 1.10 paragraphs 15 to 18: write-write, read-write, read-read
  // and write-read coherence.
  lemma CoherenceAxioms(g: Graph, hist: set<Access>, last: nat, a: Access, b: Access)
    requires Consistent(g, hist, last) && a in hist && b in hist && a != b && HappensBefore(a, b)
    ensures a.isWrite && b.isWrite ==> Reach(g, a.stamp, b.stamp) && !Reach(g, b.stamp, a.stamp)
    ensures !a.isWrite && b.isWrite ==> Reach(g, a.readsFrom, b.stamp) && !Reach(g, b.stamp, a.readsFrom)
    ensures !a.isWrite && !b.isWrite ==> a.readsFrom == b.readsFrom || !Reach(g, b.readsFrom, a.readsFrom)
    ensures a.isWrite && !b.isWrite ==> a.stamp == b.readsFrom || !Reach(g, b.readsFrom, a.stamp)
  {
    assert WellTimed(a) && WellTimed(b);
    assert a.stamp.num <= At(b.cv, a.stamp.tid) <= b.stamp.num;
    assert a.stamp.num < b.stamp.num;
    assert AtOrBefore(g, Source(a), Source(b));
    if Reach(g, Source(b), Source(a)) && Source(a) != Source(b) {
      AcyclicAntisymmetric(g, Source(a), Source(b));
    }
    if b.isWrite {
      assert Source(a) != Source(b);
      if Reach(g, Source(b), Source(a)) {
        AcyclicAntisymmetric(g, Source(a), Source(b));
      }
    }
  }

  // ---- Consequences for the graph ----

  lemma StoresOfThreadChained(g: Graph, hist: set<Access>, last: nat, u: Stamp, v: Stamp)
    requires Consistent(g, hist, last) && Stored(hist, u) && Stored(hist, v) && u.tid == v.tid && u.num <= v.num
    ensures AtOrBefore(g, u, v)
  {
    var a :| a in hist && a.isWrite && a.stamp == u;
    var b :| b in hist && b.isWrite && b.stamp == v;
    assert WellTimed(b);
    assert HappensBefore(a, b);
  }

  lemma ConsistentIsChained(g: Graph, hist: set<Access>, last: nat)
    requires Consistent(g, hist, last)
    ensures Chained(g)
  {
    forall u, v | u in g && v in g && u.tid == v.tid && u.num <= v.num ensures Reach(g, u, v) {
      StoresOfThreadChained(g, hist, last, u, v);
      ReachSelf(g, u);
    }
  }

  lemma NoRmwsImmediate(g: Graph)
    requires NoRmws(g)
    ensures RmwsImmediate(g)
  {
  }

  // `checkReachable` is exact in every state of a run, on any two stores.
  lemma CheckReachableExact(g: Graph, hist: set<Access>, last: nat, u: Stamp, v: Stamp)
    requires Consistent(g, hist, last) && Stored(hist, u) && Stored(hist, v) && u != v
    ensures CheckReachable(g, u, v) <==> Reach(g, u, v)
  {
    ConsistentIsChained(g, hist, last);
    if u in g && v in g {
      IndexIsExact(g, u, v);
    }
    if Reach(g, u, v) {
      var p :| PathFrom(g, p, u, v);
      assert p[0] in g && p[|p| - 1] in g;
    }
  }

  // ---- New nodes ----

  lemma NodeKeepsConsistent(g: Graph, hist: set<Access>, last: nat, s: Stamp)
    requires Consistent(g, hist, last) && Stored(hist, s)
    ensures Consistent(WithNode(g, s), hist, last)
  {
    var h := WithNode(g, s);
    var w :| w in hist && w.isWrite && w.stamp == s;
    assert WellTimed(w);
    NodeKeepsGraph(g, s);
    forall a, b | a in hist && b in hist && a != b && HappensBefore(a, b)
      ensures AtOrBefore(h, Source(a), Source(b))
    {
      assert AtOrBefore(g, Source(a), Source(b));
      NodeKeepsReach(g, s, Source(a), Source(b));
    }
    assert GraphOf(h, hist);
  }

  lemma NodeKeepsGraph(g: Graph, s: Stamp)
    requires Indexed(g) && NoRmws(g) && Acyclic(g) && s.num > 0
    ensures Indexed(WithNode(g, s)) && NoRmws(WithNode(g, s)) && Acyclic(WithNode(g, s))
  {
    var h := WithNode(g, s);
    NodeKeepsIndex(g, s);
    forall a, b | Edge(h, a, b) ensures !Reach(h, b, a) {
      assert Edge(g, a, b);
      NodeKeepsReach(g, s, b, a);
    }
  }

  lemma NodesKeepConsistent(g: Graph, hist: set<Access>, last: nat, s: set<Stamp>)
    requires Consistent(g, hist, last) && forall a :: a in s ==> Stored(hist, a)
    ensures Consistent(WithNodes(g, s), hist, last)
    decreases s
  {
    if s == {} {
      assert WithNodes(g, s) == g;
    } else {
      var a :| a in s;
      NodesKeepConsistent(g, hist, last, s - {a});
      NodeKeepsConsistent(WithNodes(g, s - {a}), hist, last, a);
      WithNodesOneMore(g, s - {a}, a);
      assert s - {a} + {a} == s;
    }
  }

  lemma NodesKeepReach(g: Graph, s: set<Stamp>, x: Stamp, y: Stamp)
    requires Reach(g, x, y)
    ensures Reach(WithNodes(g, s), x, y)
  {
    ReachWithin(g, WithNodes(g, s), x, y);
  }

  // ---- A store ----

  ghost predicate InSet(es: seq<Stamp>, g: Graph, x: Stamp) {
    exists e :: e in es && AtOrBefore(g, x, e)
  }

  // What `w_modification_order` collects: stores at or after everything that
  // happens before `curr`.
  ghost predicate Gathers(g: Graph, hist: set<Access>, cv: Clock, es: seq<Stamp>) {
    && (forall e :: e in es ==> Stored(hist, e))
    && (forall a :: a in hist && SynchronizedSince(cv, a.stamp) ==> InSet(es, g, Source(a)))
  }

  ghost predicate Fresh(curr: Access, last: nat) {
    WellTimed(curr) && last < curr.stamp.num
  }

  lemma LaterThanAll(g: Graph, hist: set<Access>, last: nat, curr: Access, a: Access)
    requires Consistent(g, hist, last) && last < curr.stamp.num && a in hist
    ensures !HappensBefore(curr, a) && a != curr && a.stamp != curr.stamp && Source(a) != curr.stamp
  {
    assert WellTimed(a);
    assert At(a.cv, curr.stamp.tid) <= a.stamp.num;
  }

  lemma NotStoredYet(hist: set<Access>, last: nat, curr: Stamp)
    requires Timeline(hist, last) && last < curr.num
    ensures !Stored(hist, curr)
  {
  }

  // A store not yet executed is unknown to the graph.
  lemma UnknownToGraph(g: Graph, hist: set<Access>, last: nat, curr: Stamp, x: Stamp)
    requires Consistent(g, hist, last) && last < curr.num && Reach(WithNode(g, curr), curr, x)
    ensures x == curr && curr !in g
  {
    NotStoredYet(hist, last, curr);
    NodeKeepsReach(g, curr, curr, x);
    if Reach(g, curr, x) {
      ReachIsInside(g, curr, x);
    }
  }

  // The graph after a store's edges: still exact and acyclic.
  lemma StoreGraph(g: Graph, hist: set<Access>, last: nat, curr: Stamp, kept: seq<Stamp>, h: Graph)
    requires Consistent(g, hist, last) && last < curr.num
    requires (forall k :: k in kept ==> k in g) && EdgesAdded(WithNode(g, curr), h, kept, curr)
    ensures Indexed(h) && NoRmws(h) && Acyclic(h) && h.Keys == g.Keys + {curr}
    ensures Within(WithNode(g, curr), h)
  {
    NodeKeepsGraph(g, curr);
    ReachSelf(WithNode(g, curr), curr);
    UnknownToGraph(g, hist, last, curr, curr);
    forall e | e in kept ensures !Reach(WithNode(g, curr), curr, e) {
      if Reach(WithNode(g, curr), curr, e) {
        UnknownToGraph(g, hist, last, curr, e);
      }
    }
    EdgesKeepGraph(WithNode(g, curr), h, kept, curr);
  }

  lemma EdgesKeepGraph(g: Graph, h: Graph, kept: seq<Stamp>, curr: Stamp)
    requires Indexed(g) && NoRmws(g) && Acyclic(g)
    requires (forall k :: k in kept ==> !Reach(g, curr, k)) && EdgesAdded(g, h, kept, curr)
    ensures Indexed(h) && NoRmws(h) && Acyclic(h) && h.Keys == g.Keys && Within(g, h)
  {
    NoRmwsImmediate(g);
    EdgesKeepIndex(g, h, kept, curr);
    EdgesAddedMade(g, h, kept, curr);
    EdgesKeepAcyclic(g, h, kept, curr);
    forall a {:trigger h[a].rmw} | a in h ensures h[a].rmw.None? {
      assert g[a].rmw.None?;
    }
  }

  lemma StoreIsLast(g: Graph, hist: set<Access>, last: nat, curr: Stamp, kept: seq<Stamp>, h: Graph, k: Stamp)
    requires Consistent(g, hist, last) && last < curr.num
    requires EdgesAdded(WithNode(g, curr), h, kept, curr) && k in kept
    ensures Reach(h, k, curr)
  {
    var g1 := WithNode(g, curr);
    NodeKeepsGraph(g, curr);
    NoRmwsImmediate(g1);
    ConsistentIsChained(g, hist, last);
    forall u, v | u in g1 && v in g1 && u.tid == v.tid != curr.tid && u.num <= v.num ensures Reach(g1, u, v) {
      NodeKeepsReach(g, curr, u, v);
    }
    EdgesHold(g1, h, kept, curr, k);
  }

  // A store whose predecessors were gathered and linked keeps the state
  // consistent: it is placed after all that happens before it.
  lemma StoreStep(g: Graph, hist: set<Access>, last: nat, curr: Access, es: seq<Stamp>, kept: seq<Stamp>, h: Graph)
    requires Consistent(g, hist, last) && Fresh(curr, last) && curr.isWrite
    requires Gathers(g, hist, curr.cv, es) && Linked(g, es, kept, curr.stamp, h)
    ensures Consistent(h, hist + {curr}, curr.stamp.num)
  {
    if es != [] {
      var gn := WithNodes(g, Members(es));
      NodesKeepConsistent(g, hist, last, Members(es));
      StoreGraph(gn, hist, last, curr.stamp, kept, h);
      forall x, y | Reach(g, x, y) ensures Reach(h, x, y) {
        StillReaches(g, es, curr.stamp, h, x, y);
      }
      forall a | a in hist && HappensBefore(a, curr) ensures Reach(h, Source(a), curr.stamp) {
        PrecedesStore(g, hist, last, curr, es, kept, h, a);
      }
    }
    StoreJoins(g, hist, last, curr, h);
  }

  lemma StillReaches(g: Graph, es: seq<Stamp>, curr: Stamp, h: Graph, x: Stamp, y: Stamp)
    requires Within(WithNode(WithNodes(g, Members(es)), curr), h) && Reach(g, x, y)
    ensures Reach(h, x, y)
  {
    var gn := WithNodes(g, Members(es));
    NodesKeepReach(g, Members(es), x, y);
    ReachWithin(gn, WithNode(gn, curr), x, y);
    ReachWithin(WithNode(gn, curr), h, x, y);
  }

  lemma PrecedesStore(g: Graph, hist: set<Access>, last: nat, curr: Access, es: seq<Stamp>, kept: seq<Stamp>,
    h: Graph, a: Access)
    requires Consistent(WithNodes(g, Members(es)), hist, last) && Fresh(curr, last) && es != []
    requires Gathers(g, hist, curr.cv, es) && Linked(g, es, kept, curr.stamp, h)
    requires Within(WithNode(WithNodes(g, Members(es)), curr.stamp), h)
    requires a in hist && HappensBefore(a, curr)
    ensures Reach(h, Source(a), curr.stamp)
  {
    var gn := WithNodes(g, Members(es));
    assert InSet(es, g, Source(a));
    var e :| e in es && AtOrBefore(g, Source(a), e);
    if Source(a) != e {
      NodesKeepReach(g, Members(es), Source(a), e);
    }
    assert CoveredBy(gn, e, kept);
    var k :| k in kept && Reach(gn, e, k);
    StoreIsLast(gn, hist, last, curr.stamp, kept, h, k);
    LeadsThrough(gn, h, curr.stamp, Source(a), e, k);
  }

  lemma LeadsThrough(g: Graph, h: Graph, curr: Stamp, x: Stamp, e: Stamp, k: Stamp)
    requires Within(WithNode(g, curr), h) && AtOrBefore(g, x, e) && Reach(g, e, k) && Reach(h, k, curr)
    ensures Reach(h, x, curr)
  {
    if x != e {
      ReachTrans(g, x, e, k);
    }
    ReachWithin(g, WithNode(g, curr), x, k);
    ReachWithin(WithNode(g, curr), h, x, k);
    ReachTrans(h, x, k, curr);
  }

  lemma StoreJoins(g: Graph, hist: set<Access>, last: nat, curr: Access, h: Graph)
    requires Consistent(g, hist, last) && Fresh(curr, last) && curr.isWrite
    requires Indexed(h) && NoRmws(h) && Acyclic(h)
    requires forall s :: s in h ==> Stored(hist, s) || s == curr.stamp
    requires forall x, y :: Reach(g, x, y) ==> Reach(h, x, y)
    requires forall a :: a in hist && HappensBefore(a, curr) ==> Reach(h, Source(a), curr.stamp)
    ensures Consistent(h, hist + {curr}, curr.stamp.num)
  {
    var hist' := hist + {curr};
    forall a, b | a in hist' && b in hist' && a != b && HappensBefore(a, b)
      ensures AtOrBefore(h, Source(a), Source(b))
    {
      if a == curr {
        LaterThanAll(g, hist, last, curr, b);
      } else if b != curr {
        assert AtOrBefore(g, Source(a), Source(b));
      }
    }
    HistoryGrows(g, hist, last, curr);
    forall s | s in h ensures Stored(hist', s) {
      assert s == curr.stamp ==> curr in hist' && curr.isWrite;
    }
  }

  lemma HistoryGrows(g: Graph, hist: set<Access>, last: nat, curr: Access)
    requires Consistent(g, hist, last) && Fresh(curr, last)
    requires curr.isWrite || (Stored(hist, curr.readsFrom) && curr.readsFrom.num < curr.stamp.num)
    ensures Timeline(hist + {curr}, curr.stamp.num) && ReadsStored(hist + {curr})
    ensures forall s :: Stored(hist, s) ==> Stored(hist + {curr}, s)
  {
    var hist' := hist + {curr};
    forall s | Stored(hist, s) ensures Stored(hist', s) {
      var w :| w in hist && w.isWrite && w.stamp == s;
      assert w in hist';
    }
    forall a {:trigger a.readsFrom} | a in hist' && !a.isWrite
      ensures Stored(hist', a.readsFrom) && a.readsFrom.num < a.stamp.num
    {
    }
  }

  // ---- A load ----

  // `rf` may be read under the clock `cv`: it precedes nothing that happens
  // before the load.
  ghost predicate Readable(g: Graph, hist: set<Access>, cv: Clock, rf: Stamp) {
    && Stored(hist, rf)
    && forall a :: a in hist && SynchronizedSince(cv, a.stamp) ==> Source(a) == rf || !Reach(g, rf, Source(a))
  }

  // What becomes reachable when `ps` are ordered before `rf`.
  ghost predicate Via(g: Graph, ps: seq<Stamp>, rf: Stamp, x: Stamp, y: Stamp) {
    AtOrBefore(g, rf, y) && InSet(ps, g, x)
  }

  ghost predicate OrderedBefore(g: Graph, h: Graph, ps: seq<Stamp>, rf: Stamp) {
    forall x, y {:trigger Reach(h, x, y)} :: x != y ==> (Reach(h, x, y) <==> Reach(g, x, y) || Via(g, ps, rf, x, y))
  }

  // One of the edges `p` -> `rf` that a load adds.
  lemma PriorEdge(g: Graph, hist: set<Access>, last: nat, p: Stamp, rf: Stamp, h: Graph)
    requires Consistent(g, hist, last) && Stored(hist, p) && Stored(hist, rf) && p != rf && !Reach(g, rf, p)
    requires EdgeAdded(WithNode(WithNode(g, p), rf), h, p, rf, false)
    ensures Consistent(h, hist, last) && Reach(h, p, rf) && OrderedBefore(g, h, [p], rf)
    ensures forall x, y :: Reach(g, x, y) ==> Reach(h, x, y)
  {
    var g1 := WithNode(WithNode(g, p), rf);
    NodeKeepsConsistent(g, hist, last, p);
    NodeKeepsConsistent(WithNode(g, p), hist, last, rf);
    forall x, y ensures Reach(g1, x, y) <==> Reach(g, x, y) || x == y == p || x == y == rf {
      NodeKeepsReach(g, p, x, y);
      NodeKeepsReach(WithNode(g, p), rf, x, y);
    }
    ConsistentIsChained(g1, hist, last);
    PriorEdgeGraph(g1, p, rf, h);
    forall x, y ensures Reach(h, x, y) <==> Reach(g1, x, y) || (Reach(g1, x, p) && Reach(g1, rf, y)) {
      PriorEdgeReach(g1, p, rf, h, x, y);
    }
    OneOrdered(g, g1, h, p, rf);
    forall a, b | a in hist && b in hist && a != b && HappensBefore(a, b)
      ensures AtOrBefore(h, Source(a), Source(b))
    {
      assert AtOrBefore(g, Source(a), Source(b));
    }
  }

  lemma OneOrdered(g: Graph, g1: Graph, h: Graph, p: Stamp, rf: Stamp)
    requires p in g1 && rf in g1
    requires forall x, y :: Reach(g1, x, y) <==> Reach(g, x, y) || x == y == p || x == y == rf
    requires forall x, y :: Reach(h, x, y) <==> Reach(g1, x, y) || (Reach(g1, x, p) && Reach(g1, rf, y))
    ensures Reach(h, p, rf) && OrderedBefore(g, h, [p], rf)
    ensures forall x, y :: Reach(g, x, y) ==> Reach(h, x, y)
  {
    ReachSelf(g1, p);
    ReachSelf(g1, rf);
    forall x, y | x != y ensures Reach(h, x, y) <==> Reach(g, x, y) || Via(g, [p], rf, x, y) {
      assert InSet([p], g, x) <==> AtOrBefore(g, x, p) by {
        assert p in [p];
      }
    }
  }

  lemma PriorEdgeGraph(g: Graph, p: Stamp, rf: Stamp, h: Graph)
    requires Indexed(g) && NoRmws(g) && Acyclic(g) && p in g && rf in g && !Reach(g, rf, p)
    requires EdgeAdded(g, h, p, rf, false)
    ensures Indexed(h) && NoRmws(h) && Acyclic(h) && h.Keys == g.Keys && Within(g, h)
  {
    NoRmwsImmediate(g);
    EdgeKeepsIndex(g, h, p, rf, false);
    EdgeKeepsRmws(g, h, p, rf, false);
    if !CheckReachable(g, p, rf) {
      EdgeKeepsAcyclicIff(g, h, p, rf, false);
    }
  }

  // Exactly what that edge makes reachable, added or found redundant.
  lemma PriorEdgeReach(g: Graph, p: Stamp, rf: Stamp, h: Graph, x: Stamp, y: Stamp)
    requires Indexed(g) && NoRmws(g) && Chained(g) && p in g && rf in g && EdgeAdded(g, h, p, rf, false)
    ensures Reach(h, x, y) <==> Reach(g, x, y) || (Reach(g, x, p) && Reach(g, rf, y))
  {
    if CheckReachable(g, p, rf) {
      IndexIsExact(g, p, rf);
      if Reach(g, x, p) && Reach(g, rf, y) {
        ReachTrans(g, x, p, rf);
        ReachTrans(g, x, rf, y);
      }
    } else {
      EdgeReach(g, h, p, rf, false, x, y);
    }
  }

  // A load whose predecessors are all at or before the store it reads keeps the
  // state consistent.  An acquire load also takes over a clock `synced` that the
  // store it reads already knew.
  lemma LoadStep(g: Graph, hist: set<Access>, last: nat, curr: Access, cv: Clock, synced: Clock, w: Access)
    requires Consistent(g, hist, last) && Fresh(curr, last) && !curr.isWrite
    requires w in hist && w.isWrite && w.stamp == curr.readsFrom
    requires curr.cv == Join(cv, synced) && Leq(synced, w.released)
    requires forall a :: a in hist && SynchronizedSince(cv, a.stamp) ==> AtOrBefore(g, Source(a), curr.readsFrom)
    ensures Consistent(g, hist + {curr}, curr.stamp.num)
  {
    var hist' := hist + {curr};
    forall a | a in hist && HappensBefore(a, curr) ensures AtOrBefore(g, Source(a), curr.readsFrom) {
      assert WellTimed(a) && WellTimed(w);
      if !SynchronizedSince(cv, a.stamp) {
        assert a.stamp.num <= At(synced, a.stamp.tid) <= At(w.released, a.stamp.tid) <= At(w.cv, a.stamp.tid);
        assert HappensBefore(a, w);
        assert a == w || AtOrBefore(g, Source(a), Source(w));
      }
    }
    forall a, b | a in hist' && b in hist' && a != b && HappensBefore(a, b)
      ensures AtOrBefore(g, Source(a), Source(b))
    {
      if a == curr {
        LaterThanAll(g, hist, last, curr, b);
      }
    }
    HistoryGrows(g, hist, last, curr);
  }

  // ---- Some store can always be read ----

  ghost predicate MaximalStore(g: Graph, hist: set<Access>, m: Stamp) {
    Stored(hist, m) && forall y :: Stored(hist, y) && y != m ==> !Reach(g, m, y)
  }

  // From any store one reaches a store that nothing follows.
  lemma MaximalStoreExists(g: Graph, hist: set<Access>, last: nat, w: Stamp) returns (m: Stamp)
    requires Consistent(g, hist, last) && Stored(hist, w)
    ensures MaximalStore(g, hist, m) && AtOrBefore(g, w, m)
  {
    if w !in g {
      m := w;
      forall y ensures !Reach(g, m, y) {
        if Reach(g, m, y) {
          ReachIsInside(g, m, y);
        }
      }
    } else {
      ReachSelf(g, w);
      m := SinkBeyond(g, w, set a | a in g && Reach(g, w, a));
      forall y | Reach(g, m, y) ensures y == m {
        if y != m {
          var b := FirstEdge(g, m, y);
        }
      }
    }
  }

  lemma SinkBeyond(g: Graph, w: Stamp, beyond: set<Stamp>) returns (m: Stamp)
    requires Closed(g) && Acyclic(g) && w in g && beyond == set a | a in g && Reach(g, w, a)
    ensures m in g && Reach(g, w, m) && g[m].edges == []
  {
    ReachSelf(g, w);
    m := SinkExists(g, beyond, {}, w);
    if g[m].edges != [] {
      var b := g[m].edges[0];
      assert Edge(g, m, b);
      ReachEdge(g, m, b);
      ReachTrans(g, w, m, b);
    }
  }

  // Nor has any RMW read such a store, so an RMW may read it.
  lemma MaximalIsUnread(g: Graph, hist: set<Access>, m: Stamp)
    requires Closed(g) && RmwsImmediate(g) && MaximalStore(g, hist, m)
    requires forall s {:trigger Stored(hist, s)} :: s in g ==> Stored(hist, s)
    ensures m in g ==> g[m].rmw.None?
  {
    if m in g && g[m].rmw.Some? {
      var next := g[m].rmw.value;
      assert Edge(g, m, next) && Stored(hist, next);
      ReachEdge(g, m, next);
    }
  }

  // A store that nothing follows in modification order can always be read.
  lemma MaximalIsReadable(g: Graph, hist: set<Access>, last: nat, m: Stamp, cv: Clock)
    requires Consistent(g, hist, last) && MaximalStore(g, hist, m)
    ensures Readable(g, hist, cv, m)
  {
    forall a | a in hist && SynchronizedSince(cv, a.stamp) ensures Source(a) == m || !Reach(g, m, Source(a)) {
      assert Stored(hist, Source(a)) by {
        if a.isWrite {
          assert a in hist && a.isWrite && a.stamp == Source(a);
        } else {
          assert Stored(hist, a.readsFrom);
        }
      }
    }
  }
}
