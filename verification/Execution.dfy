// The engine's handling of loads and stores on one location: which stores a load
// may read, the choice among them, and the edges each access adds.

module Execution {
  import opened Options
  import opened Clocks
  import opened MoGraph
  import opened MoGraphLaws
  import opened EdgeSets
  import opened GraphRuns
  import opened CycleGraph
  import opened Coherence

  // ---- The per-thread lists ----

  predicate SortedList(l: seq<Access>, t: nat) {
    && (forall i :: 0 <= i < |l| ==> l[i].stamp.tid == t)
    && (forall i, j :: 0 <= i < j < |l| ==> l[i].stamp.num < l[j].stamp.num)
  }

  predicate ListsFrom(lists: seq<seq<Access>>, hist: set<Access>) {
    forall t :: 0 <= t < |lists| ==> SortedList(lists[t], t) && forall a :: a in lists[t] ==> a in hist
  }

  // A listed access, no later than `b`, that observes the same store.  A load
  // pruned from the lists has one; any other access is its own.
  predicate StandsFor(lists: seq<seq<Access>>, a: Access, b: Access) {
    && b.stamp.tid < |lists| && a in lists[b.stamp.tid]
    && a.stamp.num <= b.stamp.num && Source(a) == Source(b)
  }

  ghost predicate Represented(lists: seq<seq<Access>>, hist: set<Access>) {
    forall b {:trigger HasStandIn(lists, b)} :: b in hist ==> HasStandIn(lists, b)
  }

  ghost predicate HasStandIn(lists: seq<seq<Access>>, b: Access) {
    exists a :: StandsFor(lists, a, b)
  }

  predicate StoresListed(lists: seq<seq<Access>>, hist: set<Access>) {
    && (forall t, a :: 0 <= t < |lists| && a in lists[t] ==> a.isWrite)
    && (forall w :: w in hist && w.isWrite ==> w.stamp.tid < |lists| && w in lists[w.stamp.tid])
  }

  // What a load is the start of.
  datatype ReadKind = PlainRead | RmwRead | CasRead(expected: nat)

  predicate Updates(kind: ReadKind, w: Access) {
    kind.RmwRead? || (kind.CasRead? && w.value == kind.expected)
  }

  // Nobody may be the second RMW to read a store; a compare-and-swap is one only
  // on the value it expects.
  ghost predicate MayRead(g: Graph, kind: ReadKind, w: Access) {
    match kind
    case PlainRead => true
    case RmwRead => Unread(g, w.stamp)
    case CasRead(expected) => w.value == expected ==> Unread(g, w.stamp)
  }

  // The last listed access that happens before a point with clock `cv`.
  predicate IsLatest(l: seq<Access>, cv: Clock, latest: Option<Access>) {
    match latest
    case None => forall a :: a in l ==> !SynchronizedSince(cv, a.stamp)
    case Some(b) =>
      && b in l && SynchronizedSince(cv, b.stamp)
      && forall a :: a in l && SynchronizedSince(cv, a.stamp) ==> a.stamp.num <= b.stamp.num
  }

  // One access per thread is enough: the latest that happens before covers the
  // rest of its thread.
  lemma LatestCovers(g: Graph, hist: set<Access>, last: nat, lists: seq<seq<Access>>, cv: Clock,
    latest: Option<Access>, a: Access)
    requires Consistent(g, hist, last) && ListsFrom(lists, hist) && Represented(lists, hist)
    requires a in hist && SynchronizedSince(cv, a.stamp)
    requires a.stamp.tid < |lists| ==> IsLatest(lists[a.stamp.tid], cv, latest)
    ensures a.stamp.tid < |lists| && latest.Some? && latest.value in hist
    ensures AtOrBefore(g, Source(a), Source(latest.value))
  {
    assert HasStandIn(lists, a);
    var r :| StandsFor(lists, r, a);
    assert r.stamp.tid == a.stamp.tid && SynchronizedSince(cv, r.stamp);
    var b := latest.value;
    assert WellTimed(b) && WellTimed(r);
    assert b.stamp.tid == r.stamp.tid && r.stamp.num <= b.stamp.num;
    if r != b {
      assert HappensBefore(r, b);
    }
  }

  // Skipping a thread whose clock has not moved since `prev`, the reader's own
  // previous access, loses nothing.
  lemma UnmovedIsCovered(g: Graph, hist: set<Access>, last: nat, prev: Access, cv: Clock, a: Access)
    requires Consistent(g, hist, last) && prev in hist && a in hist && SynchronizedSince(cv, a.stamp)
    requires At(prev.cv, a.stamp.tid) == At(cv, a.stamp.tid)
    ensures AtOrBefore(g, Source(a), Source(prev))
  {
    assert WellTimed(a);
    assert HappensBefore(a, prev);
  }

  // `p` stands at or behind the access `a`, or `a` is no later than `rf` itself.
  ghost predicate Accounted(g: Graph, rf: Stamp, prior: seq<Stamp>, a: Access) {
    AtOrBefore(g, Source(a), rf) || exists p :: p in prior && AtOrBefore(g, Source(a), p)
  }

  // Every prior store is the source of an access that happens before.
  ghost predicate Sourced(hist: set<Access>, cv: Clock, prior: seq<Stamp>) {
    forall p :: p in prior ==> IsSource(hist, cv, p)
  }

  ghost predicate IsSource(hist: set<Access>, cv: Clock, p: Stamp) {
    exists a :: a in hist && SynchronizedSince(cv, a.stamp) && Source(a) == p
  }

  // What a load with clock `cv` that reads `rf` makes reachable: all that the
  // accesses which happen before it observed comes before `rf`.
  ghost predicate ViaLoad(g: Graph, hist: set<Access>, cv: Clock, rf: Stamp, x: Stamp, y: Stamp) {
    AtOrBefore(g, rf, y) && exists a :: a in hist && SynchronizedSince(cv, a.stamp) && AtOrBefore(g, x, Source(a))
  }

  ghost predicate OrderedByLoad(g: Graph, h: Graph, hist: set<Access>, cv: Clock, rf: Stamp) {
    forall x, y {:trigger Reach(h, x, y)} :: x != y ==>
      (Reach(h, x, y) <==> Reach(g, x, y) || ViaLoad(g, hist, cv, rf, x, y))
  }

  // What a store makes reachable: itself, from all that the accesses which happen
  // before it observed, and from nowhere else.
  ghost predicate ViaStore(g: Graph, hist: set<Access>, cv: Clock, s: Stamp, x: Stamp, y: Stamp) {
    y == s && exists a :: a in hist && SynchronizedSince(cv, a.stamp) && AtOrBefore(g, x, Source(a))
  }

  ghost predicate OrderedByStore(g: Graph, h: Graph, hist: set<Access>, cv: Clock, s: Stamp) {
    forall x, y {:trigger Reach(h, x, y)} :: x != y ==>
      (Reach(h, x, y) <==> Reach(g, x, y) || ViaStore(g, hist, cv, s, x, y))
  }

  lemma StoreReach(g: Graph, hist: set<Access>, last: nat, curr: Access, es: seq<Stamp>, kept: seq<Stamp>, h: Graph)
    requires Consistent(g, hist, last) && Fresh(curr, last) && curr.isWrite && Sourced(hist, curr.cv, es)
    requires Gathers(g, hist, curr.cv, es) && Linked(g, es, kept, curr.stamp, h)
    ensures OrderedByStore(g, h, hist, curr.cv, curr.stamp)
  {
    if es != [] {
      NodesKeepConsistent(g, hist, last, Members(es));
      StoreGraph(WithNodes(g, Members(es)), hist, last, curr.stamp, kept, h);
    }
    forall x, y | x != y ensures Reach(h, x, y) <==> Reach(g, x, y) || ViaStore(g, hist, curr.cv, curr.stamp, x, y) {
      if es == [] {
        forall a | a in hist ensures !SynchronizedSince(curr.cv, a.stamp) {
          assert !InSet(es, g, Source(a));
        }
      } else {
        if Reach(h, x, y) {
          StoreReachOnly(g, hist, last, curr, es, kept, h, x, y);
        }
        if Reach(g, x, y) {
          StillReaches(g, es, curr.stamp, h, x, y);
        }
        if ViaStore(g, hist, curr.cv, curr.stamp, x, y) {
          var a :| a in hist && SynchronizedSince(curr.cv, a.stamp) && AtOrBefore(g, x, Source(a));
          PrecedesStore(g, hist, last, curr, es, kept, h, a);
          if x != Source(a) {
            StillReaches(g, es, curr.stamp, h, x, Source(a));
            ReachTrans(h, x, Source(a), y);
          }
        }
      }
    }
  }

  lemma StoreReachOnly(g: Graph, hist: set<Access>, last: nat, curr: Access, es: seq<Stamp>, kept: seq<Stamp>,
    h: Graph, x: Stamp, y: Stamp)
    requires Consistent(g, hist, last) && Fresh(curr, last) && Sourced(hist, curr.cv, es) && es != []
    requires Consistent(WithNodes(g, Members(es)), hist, last) && Linked(g, es, kept, curr.stamp, h)
    requires Reach(h, x, y) && x != y
    ensures Reach(g, x, y) || ViaStore(g, hist, curr.cv, curr.stamp, x, y)
  {
    var gn, s := WithNodes(g, Members(es)), curr.stamp;
    var g1 := WithNode(gn, s);
    NewStoreReach(gn, hist, last, s, kept, h, x, y);
    NotStoredYet(hist, last, s);
    if Reach(g1, x, y) {
      NewNodesReach(g, Members(es), s, x, y);
    } else {
      var e :| e in kept && Reach(g1, x, e) && e in gn;
      assert e in es && e != s;
      NewNodesReach(g, Members(es), s, x, e);
      assert IsSource(hist, curr.cv, e);
    }
  }

  // New nodes bring no paths but from each to itself.
  lemma NewNodesReach(g: Graph, es: set<Stamp>, s: Stamp, x: Stamp, y: Stamp)
    requires Closed(g) && Closed(WithNodes(g, es)) && Reach(WithNode(WithNodes(g, es), s), x, y)
    ensures AtOrBefore(g, x, y)
  {
    NodeKeepsReach(WithNodes(g, es), s, x, y);
    if x != y {
      NodesReach(g, es, x, y);
    }
  }

  // Nothing but the new store is reached by its edges.
  lemma NewStoreReach(g: Graph, hist: set<Access>, last: nat, s: Stamp, kept: seq<Stamp>, h: Graph, x: Stamp, y: Stamp)
    requires Consistent(g, hist, last) && last < s.num && EdgesAdded(WithNode(g, s), h, kept, s) && Reach(h, x, y)
    requires forall k :: k in kept ==> k in g
    ensures Reach(WithNode(g, s), x, y) || (y == s && exists e :: e in kept && e in g && Reach(WithNode(g, s), x, e))
  {
    var g1 := WithNode(g, s);
    NodeKeepsGraph(g, s);
    NoRmwsImmediate(g1);
    EdgesAddedMade(g1, h, kept, s);
    EdgesReach(g1, h, kept, s, x, y);
    if !Reach(g1, x, y) {
      UnknownToGraph(g, hist, last, s, y);
      var e :| e in kept && e in g1 && Reach(g1, x, ChainEnd(g1, e, s));
      assert ChainEnd(g1, e, s) == e;
    }
  }

  lemma NodesReach(g: Graph, s: set<Stamp>, x: Stamp, y: Stamp)
    requires Closed(g) && x != y
    ensures Reach(WithNodes(g, s), x, y) <==> Reach(g, x, y)
    decreases s
  {
    if s == {} {
      assert WithNodes(g, s) == g;
    } else {
      var a :| a in s;
      var k := WithNodes(g, s - {a});
      NodesReach(g, s - {a}, x, y);
      assert Closed(k) by {
        assert forall u, v :: Edge(k, u, v) ==> Edge(g, u, v);
      }
      NodeKeepsReach(k, a, x, y);
      WithNodesOneMore(g, s - {a}, a);
      assert s - {a} + {a} == s;
    }
  }

  // One source per thread, with threads skipped, orders as much as all would.
  lemma PriorsAreEnough(g: Graph, h: Graph, hist: set<Access>, cv: Clock, rf: Stamp, prior: seq<Stamp>)
    requires OrderedBefore(g, h, prior, rf) && Sourced(hist, cv, prior)
    requires forall a :: a in hist && SynchronizedSince(cv, a.stamp) ==> Accounted(g, rf, prior, a)
    ensures OrderedByLoad(g, h, hist, cv, rf)
  {
    forall x, y | x != y ensures Reach(h, x, y) <==> Reach(g, x, y) || ViaLoad(g, hist, cv, rf, x, y) {
      if Via(g, prior, rf, x, y) {
        var p :| p in prior && AtOrBefore(g, x, p);
        assert IsSource(hist, cv, p);
      }
      if ViaLoad(g, hist, cv, rf, x, y) {
        var a :| a in hist && SynchronizedSince(cv, a.stamp) && AtOrBefore(g, x, Source(a));
        assert Accounted(g, rf, prior, a);
        if AtOrBefore(g, Source(a), rf) {
          AtOrBeforeTrans(g, x, Source(a), rf);
          AtOrBeforeTrans(g, x, rf, y);
        } else {
          var p :| p in prior && AtOrBefore(g, Source(a), p);
          AtOrBeforeTrans(g, x, Source(a), p);
        }
      }
    }
  }

  // So any two scans that account for all that happens before leave the same
  // reachability, whichever threads they skipped.
  lemma SkippingChangesNothing(g: Graph, hist: set<Access>, cv: Clock, rf: Stamp,
                               prior1: seq<Stamp>, h1: Graph, prior2: seq<Stamp>, h2: Graph)
    requires OrderedBefore(g, h1, prior1, rf) && Sourced(hist, cv, prior1)
    requires OrderedBefore(g, h2, prior2, rf) && Sourced(hist, cv, prior2)
    requires forall a :: a in hist && SynchronizedSince(cv, a.stamp) ==>
      Accounted(g, rf, prior1, a) && Accounted(g, rf, prior2, a)
    ensures forall x, y {:trigger Reach(h1, x, y)} {:trigger Reach(h2, x, y)} :: x != y ==>
      (Reach(h1, x, y) <==> Reach(h2, x, y))
  {
    PriorsAreEnough(g, h1, hist, cv, rf, prior1);
    PriorsAreEnough(g, h2, hist, cv, rf, prior2);
  }

  ghost predicate Harmless(g: Graph, hist: set<Access>, rf: Stamp, prior: seq<Stamp>) {
    forall p :: p in prior ==> Stored(hist, p) && p != rf && !Reach(g, rf, p)
  }

  lemma AccountedIsReadable(g: Graph, hist: set<Access>, last: nat, cv: Clock, rf: Stamp, prior: seq<Stamp>)
    requires Consistent(g, hist, last) && Stored(hist, rf) && Harmless(g, hist, rf, prior)
    requires forall a :: a in hist && SynchronizedSince(cv, a.stamp) ==> Accounted(g, rf, prior, a)
    ensures Readable(g, hist, cv, rf)
  {
    forall a | a in hist && SynchronizedSince(cv, a.stamp) && Source(a) != rf ensures !Reach(g, rf, Source(a)) {
      assert Accounted(g, rf, prior, a);
      if Reach(g, rf, Source(a)) {
        if AtOrBefore(g, Source(a), rf) {
          AcyclicAntisymmetric(g, rf, Source(a));
        } else {
          var p :| p in prior && AtOrBefore(g, Source(a), p);
          if Source(a) != p {
            ReachTrans(g, rf, Source(a), p);
          }
        }
      }
    }
  }

  lemma SourceStored(hist: set<Access>, a: Access)
    requires ReadsStored(hist) && a in hist
    ensures Stored(hist, Source(a))
  {
    if a.isWrite {
      assert a in hist && a.isWrite && a.stamp == Source(a);
    } else {
      assert Stored(hist, a.readsFrom);
    }
  }

  // Threads met by the time `i` have been visited, starting from `start` and
  // wrapping around at `n`.
  predicate Visited(t: nat, start: nat, i: nat, n: nat) {
    start <= t < start + i || t + n < start + i
  }

  // The thread visited after `i` others, starting from `start`.
  function Nth(start: nat, i: nat, n: nat): int {
    if start + i < n then start + i else start + i - n
  }

  class LocationExecution {
    var objThrdMap: seq<seq<Access>>
    var objWrThrdMap: seq<seq<Access>>
    const moGraph: CycleGraph
    // The sequence number of the latest access to the location.
    var lastNumber: nat
    ghost var history: set<Access>

    ghost predicate Valid()
      reads this, moGraph
    {
      && Consistent(moGraph.actionToNode, history, lastNumber)
      && ListsFrom(objThrdMap, history) && Represented(objThrdMap, history)
      && ListsFrom(objWrThrdMap, history) && StoresListed(objWrThrdMap, history)
    }

    constructor ()
      ensures Valid() && history == {} && fresh(moGraph)
    {
      objThrdMap, objWrThrdMap := [], [];
      moGraph := new CycleGraph();
      lastNumber := 0;
      history := {};
      new;
      EmptyIsConsistent();
    }

    // One thread's part of `r_modification_order`: walk its accesses from the
    // most recent to the first that happens before the load.
    method ScanThread(list: seq<Access>, cv: Clock, rf: Stamp)
      returns (ok: bool, prior: Option<Stamp>, prev: Option<Access>, sameRf: bool, ghost latest: Option<Access>)
      requires exists t :: SortedList(list, t)
      ensures IsLatest(list, cv, latest)
      ensures latest.None? ==> ok && prior.None? && prev.None?
      ensures latest.Some? && Source(latest.value) != rf ==>
        && (ok <==> !CheckReachable(moGraph.actionToNode, rf, Source(latest.value)))
        && (ok ==> prior == Some(Source(latest.value)))
      ensures latest.Some? && Source(latest.value) == rf ==> ok && prior.None?
      ensures prev.Some? ==> prev == latest
      ensures sameRf <==> latest.Some? && !latest.value.isWrite && latest.value.readsFrom == rf
    {
      ok, prior, prev, sameRf, latest := true, None, None, false, None;
      var i := |list|;
      while i > 0
        invariant 0 <= i <= |list|
        invariant forall k :: i <= k < |list| ==> !SynchronizedSince(cv, list[k].stamp)
      {
        i := i - 1;
        var act := list[i];
        if SynchronizedSince(cv, act.stamp) {
          latest := Some(act);
          if act.isWrite && act.stamp == rf {
            return;
          }
          prev := Some(act);
          if act.isWrite {
            var reachable := moGraph.IsReachable(rf, act.stamp);
            if reachable {
              ok := false;
              return;
            }
            prior := Some(act.stamp);
          } else if act.readsFrom != rf {
            var reachable := moGraph.IsReachable(rf, act.readsFrom);
            if reachable {
              ok := false;
              return;
            }
            prior := Some(act.readsFrom);
          } else {
            sameRf := true;
          }
          return;
        }
      }
    }

    // All that one thread did before the load is accounted for.
    ghost predicate ThreadDone(cv: Clock, rf: Stamp, prior: seq<Stamp>, t: nat)
      reads this, moGraph
    {
      forall a :: a in history && a.stamp.tid == t && SynchronizedSince(cv, a.stamp)
        ==> Accounted(moGraph.actionToNode, rf, prior, a)
    }

    // Every access that happens before the load is accounted for.
    ghost predicate AllAccounted(cv: Clock, rf: Stamp, prior: seq<Stamp>)
      reads this, moGraph
    {
      forall a :: a in history && SynchronizedSince(cv, a.stamp) ==> Accounted(moGraph.actionToNode, rf, prior, a)
    }

    // `r_modification_order`: may a load with clock `cv` on thread `tid` read
    // `rf`?  If so, the stores that must then precede `rf`.  Threads whose clock
    // has not moved since the reader's previous access are skipped, and the
    // answer is the same as if they were not.
    method RModificationOrder(tid: nat, cv: Clock, rf: Stamp)
      returns (ok: bool, priorset: seq<Stamp>, canprune: bool)
      requires Valid() && tid < |objThrdMap| && Stored(history, rf)
      ensures ok <==> Readable(moGraph.actionToNode, history, cv, rf)
      ensures ok ==> Harmless(moGraph.actionToNode, history, rf, priorset) && AllAccounted(cv, rf, priorset)
      ensures ok ==> Sourced(history, cv, priorset)
      ensures ok ==> (canprune <==> LastRead(tid, cv, rf))
    {
      ok, priorset, canprune := true, [], false;
      var n := |objThrdMap|;
      var prevSameThread: Option<Access> := None;
      var t, i := tid, 0;
      while i < n
        invariant i <= n == |objThrdMap| && t == Nth(tid, i, n)
        invariant ok && Visiting(cv, rf, tid, i, priorset, prevSameThread, canprune)
      {
        ok, priorset, prevSameThread, canprune := VisitThread(tid, cv, rf, i, t, priorset, prevSameThread, canprune);
        if !ok {
          return;
        }
        i := i + 1;
        t := if t + 1 == n then 0 else t + 1;
      }
      AllThreadsDone(cv, rf, priorset, tid);
      AccountedIsReadable(moGraph.actionToNode, history, lastNumber, cv, rf, priorset);
    }

    // One thread of that loop.
    method VisitThread(tid: nat, cv: Clock, rf: Stamp, i: nat, t: nat, before: seq<Stamp>, prev0: Option<Access>,
      canprune0: bool)
      returns (ok: bool, priorset: seq<Stamp>, prevSameThread: Option<Access>, canprune: bool)
      requires Valid() && Stored(history, rf) && tid < |objThrdMap| && i < |objThrdMap|
        && t == Nth(tid, i, |objThrdMap|)
      requires Visiting(cv, rf, tid, i, before, prev0, canprune0)
      ensures !ok ==> !Readable(moGraph.actionToNode, history, cv, rf)
      ensures ok ==> Visiting(cv, rf, tid, i + 1, priorset, prevSameThread, canprune)
    {
      ok, priorset, prevSameThread, canprune := true, before, prev0, canprune0;
      if prevSameThread.Some? && At(prevSameThread.value.cv, t) == At(cv, t) {
        SkipIsSafe(cv, rf, priorset, prevSameThread.value, t);
      } else {
        ghost var latest;
        var prior, prev, sameRf;
        assert SortedList(objThrdMap[t], t);
        ok, prior, prev, sameRf, latest := ScanThread(objThrdMap[t], cv, rf);
        if !ok {
          RefusalIsRight(cv, rf, objThrdMap[t], latest.value);
          return;
        }
        if prior.Some? {
          priorset := priorset + [prior.value];
        }
        ScanIsEnough(cv, rf, before, priorset, t, latest);
        if i == 0 && prev.Some? {
          prevSameThread := prev;
        }
        if sameRf && t == tid {
          canprune := true;
        }
        OneLatest(objThrdMap[t], t, cv, latest, rf);
        assert t == tid <==> i == 0;
      }
      StillDone(cv, rf, before, priorset, tid, i, t);
    }

    // What holds when `i` threads have been visited, from `tid` on.
    ghost predicate Visiting(cv: Clock, rf: Stamp, tid: nat, i: nat, prior: seq<Stamp>, prev: Option<Access>,
      canprune: bool)
      reads this, moGraph
    {
      && Harmless(moGraph.actionToNode, history, rf, prior) && Sourced(history, cv, prior)
      && DoneSoFar(cv, rf, prior, tid, i)
      && (prev.Some? ==> i > 0 && PrevOk(rf, prior, prev.value))
      && (canprune <==> i > 0 && LastRead(tid, cv, rf))
    }

    // The last listed access of thread `tid` that happens before is a load that
    // read `rf`.
    ghost predicate LastRead(tid: nat, cv: Clock, rf: Stamp)
      reads this
    {
      ReadLast(Listed(tid), cv, rf)
    }

    // The accesses listed for thread `tid`.
    function Listed(tid: nat): seq<Access>
      reads this
    {
      if tid < |objThrdMap| then objThrdMap[tid] else []
    }

    function StoresOf(tid: nat): seq<Access>
      reads this
    {
      if tid < |objWrThrdMap| then objWrThrdMap[tid] else []
    }

    ghost predicate PrevOk(rf: Stamp, prior: seq<Stamp>, prev: Access)
      reads this, moGraph
    {
      prev in history && Accounted(moGraph.actionToNode, rf, prior, prev)
    }

    ghost predicate DoneSoFar(cv: Clock, rf: Stamp, prior: seq<Stamp>, start: nat, i: nat)
      reads this, moGraph
    {
      forall t: nat :: t < |objThrdMap| && Visited(t, start, i, |objThrdMap|) ==> ThreadDone(cv, rf, prior, t)
    }

    lemma StillDone(cv: Clock, rf: Stamp, before: seq<Stamp>, after: seq<Stamp>, start: nat, i: nat, t: nat)
      requires start < |objThrdMap| && i < |objThrdMap| && DoneSoFar(cv, rf, before, start, i)
      requires t == Nth(start, i, |objThrdMap|)
      requires ThreadDone(cv, rf, after, t) && forall p :: p in before ==> p in after
      ensures DoneSoFar(cv, rf, after, start, i + 1)
    {
      forall u: nat | u < |objThrdMap| && Visited(u, start, i + 1, |objThrdMap|) ensures ThreadDone(cv, rf, after, u) {
        if u != t {
          assert ThreadDone(cv, rf, before, u);
        }
      }
    }

    lemma AllThreadsDone(cv: Clock, rf: Stamp, prior: seq<Stamp>, start: nat)
      requires Valid() && start < |objThrdMap| && DoneSoFar(cv, rf, prior, start, |objThrdMap|)
      ensures AllAccounted(cv, rf, prior)
    {
      forall a | a in history && SynchronizedSince(cv, a.stamp) ensures Accounted(moGraph.actionToNode, rf, prior, a) {
        assert HasStandIn(objThrdMap, a);
        assert Visited(a.stamp.tid, start, |objThrdMap|, |objThrdMap|);
        assert ThreadDone(cv, rf, prior, a.stamp.tid);
      }
    }

    lemma SkipIsSafe(cv: Clock, rf: Stamp, prior: seq<Stamp>, prev: Access, t: nat)
      requires Valid() && prev in history && At(prev.cv, t) == At(cv, t)
      requires Accounted(moGraph.actionToNode, rf, prior, prev)
      ensures ThreadDone(cv, rf, prior, t)
    {
      var g := moGraph.actionToNode;
      forall a | a in history && a.stamp.tid == t && SynchronizedSince(cv, a.stamp) ensures Accounted(g, rf, prior, a) {
        UnmovedIsCovered(g, history, lastNumber, prev, cv, a);
        FollowsAccounted(g, rf, prior, a, prev);
      }
    }

    lemma RefusalIsRight(cv: Clock, rf: Stamp, list: seq<Access>, a: Access)
      requires Valid() && Stored(history, rf) && a in history && SynchronizedSince(cv, a.stamp)
      requires Source(a) != rf && CheckReachable(moGraph.actionToNode, rf, Source(a))
      ensures !Readable(moGraph.actionToNode, history, cv, rf)
    {
      SourceStored(history, a);
      CheckReachableExact(moGraph.actionToNode, history, lastNumber, rf, Source(a));
    }

    lemma ScanIsEnough(cv: Clock, rf: Stamp, before: seq<Stamp>, after: seq<Stamp>, t: nat, latest: Option<Access>)
      requires Valid() && Stored(history, rf) && t < |objThrdMap| && IsLatest(objThrdMap[t], cv, latest)
      requires Harmless(moGraph.actionToNode, history, rf, before) && Sourced(history, cv, before)
      requires latest.None? || Source(latest.value) == rf ==> after == before
      requires latest.Some? && Source(latest.value) != rf ==>
        after == before + [Source(latest.value)] && !CheckReachable(moGraph.actionToNode, rf, Source(latest.value))
      ensures ThreadDone(cv, rf, after, t) && Harmless(moGraph.actionToNode, history, rf, after)
      ensures Sourced(history, cv, after)
      ensures latest.Some? ==> PrevOk(rf, after, latest.value)
      ensures (forall p :: p in before ==> p in after) && forall a :: PrevOk(rf, before, a) ==> PrevOk(rf, after, a)
    {
      var g := moGraph.actionToNode;
      if latest.Some? {
        assert latest.value in history;
        SourceStored(history, latest.value);
        if Source(latest.value) != rf {
          CheckReachableExact(g, history, lastNumber, rf, Source(latest.value));
          assert Source(latest.value) in after;
        }
        assert Accounted(g, rf, after, latest.value);
      }
      forall a | a in history && a.stamp.tid == t && SynchronizedSince(cv, a.stamp) ensures Accounted(g, rf, after, a) {
        LatestCovers(g, history, lastNumber, objThrdMap, cv, latest, a);
        FollowsAccounted(g, rf, after, a, latest.value);
      }
    }

    // `build_may_read_from`: per thread, the stores from the most recent back to
    // the first that happens before the load, but for the update of a store that
    // an RMW has already read.  The graph may have any RMWs in it.
    method BuildMayReadFrom(cv: Clock, kind: ReadKind) returns (rfSet: seq<Access>)
      requires ListsFrom(objWrThrdMap, history) && StoresListed(objWrThrdMap, history)
      ensures forall w :: w in rfSet <==> Candidate(history, cv, w) && MayRead(moGraph.actionToNode, kind, w)
    {
      rfSet := [];
      var t := 0;
      while t < |objWrThrdMap|
        invariant t <= |objWrThrdMap|
        invariant forall w :: w in rfSet <==>
          w.stamp.tid < t && Candidate(history, cv, w) && MayRead(moGraph.actionToNode, kind, w)
      {
        var more := ThreadCandidates(objWrThrdMap[t], cv, kind, t);
        rfSet := rfSet + more;
        t := t + 1;
      }
    }

    // Whether a load of this kind would not be the second RMW to read `w`.
    method Allowed(kind: ReadKind, w: Access) returns (allowRead: bool)
      ensures allowRead <==> MayRead(moGraph.actionToNode, kind, w)
    {
      allowRead := true;
      if Updates(kind, w) {
        var s := w.stamp;
        if s in moGraph.actionToNode && moGraph.actionToNode[s].rmw.Some? {
          allowRead := false;
        }
      }
    }

    method ThreadCandidates(list: seq<Access>, cv: Clock, kind: ReadKind, ghost t: nat) returns (tail: seq<Access>)
      requires StoreListOf(list, t, history)
      ensures forall w :: w in tail <==>
        w.stamp.tid == t && Candidate(history, cv, w) && MayRead(moGraph.actionToNode, kind, w)
    {
      tail := [];
      var i := |list|;
      while i > 0
        invariant 0 <= i <= |list|
        invariant forall k :: i <= k < |list| ==> !SynchronizedSince(cv, list[k].stamp)
        invariant forall w :: w in tail <==> InTail(list, i, w) && MayRead(moGraph.actionToNode, kind, w)
      {
        i := i - 1;
        var allowRead := Allowed(kind, list[i]);
        if allowRead {
          tail := tail + [list[i]];
        }
        if SynchronizedSince(cv, list[i].stamp) {
          break;
        }
      }
      forall w ensures InTail(list, i, w) <==> w.stamp.tid == t && Candidate(history, cv, w) {
        TailIsCandidates(list, cv, t, history, i, w);
      }
    }

    // `process_read`: pick candidates in any order until one is accepted.  With
    // any store at all there is always one to accept.
    method ProcessRead(tid: nat, cv: Clock, kind: ReadKind) returns (rf: Access, priorset: seq<Stamp>, canprune: bool)
      requires Valid() && tid < |objThrdMap| && exists w :: w in history && w.isWrite
      ensures rf in history && rf.isWrite && Readable(moGraph.actionToNode, history, cv, rf.stamp)
      ensures MayRead(moGraph.actionToNode, kind, rf)
      ensures Harmless(moGraph.actionToNode, history, rf.stamp, priorset) && AllAccounted(cv, rf.stamp, priorset)
      ensures Sourced(history, cv, priorset)
      ensures canprune <==> LastRead(tid, cv, rf.stamp)
    {
      ghost var m := SomeReadable(cv);
      assert Unread(moGraph.actionToNode, m.stamp);
      var rfSet := BuildMayReadFrom(cv, kind);
      while true
        invariant m in rfSet && forall w :: w in rfSet ==>
          w in history && w.isWrite && MayRead(moGraph.actionToNode, kind, w)
        decreases |rfSet|
      {
        var index :| 0 <= index < |rfSet|;
        rf := rfSet[index];
        assert rf in rfSet && Stored(history, rf.stamp);
        var ok;
        ok, priorset, canprune := RModificationOrder(tid, cv, rf.stamp);
        if ok {
          return;
        }
        DropKeepsOthers(rfSet, index, m);
        rfSet := DropAt(rfSet, index);
      }
    }

    lemma SomeReadable(cv: Clock) returns (m: Access)
      requires Valid() && exists w :: w in history && w.isWrite
      ensures Candidate(history, cv, m) && Readable(moGraph.actionToNode, history, cv, m.stamp)
    {
      var w :| w in history && w.isWrite;
      assert Stored(history, w.stamp);
      var s := MaximalStoreExists(moGraph.actionToNode, history, lastNumber, w.stamp);
      MaximalIsReadable(moGraph.actionToNode, history, lastNumber, s, cv);
      m :| m in history && m.isWrite && m.stamp == s;
      ReadableIsCandidate(moGraph.actionToNode, history, lastNumber, cv, m);
    }

    // The loop that orders each prior store before the one read.
    method AddPriors(priorset: seq<Stamp>, rf: Stamp)
      requires Valid() && Stored(history, rf) && Harmless(moGraph.actionToNode, history, rf, priorset)
      modifies moGraph
      ensures Consistent(moGraph.actionToNode, history, lastNumber)
      ensures forall x, y :: Reach(old(moGraph.actionToNode), x, y) ==> Reach(moGraph.actionToNode, x, y)
      ensures forall p :: p in priorset ==> Reach(moGraph.actionToNode, p, rf)
      ensures OrderedBefore(old(moGraph.actionToNode), moGraph.actionToNode, priorset, rf)
    {
      ghost var g0 := moGraph.actionToNode;
      var i := 0;
      while i < |priorset|
        invariant i <= |priorset|
        invariant PriorsAdded(g0, moGraph.actionToNode, history, lastNumber, rf, priorset, i)
      {
        AddPrior(g0, priorset, rf, i);
        i := i + 1;
      }
      assert priorset[..i] == priorset;
    }

    method AddPrior(ghost g0: Graph, priorset: seq<Stamp>, rf: Stamp, i: nat)
      requires PriorsAdded(g0, moGraph.actionToNode, history, lastNumber, rf, priorset, i) && i < |priorset|
      modifies moGraph
      ensures PriorsAdded(g0, moGraph.actionToNode, history, lastNumber, rf, priorset, i + 1)
    {
      ghost var g := moGraph.actionToNode;
      var p := priorset[i];
      StoredIsPositive(history, lastNumber, p);
      StoredIsPositive(history, lastNumber, rf);
      NoRmwsImmediate(g);
      moGraph.AddEdge(p, rf, false);
      OnePriorMore(g0, g, moGraph.actionToNode, history, lastNumber, rf, priorset, i);
    }

    // `w_modification_order`: per thread, the store observed by the latest access
    // that happens before the point with clock `cv`.
    method WModificationOrder(cv: Clock) returns (edgeset: seq<Stamp>)
      requires Valid()
      ensures Gathers(moGraph.actionToNode, history, cv, edgeset) && Sourced(history, cv, edgeset)
    {
      edgeset := [];
      var t := 0;
      while t < |objThrdMap|
        invariant t <= |objThrdMap|
        invariant (forall e :: e in edgeset ==> Stored(history, e)) && Sourced(history, cv, edgeset)
        invariant forall u: nat :: u < t ==> ThreadGathered(cv, edgeset, u)
      {
        ghost var before := edgeset;
        var latest := LatestOf(objThrdMap[t], cv, t);
        if latest.Some? {
          edgeset := edgeset + [Source(latest.value)];
        }
        OneThreadMore(cv, before, edgeset, t, latest);
        t := t + 1;
      }
      forall a | a in history && SynchronizedSince(cv, a.stamp)
        ensures InSet(edgeset, moGraph.actionToNode, Source(a))
      {
        assert HasStandIn(objThrdMap, a);
        assert ThreadGathered(cv, edgeset, a.stamp.tid);
      }
    }

    method LatestOf(list: seq<Access>, cv: Clock, ghost t: nat) returns (latest: Option<Access>)
      requires SortedList(list, t)
      ensures IsLatest(list, cv, latest)
    {
      var i := |list|;
      while i > 0
        invariant 0 <= i <= |list|
        invariant forall k :: i <= k < |list| ==> !SynchronizedSince(cv, list[k].stamp)
      {
        i := i - 1;
        if SynchronizedSince(cv, list[i].stamp) {
          return Some(list[i]);
        }
      }
      return None;
    }

    ghost predicate ThreadGathered(cv: Clock, es: seq<Stamp>, t: nat)
      reads this, moGraph
    {
      forall a :: a in history && a.stamp.tid == t && SynchronizedSince(cv, a.stamp)
        ==> InSet(es, moGraph.actionToNode, Source(a))
    }

    lemma OneThreadMore(cv: Clock, before: seq<Stamp>, after: seq<Stamp>, t: nat, latest: Option<Access>)
      requires Valid() && t < |objThrdMap| && IsLatest(objThrdMap[t], cv, latest)
      requires after == if latest.None? then before else before + [Source(latest.value)]
      requires (forall e :: e in before ==> Stored(history, e)) && Sourced(history, cv, before)
      requires forall u: nat :: u < t ==> ThreadGathered(cv, before, u)
      ensures (forall e :: e in after ==> Stored(history, e)) && Sourced(history, cv, after)
      ensures forall u: nat :: u <= t ==> ThreadGathered(cv, after, u)
    {
      var g := moGraph.actionToNode;
      if latest.Some? {
        assert latest.value in history;
        SourceStored(history, latest.value);
        assert IsSource(history, cv, Source(latest.value));
      }
      forall a | a in history && a.stamp.tid == t && SynchronizedSince(cv, a.stamp) ensures InSet(after, g, Source(a)) {
        LatestCovers(g, history, lastNumber, objThrdMap, cv, latest, a);
        assert Source(latest.value) in after;
      }
      forall u: nat | u < t ensures ThreadGathered(cv, after, u) {
        assert ThreadGathered(cv, before, u);
        forall a | a in history && a.stamp.tid == u && SynchronizedSince(cv, a.stamp)
          ensures InSet(after, g, Source(a)) {
          assert InSet(before, g, Source(a));
        }
      }
    }

    // Gives every thread up to `tid` a list.
    method EnsureThread(tid: nat)
      requires Valid()
      modifies this`objThrdMap, this`objWrThrdMap
      ensures Valid() && tid < |objThrdMap| && tid < |objWrThrdMap|
      ensures forall t: nat :: Listed(t) == old(Listed(t)) && StoresOf(t) == old(StoresOf(t))
    {
      if |objThrdMap| <= tid {
        PaddedLists(objThrdMap, history, tid + 1);
        objThrdMap := Padded(objThrdMap, tid + 1);
      }
      if |objWrThrdMap| <= tid {
        PaddedStoreLists(objWrThrdMap, history, tid + 1);
        objWrThrdMap := Padded(objWrThrdMap, tid + 1);
      }
    }

    // `add_action_to_lists`: a load that can be pruned is not listed.
    method AddActionToLists(act: Access, canprune: bool)
      requires ListsFrom(objThrdMap, history) && Represented(objThrdMap, history)
      requires Timeline(history, lastNumber) && lastNumber < act.stamp.num
      requires act.stamp.tid < |objThrdMap|
      requires canprune ==> !act.isWrite && exists a :: a in objThrdMap[act.stamp.tid] && Source(a) == act.readsFrom
      modifies this`objThrdMap
      ensures ListsFrom(objThrdMap, history + {act}) && Represented(objThrdMap, history + {act})
      ensures var t, was := act.stamp.tid, old(objThrdMap);
        objThrdMap == if canprune then was else was[t := was[t] + [act]]
    {
      if canprune {
        ListsGrow(objThrdMap, history, lastNumber, act, true);
      } else {
        ListsGrow(objThrdMap, history, lastNumber, act, false);
        var t := act.stamp.tid;
        objThrdMap := objThrdMap[t := objThrdMap[t] + [act]];
      }
    }

    // `add_write_to_lists`, for a store.
    method AddWriteToLists(act: Access)
      requires ListsFrom(objWrThrdMap, history) && StoresListed(objWrThrdMap, history)
      requires Timeline(history, lastNumber) && lastNumber < act.stamp.num
      requires act.stamp.tid < |objWrThrdMap|
      modifies this`objWrThrdMap
      ensures ListsFrom(objWrThrdMap, history + {act}) && StoresListed(objWrThrdMap, history + {act})
      ensures var t, was := act.stamp.tid, old(objWrThrdMap);
        objWrThrdMap == if act.isWrite then was[t := was[t] + [act]] else was
    {
      StoreListsGrow(objWrThrdMap, history, lastNumber, act);
      if act.isWrite {
        var t := act.stamp.tid;
        objWrThrdMap := objWrThrdMap[t := objWrThrdMap[t] + [act]];
      }
    }

    method AddToLists(act: Access, canprune: bool)
      requires Timeline(history, lastNumber) && lastNumber < act.stamp.num
      requires Consistent(moGraph.actionToNode, history + {act}, act.stamp.num)
      requires ListsFrom(objThrdMap, history) && Represented(objThrdMap, history)
      requires ListsFrom(objWrThrdMap, history) && StoresListed(objWrThrdMap, history)
      requires act.stamp.tid < |objThrdMap| && act.stamp.tid < |objWrThrdMap|
      requires canprune ==> !act.isWrite && exists a :: a in objThrdMap[act.stamp.tid] && Source(a) == act.readsFrom
      modifies this
      ensures Valid() && history == old(history) + {act} && lastNumber == act.stamp.num
      ensures forall t: nat :: Listed(t) == old(Listed(t)) + (if t == act.stamp.tid && !canprune then [act] else [])
      ensures forall t: nat :: t != act.stamp.tid ==> StoresOf(t) == old(StoresOf(t))
      ensures StoresOf(act.stamp.tid) == old(StoresOf(act.stamp.tid)) + if act.isWrite then [act] else []
    {
      AddActionToLists(act, canprune);
      AddWriteToLists(act);
      history := history + {act};
      lastNumber := act.stamp.num;
    }

    // Executes a load on thread `tid`, whose clock so far is `parent`.  Its number
    // `num` is the next from a counter shared by all locations.  It always
    // finds a store to read; the store is readable; and the state that follows
    // is consistent again: coherent, acyclic and exactly indexed.
    method Load(tid: nat, num: nat, parent: Clock, acquire: bool) returns (rf: Access, ghost curr: Access)
      requires Valid() && exists w :: w in history && w.isWrite
      requires lastNumber < num && forall t: nat :: At(parent, t) < num
      modifies this, moGraph
      ensures Valid() && history == old(history) + {curr} && curr !in old(history)
      ensures lastNumber == num && curr.stamp == Stamp(tid, num)
      ensures !curr.isWrite && curr.readsFrom == rf.stamp && curr.value == rf.value && rf in old(history) && rf.isWrite
      ensures Readable(old(moGraph.actionToNode), old(history), Stamped(parent, curr.stamp), rf.stamp)
      ensures curr.cv == Join(Stamped(parent, curr.stamp), if acquire then rf.released else [])
      ensures OrderedByLoad(old(moGraph.actionToNode), moGraph.actionToNode, old(history),
        Stamped(parent, curr.stamp), rf.stamp)
      // The load is listed unless the thread's last one read the same store.
      ensures var pruned := old(LastRead(tid, Stamped(parent, Stamp(tid, num)), rf.stamp));
        forall t: nat :: Listed(t) == old(Listed(t)) + (if t == tid && !pruned then [curr] else [])
    {
      EnsureThread(tid);
      var stamp := Stamp(tid, num);
      var cv := NewClock(Some(parent), Some(stamp));
      var priorset, canprune;
      rf, priorset, canprune := ProcessRead(tid, cv, PlainRead);
      ghost var g := moGraph.actionToNode;
      AddPriors(priorset, rf.stamp);
      PriorsAreEnough(g, moGraph.actionToNode, history, cv, rf.stamp, priorset);
      var final, _ := Merge(cv, if acquire then rf.released else []);
      var act := Access(stamp, false, rf.stamp, final, [], rf.value);
      curr := act;
      LoadIsConsistent(g, moGraph.actionToNode, history, lastNumber, parent, rf, acquire, priorset, act);
      NumberIsNew(history, lastNumber, act);
      AddToLists(act, canprune);
    }

    // Executes a store on thread `tid`, whose clock so far is `parent` and whose
    // last release fence, if any, had clock `fence`.
    method Store(tid: nat, num: nat, parent: Clock, release: bool, fence: Clock, value: nat)
      returns (ghost curr: Access)
      requires Valid()
      requires lastNumber < num && forall t: nat :: At(parent, t) < num
      requires Leq(fence, parent)
      modifies this, moGraph
      ensures Valid() && history == old(history) + {curr} && curr !in old(history)
      ensures lastNumber == num && curr.stamp == Stamp(tid, num)
      ensures curr.isWrite && curr.value == value && curr.cv == Stamped(parent, curr.stamp)
      ensures curr.released == if release then curr.cv else fence
      ensures OrderedByStore(old(moGraph.actionToNode), moGraph.actionToNode, old(history), curr.cv, curr.stamp)
      ensures forall t: nat :: Listed(t) == old(Listed(t)) + (if t == tid then [curr] else [])
    {
      EnsureThread(tid);
      var stamp := Stamp(tid, num);
      var cv := NewClock(Some(parent), Some(stamp));
      var act := Access(stamp, true, stamp, cv, if release then cv else fence, value);
      curr := act;
      StampedIsFresh(lastNumber, parent, fence, act);
      ProcessWrite(act);
      NumberIsNew(history, lastNumber, act);
      AddToLists(act, false);
    }

    method ProcessWrite(act: Access)
      requires Valid() && Fresh(act, lastNumber) && act.isWrite
      modifies moGraph
      ensures Consistent(moGraph.actionToNode, history + {act}, act.stamp.num)
      ensures OrderedByStore(old(moGraph.actionToNode), moGraph.actionToNode, history, act.cv, act.stamp)
    {
      ghost var g := moGraph.actionToNode;
      var edgeset := WModificationOrder(act.cv);
      ghost var kept := LinkStore(edgeset, act.stamp);
      StoreStep(g, history, lastNumber, act, edgeset, kept, moGraph.actionToNode);
      StoreReach(g, history, lastNumber, act, edgeset, kept, moGraph.actionToNode);
    }

    // `addEdges`, on predecessors that have been stored.
    method LinkStore(edgeset: seq<Stamp>, stamp: Stamp) returns (ghost kept: seq<Stamp>)
      requires Consistent(moGraph.actionToNode, history, lastNumber) && stamp.num > 0
      requires forall e :: e in edgeset ==> Stored(history, e)
      modifies moGraph
      ensures Linked(old(moGraph.actionToNode), edgeset, kept, stamp, moGraph.actionToNode)
    {
      SoundOnStores(moGraph.actionToNode, history, lastNumber, edgeset);
      kept := moGraph.AddEdges(edgeset, stamp);
    }
  }

  lemma SoundOnStores(g: Graph, hist: set<Access>, last: nat, es: seq<Stamp>)
    requires Consistent(g, hist, last) && forall e :: e in es ==> Stored(hist, e)
    ensures SoundOn(WithNodes(g, Members(es)), es) && RmwsImmediate(g)
    ensures forall e :: e in es ==> e.num > 0
  {
    NodesKeepConsistent(g, hist, last, Members(es));
    NoRmwsImmediate(g);
    forall a, b | a in es && b in es && CheckReachable(WithNodes(g, Members(es)), a, b)
      ensures Reach(WithNodes(g, Members(es)), a, b)
    {
      ReachSelf(WithNodes(g, Members(es)), a);
      if a != b {
        CheckReachableExact(WithNodes(g, Members(es)), hist, last, a, b);
      }
    }
    forall e | e in es ensures e.num > 0 {
      StoredIsPositive(hist, last, e);
    }
  }

  lemma StampedIsFresh(last: nat, parent: Clock, fence: Clock, curr: Access)
    requires last < curr.stamp.num && (forall t: nat :: At(parent, t) < curr.stamp.num) && Leq(fence, parent)
    requires curr.cv == Stamped(parent, curr.stamp)
    requires curr.released == fence || curr.released == curr.cv
    ensures Fresh(curr, last)
  {
    forall t: nat ensures At(fence, t) <= At(curr.cv, t) {
      assert At(fence, t) <= At(parent, t);
    }
  }

  lemma NumberIsNew(hist: set<Access>, last: nat, curr: Access)
    requires Timeline(hist, last) && last < curr.stamp.num
    ensures curr !in hist
  {
  }

  lemma LoadIsConsistent(g: Graph, h: Graph, hist: set<Access>, last: nat, parent: Clock, rf: Access, acquire: bool,
                         prior: seq<Stamp>, curr: Access)
    requires Consistent(h, hist, last) && rf in hist && rf.isWrite
    requires last < curr.stamp.num && forall t: nat :: At(parent, t) < curr.stamp.num
    requires !curr.isWrite && curr.readsFrom == rf.stamp && curr.released == []
    requires curr.cv == Join(Stamped(parent, curr.stamp), if acquire then rf.released else [])
    requires forall x, y :: Reach(g, x, y) ==> Reach(h, x, y)
    requires forall p :: p in prior ==> Reach(h, p, rf.stamp)
    requires forall a :: a in hist && SynchronizedSince(Stamped(parent, curr.stamp), a.stamp) ==>
      Accounted(g, rf.stamp, prior, a)
    ensures Consistent(h, hist + {curr}, curr.stamp.num)
  {
    var cv := Stamped(parent, curr.stamp);
    var synced := if acquire then rf.released else [];
    assert WellTimed(rf);
    forall t: nat ensures At(curr.cv, t) <= curr.stamp.num {
      assert At(synced, t) <= At(rf.cv, t) <= last;
    }
    assert At(synced, curr.stamp.tid) <= At(rf.cv, curr.stamp.tid) <= last;
    forall a | a in hist && SynchronizedSince(cv, a.stamp) ensures AtOrBefore(h, Source(a), rf.stamp) {
      assert Accounted(g, rf.stamp, prior, a);
      if !AtOrBefore(g, Source(a), rf.stamp) {
        var p :| p in prior && AtOrBefore(g, Source(a), p);
        if Source(a) != p {
          ReachTrans(h, Source(a), p, rf.stamp);
        }
      }
    }
    LoadStep(h, hist, last, curr, cv, synced, rf);
  }

  // ---- Keeping the lists ----

  lemma ListsGrow(lists: seq<seq<Access>>, hist: set<Access>, last: nat, curr: Access, pruned: bool)
    requires ListsFrom(lists, hist) && Represented(lists, hist) && Timeline(hist, last)
    requires curr.stamp.tid < |lists| && last < curr.stamp.num
    requires pruned ==> exists a :: a in lists[curr.stamp.tid] && Source(a) == Source(curr)
    ensures var t := curr.stamp.tid;
            var grown := if pruned then lists else lists[t := lists[t] + [curr]];
            ListsFrom(grown, hist + {curr}) && Represented(grown, hist + {curr})
  {
    var t := curr.stamp.tid;
    var grown := if pruned then lists else lists[t := lists[t] + [curr]];
    forall b | b in hist + {curr} ensures HasStandIn(grown, b) {
      if b in hist {
        assert HasStandIn(lists, b);
        var a :| StandsFor(lists, a, b);
        assert StandsFor(grown, a, b);
      } else if pruned {
        var a :| a in lists[t] && Source(a) == Source(curr);
        assert a in hist;
        assert StandsFor(grown, a, b);
      } else {
        assert StandsFor(grown, curr, b);
      }
    }
    ListsFromGrow(lists, hist, last, curr, pruned);
  }

  lemma ListsFromGrow(lists: seq<seq<Access>>, hist: set<Access>, last: nat, curr: Access, pruned: bool)
    requires ListsFrom(lists, hist) && Timeline(hist, last)
    requires curr.stamp.tid < |lists| && last < curr.stamp.num
    ensures var t := curr.stamp.tid;
            ListsFrom(if pruned then lists else lists[t := lists[t] + [curr]], hist + {curr})
  {
    var t := curr.stamp.tid;
    assert SortedList(lists[t], t) && forall a :: a in lists[t] ==> a in hist;
    assert forall i :: 0 <= i < |lists[t]| ==> lists[t][i] in hist;
    assert SortedList(lists[t] + [curr], t);
  }

  lemma StoreListsGrow(lists: seq<seq<Access>>, hist: set<Access>, last: nat, curr: Access)
    requires ListsFrom(lists, hist) && StoresListed(lists, hist) && Timeline(hist, last)
    requires curr.stamp.tid < |lists| && last < curr.stamp.num
    ensures var t := curr.stamp.tid;
            var grown := if curr.isWrite then lists[t := lists[t] + [curr]] else lists;
            ListsFrom(grown, hist + {curr}) && StoresListed(grown, hist + {curr})
  {
    ListsFromGrow(lists, hist, last, curr, !curr.isWrite);
  }

  function Padded(lists: seq<seq<Access>>, n: nat): (r: seq<seq<Access>>)
    requires |lists| <= n
    ensures |r| == n && forall t :: 0 <= t < n ==> r[t] == if t < |lists| then lists[t] else []
  {
    lists + seq(n - |lists|, i => [])
  }

  lemma PaddedLists(lists: seq<seq<Access>>, hist: set<Access>, n: nat)
    requires ListsFrom(lists, hist) && Represented(lists, hist) && |lists| <= n
    ensures ListsFrom(Padded(lists, n), hist) && Represented(Padded(lists, n), hist)
  {
    forall b | b in hist ensures HasStandIn(Padded(lists, n), b) {
      assert HasStandIn(lists, b);
      var a :| StandsFor(lists, a, b);
      assert StandsFor(Padded(lists, n), a, b);
    }
  }

  lemma PaddedStoreLists(lists: seq<seq<Access>>, hist: set<Access>, n: nat)
    requires ListsFrom(lists, hist) && StoresListed(lists, hist) && |lists| <= n
    ensures ListsFrom(Padded(lists, n), hist) && StoresListed(Padded(lists, n), hist)
  {
  }

  // The first `i` prior stores have been ordered before `rf`.
  ghost predicate PriorsAdded(g0: Graph, g: Graph, hist: set<Access>, last: nat, rf: Stamp, prior: seq<Stamp>, i: nat) {
    && Consistent(g, hist, last) && Stored(hist, rf) && Harmless(g0, hist, rf, prior) && i <= |prior|
    && (forall x, y :: Reach(g0, x, y) ==> Reach(g, x, y))
    && OrderedBefore(g0, g, prior[..i], rf)
    && (forall k :: 0 <= k < i ==> Reach(g, prior[k], rf))
  }

  lemma OnePriorMore(g0: Graph, g: Graph, h: Graph, hist: set<Access>, last: nat, rf: Stamp, prior: seq<Stamp>, i: nat)
    requires PriorsAdded(g0, g, hist, last, rf, prior, i) && i < |prior|
    requires RmwsFollow(WithNode(WithNode(g, prior[i]), rf))
    requires EdgeAdded(WithNode(WithNode(g, prior[i]), rf), h, prior[i], rf, false)
    ensures PriorsAdded(g0, h, hist, last, rf, prior, i + 1)
  {
    var p := prior[i];
    assert p in prior && !AtOrBefore(g0, rf, p);
    SameBehind(g0, g, prior[..i], rf, p);
    PriorEdge(g, hist, last, p, rf, h);
    assert prior[..i + 1] == prior[..i] + [p];
    OrderedOneMore(g0, g, h, prior[..i], p, rf);
  }

  lemma OrderedOneMore(g0: Graph, g: Graph, h: Graph, ps: seq<Stamp>, p: Stamp, rf: Stamp)
    requires OrderedBefore(g0, g, ps, rf) && OrderedBefore(g, h, [p], rf) && !AtOrBefore(g0, rf, p)
    ensures OrderedBefore(g0, h, ps + [p], rf)
  {
    forall x, y | x != y ensures Reach(h, x, y) <==> Reach(g0, x, y) || Via(g0, ps + [p], rf, x, y) {
      assert Reach(h, x, y) <==> Reach(g, x, y) || Via(g, [p], rf, x, y);
      SameBefore(g0, g, ps, p, rf, x);
      SameBehind(g0, g, ps, rf, y);
      assert InSet(ps + [p], g0, x) <==> InSet(ps, g0, x) || AtOrBefore(g0, x, p) by {
        assert p in ps + [p];
      }
      assert InSet([p], g, x) <==> AtOrBefore(g, x, p) by {
        assert p in [p];
      }
    }
  }

  lemma SameBefore(g0: Graph, g: Graph, ps: seq<Stamp>, p: Stamp, rf: Stamp, x: Stamp)
    requires OrderedBefore(g0, g, ps, rf) && !AtOrBefore(g0, rf, p)
    ensures AtOrBefore(g, x, p) <==> AtOrBefore(g0, x, p)
  {
    if x != p {
      assert Reach(g, x, p) <==> Reach(g0, x, p) || Via(g0, ps, rf, x, p);
    }
  }

  lemma SameBehind(g0: Graph, g: Graph, ps: seq<Stamp>, rf: Stamp, y: Stamp)
    requires OrderedBefore(g0, g, ps, rf)
    ensures AtOrBefore(g, rf, y) <==> AtOrBefore(g0, rf, y)
  {
    if y != rf {
      assert Reach(g, rf, y) <==> Reach(g0, rf, y) || Via(g0, ps, rf, rf, y);
    }
  }

  ghost predicate ReadLast(l: seq<Access>, cv: Clock, rf: Stamp) {
    exists a {:trigger a in l} :: a in l && IsLatest(l, cv, Some(a)) && !a.isWrite && a.readsFrom == rf
  }

  // A thread's latest access is unique.
  lemma OneLatest(l: seq<Access>, t: nat, cv: Clock, latest: Option<Access>, rf: Stamp)
    requires SortedList(l, t) && IsLatest(l, cv, latest)
    ensures (latest.Some? && !latest.value.isWrite && latest.value.readsFrom == rf) <==>
      ReadLast(l, cv, rf)
  {
    forall a, b | IsLatest(l, cv, Some(a)) && IsLatest(l, cv, Some(b)) ensures a == b {
      var i :| 0 <= i < |l| && l[i] == a;
      var j :| 0 <= j < |l| && l[j] == b;
      assert a.stamp.num == b.stamp.num;
    }
  }

  function DropAt(s: seq<Access>, i: nat): (r: seq<Access>)
    requires i < |s|
    ensures |r| == |s| - 1 && forall x :: x in r ==> x in s
  {
    s[i := s[|s| - 1]][..|s| - 1]
  }

  lemma DropKeepsOthers(s: seq<Access>, i: nat, x: Access)
    requires i < |s| && x in s && x != s[i]
    ensures x in DropAt(s, i)
  {
    var k :| 0 <= k < |s| && s[k] == x;
    assert DropAt(s, i)[if k == |s| - 1 then i else k] == x;
  }

  lemma StoredIsPositive(hist: set<Access>, last: nat, s: Stamp)
    requires Timeline(hist, last) && Stored(hist, s)
    ensures 0 < s.num <= last
  {
    var w :| w in hist && w.isWrite && w.stamp == s;
    assert WellTimed(w);
  }

  ghost predicate StoreListOf(list: seq<Access>, t: nat, hist: set<Access>) {
    && SortedList(list, t)
    && (forall a :: a in list ==> a in hist && a.isWrite)
    && (forall w :: w in hist && w.isWrite && w.stamp.tid == t ==> w in list)
  }

  // A store that no later store of its thread hides from the load.
  predicate Candidate(hist: set<Access>, cv: Clock, w: Access) {
    && w in hist && w.isWrite
    && forall v ::
      (v in hist && v.isWrite && v.stamp.tid == w.stamp.tid && w.stamp.num < v.stamp.num
       ==> !SynchronizedSince(cv, v.stamp))
  }

  predicate InTail(list: seq<Access>, i: nat, w: Access) {
    exists k :: i <= k < |list| && list[k] == w
  }

  lemma TailIsCandidates(list: seq<Access>, cv: Clock, t: nat, hist: set<Access>, i: nat, w: Access)
    requires StoreListOf(list, t, hist) && i <= |list|
    requires forall k :: i < k < |list| ==> !SynchronizedSince(cv, list[k].stamp)
    requires i == 0 || (i < |list| && SynchronizedSince(cv, list[i].stamp))
    ensures InTail(list, i, w) <==> w.stamp.tid == t && Candidate(hist, cv, w)
  {
    if InTail(list, i, w) {
      var k :| i <= k < |list| && list[k] == w;
      assert list[k] in list;
      forall v | v in hist && v.isWrite && v.stamp.tid == t && w.stamp.num < v.stamp.num
        ensures !SynchronizedSince(cv, v.stamp)
      {
        var l :| 0 <= l < |list| && list[l] == v;
      }
    }
    if w.stamp.tid == t && Candidate(hist, cv, w) {
      var k :| 0 <= k < |list| && list[k] == w;
      if i > 0 {
        assert list[i] in list;
      }
      assert i <= k;
    }
  }

  // Nothing readable is left out of the candidates.
  lemma ReadableIsCandidate(g: Graph, hist: set<Access>, last: nat, cv: Clock, w: Access)
    requires Consistent(g, hist, last) && w in hist && w.isWrite && Readable(g, hist, cv, w.stamp)
    ensures Candidate(hist, cv, w)
  {
    forall v | v in hist && v.isWrite && v.stamp.tid == w.stamp.tid && w.stamp.num < v.stamp.num
      ensures !SynchronizedSince(cv, v.stamp)
    {
      assert Stored(hist, v.stamp);
      StoresOfThreadChained(g, hist, last, w.stamp, v.stamp);
    }
  }

  lemma FollowsAccounted(g: Graph, rf: Stamp, prior: seq<Stamp>, a: Access, b: Access)
    requires AtOrBefore(g, Source(a), Source(b)) && Accounted(g, rf, prior, b)
    ensures Accounted(g, rf, prior, a)
  {
    if AtOrBefore(g, Source(b), rf) {
      AtOrBeforeTrans(g, Source(a), Source(b), rf);
    } else {
      var p :| p in prior && AtOrBefore(g, Source(b), p);
      AtOrBeforeTrans(g, Source(a), Source(b), p);
    }
  }

  lemma AtOrBeforeTrans(g: Graph, x: Stamp, y: Stamp, z: Stamp)
    requires AtOrBefore(g, x, y) && AtOrBefore(g, y, z)
    ensures AtOrBefore(g, x, z)
  {
    if x != y && y != z {
      ReachTrans(g, x, y, z);
    }
  }
}
