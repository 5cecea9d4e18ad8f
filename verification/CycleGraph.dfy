// The modification-order graph as the engine keeps it: a table of nodes whose
// edge lists and clocks are updated step by step.

module CycleGraph {
  import opened Options
  import opened Clocks
  import opened MoGraph
  import opened MoGraphLaws
  import opened Propagation
  import opened EdgeSets
  import opened GraphRuns

  class CycleGraph {
    var actionToNode: Graph

    constructor ()
      ensures actionToNode == map[]
    {
      actionToNode := map[];
    }

    // Finds the node of an action, creating it on first use.
    method GetNode(action: Stamp)
      modifies this
      ensures actionToNode == WithNode(old(actionToNode), action)
    {
      if action !in actionToNode {
        var clock := NewClock(None, Some(action));
        actionToNode := actionToNode[action := Node([], None, clock)];
      }
    }

    // An action without a node reaches nothing.
    method IsReachable(from: Stamp, to: Stamp) returns (b: bool)
      ensures b <==> CheckReachable(actionToNode, from, to)
    {
      if from !in actionToNode || to !in actionToNode {
        return false;
      }
      b := SynchronizedSince(actionToNode[to].clock, from);
    }

    // `CycleNode::addEdge`: a linear scan for the edge, then an append.
    method AppendEdge(from: Stamp, to: Stamp)
      requires from in actionToNode
      modifies this
      ensures actionToNode == WithEdge(old(actionToNode), from, to)
    {
      var edges := actionToNode[from].edges;
      var i := 0;
      while i < |edges|
        invariant i <= |edges| && to !in edges[..i]
        invariant actionToNode == old(actionToNode)
      {
        if edges[i] == to {
          assert actionToNode[from] == actionToNode[from].(edges := edges);
          return;
        }
        i := i + 1;
      }
      actionToNode := actionToNode[from := actionToNode[from].(edges := edges + [to])];
    }

    // `tonode->cv->merge(fromnode->cv)`.
    method MergeClock(from: Stamp, to: Stamp) returns (changed: bool)
      requires from in actionToNode && to in actionToNode
      modifies this
      ensures actionToNode == Merged(old(actionToNode), from, to)
      ensures changed <==> !Leq(old(actionToNode)[from].clock, old(actionToNode)[to].clock)
    {
      var merged;
      merged, changed := Merge(actionToNode[to].clock, actionToNode[from].clock);
      actionToNode := actionToNode[to := actionToNode[to].(clock := merged)];
    }

    // One merge; what it teaches is queued.
    method InformOne(ghost g0: Graph, ghost to: Stamp, node: Stamp, enode: Stamp, queue0: seq<Stamp>,
      ghost done: seq<Stamp>, ghost len: nat, ghost top: nat)
      returns (queue: seq<Stamp>)
      requires Informing(g0, actionToNode, to, node, done, queue0, len, top) && Edge(g0, node, enode)
      modifies this
      ensures Informing(g0, actionToNode, to, node, done + [enode], queue, len, top)
      ensures Progress(old(actionToNode), queue0, actionToNode, queue, len, top)
    {
      MergeStep(g0, actionToNode, to, Members(queue0), node, enode, done);
      MergeKeepsBounded(actionToNode, node, enode, len, top);
      MergeUsesHeadroom(actionToNode, node, enode, len, top);
      PushMember(queue0, enode);
      var changed := MergeClock(node, enode);
      queue := if changed then queue0 + [enode] else queue0;
    }

    // Merges the clock of `node` into its successors, queueing those it teaches.
    method Inform(ghost g0: Graph, ghost to: Stamp, node: Stamp, queue0: seq<Stamp>, ghost len: nat, ghost top: nat)
      returns (queue: seq<Stamp>)
      requires Spreading(g0, actionToNode, to, Members(queue0) + {node}) && Bounded(actionToNode, len, top)
      requires node in actionToNode
      modifies this
      ensures Spreading(g0, actionToNode, to, Members(queue)) && Bounded(actionToNode, len, top)
      ensures Progress(old(actionToNode), queue0, actionToNode, queue, len, top)
    {
      queue := queue0;
      var edges := actionToNode[node].edges;
      var i := 0;
      while i < |edges|
        invariant i <= |edges| && node in g0 && g0[node].edges == edges
        invariant Informing(g0, actionToNode, to, node, edges[..i], queue, len, top)
        invariant Progress(old(actionToNode), queue0, actionToNode, queue, len, top)
      {
        assert Edge(g0, node, edges[i]);
        queue := InformOne(g0, to, node, edges[i], queue, edges[..i], len, top);
        assert edges[..i + 1] == edges[..i] + [edges[i]];
        i := i + 1;
      }
      assert edges[..i] == edges;
      NodeSettles(g0, actionToNode, to, Members(queue), node);
    }

    // The clock of `to` has just grown: carry the news along its edges.  The loop
    // ends on any graph, cyclic ones and those with edges out of clock order
    // included; where there were none of those, all clocks end up right.
    method Propagate(to: Stamp)
      requires Closed(actionToNode) && to in actionToNode
      modifies this
      ensures Carried(old(actionToNode), actionToNode, to)
      ensures SettledBut(old(actionToNode), to) ==> Flooded(old(actionToNode), actionToNode, to)
    {
      ghost var g0 := actionToNode;
      ghost var len, top := BoundsExist(g0);
      SpreadStarts(g0, to);
      var queue := [to];
      assert Members(queue) == {to};
      while queue != []
        invariant Spreading(g0, actionToNode, to, Members(queue)) && Bounded(actionToNode, len, top)
        decreases Headroom(actionToNode, len, top), |queue|
      {
        var node := queue[|queue| - 1];
        PushMember(queue[..|queue| - 1], node);
        assert queue == queue[..|queue| - 1] + [node];
        queue := queue[..|queue| - 1];
        queue := Inform(g0, to, node, queue, len, top);
      }
      SpreadEnds(g0, actionToNode, to);
    }

    // Adds an edge unless the index already implies it.  A store read by an RMW
    // can have no other successor, so the edge goes in at the end of its chain.
    method AddNodeEdge(from0: Stamp, to: Stamp, forceedge: bool)
      requires from0 in actionToNode && to in actionToNode
      requires Closed(actionToNode) && RmwsFollow(actionToNode)
      modifies this
      ensures EdgeMade(old(actionToNode), actionToNode, from0, to, forceedge)
      ensures SettledBut(old(actionToNode), to) ==> EdgeAdded(old(actionToNode), actionToNode, from0, to, forceedge)
    {
      ghost var g := actionToNode;
      var from := from0;
      var reachable := IsReachable(from, to);
      if reachable && !forceedge {
        return;
      }
      while actionToNode[from].rmw.Some?
        invariant actionToNode == g && from in g
        invariant ChainEnd(g, from0, to) == ChainEnd(g, from, to)
        decreases Later(g, from.num)
      {
        var next := actionToNode[from].rmw.value;
        if next == to {
          break;
        }
        LaterShrinks(g, from, next);
        from := next;
      }
      NewEdgeSettledFor(g, from, to);
      AppendEdge(from, to);
      CarryOver(from, to);
    }

    // `tonode->cv->merge(fromnode->cv)`, and the worklist if that changed anything.
    method CarryOver(from: Stamp, to: Stamp)
      requires from in actionToNode && to in actionToNode && Closed(actionToNode)
      modifies this
      ensures SameShape(old(actionToNode), actionToNode)
      ensures SettledButFor(old(actionToNode), from, to) ==>
        Absorbed(old(actionToNode), actionToNode, to, old(actionToNode)[from].clock)
    {
      ghost var g := actionToNode;
      var changed := MergeClock(from, to);
      MergeLeavesSettled(g, from, to);
      if changed {
        Propagate(to);
      } else {
        MergedClock(g, from, to);
      }
    }

    method AddEdge(from: Stamp, to: Stamp, forceedge: bool)
      requires from.num > 0 && to.num > 0
      requires Closed(actionToNode) && RmwsFollow(actionToNode)
      modifies this
      ensures Answered(old(actionToNode), Request.AddEdge(from, to, forceedge), actionToNode)
    {
      ghost var g0 := actionToNode;
      LinkNodes(from, to, forceedge);
      IsAnswered(g0, Request.AddEdge(from, to, forceedge), actionToNode);
    }

    method LinkNodes(from: Stamp, to: Stamp, forceedge: bool)
      requires from.num > 0 && to.num > 0
      requires Closed(actionToNode) && RmwsFollow(actionToNode)
      modifies this
      ensures var g := WithPair(old(actionToNode), from, to);
        RmwsFollow(g) && EdgeMade(g, actionToNode, from, to, forceedge)
        && (Indexed(old(actionToNode)) ==> EdgeAdded(g, actionToNode, from, to, forceedge))
    {
      ghost var g0 := actionToNode;
      GetNode(from);
      GetNode(to);
      PairIsReady(g0, from, to);
      AddNodeEdge(from, to, forceedge);
    }

    // Records that `rmw` read from `from`: no other store may come between them,
    // so `from`'s successors become successors of `rmw`.
    method AddRmwEdge(from: Stamp, rmw: Stamp)
      requires 0 < from.num < rmw.num
      requires Closed(actionToNode) && RmwsFollow(actionToNode)
      requires rmw in actionToNode ==> actionToNode[rmw].rmw.None?
      modifies this
      ensures var g := WithPair(old(actionToNode), from, rmw);
        RmwMade(g, actionToNode, from, rmw) && (Indexed(old(actionToNode)) ==> RmwLinked(g, actionToNode, from, rmw))
      ensures Answered(old(actionToNode), Request.AddRmwEdge(from, rmw), actionToNode)
    {
      ghost var g0 := actionToNode;
      GetNode(from);
      GetNode(rmw);
      PairIsReady(g0, from, rmw);
      ghost var g := actionToNode;
      MoveEdges(from, rmw);
      ClearedIsReady(g, actionToNode, from, rmw);
      AddNodeEdge(from, rmw, true);
      IsAnswered(g0, Request.AddRmwEdge(from, rmw), actionToNode);
    }

    // `setRMW`, which keeps a mark set before, and the loop that moves `from`'s
    // edges to `rmw`.
    method MoveEdges(from: Stamp, rmw: Stamp)
      requires from in actionToNode && rmw in actionToNode && from != rmw
      modifies this
      ensures actionToNode == Cleared(old(actionToNode), from, rmw)
    {
      if actionToNode[from].rmw.None? {
        actionToNode := actionToNode[from := actionToNode[from].(rmw := Some(rmw))];
      }
      AppendAll(rmw, actionToNode[from].edges);
      actionToNode := actionToNode[from := actionToNode[from].(edges := [])];
      assert actionToNode == Cleared(old(actionToNode), from, rmw);
    }

    method AppendAll(rmw: Stamp, edges: seq<Stamp>)
      requires rmw in actionToNode
      modifies this
      ensures var node := old(actionToNode)[rmw];
        actionToNode == old(actionToNode)[rmw := node.(edges := IncludingAll(node.edges, edges, rmw))]
    {
      ghost var node := actionToNode[rmw];
      var i := 0;
      while i < |edges|
        invariant i <= |edges|
        invariant actionToNode == old(actionToNode)[rmw := node.(edges := IncludingAll(node.edges, edges[..i], rmw))]
      {
        var tonode := edges[i];
        assert edges[..i + 1][..i] == edges[..i];
        if tonode != rmw {
          AppendEdge(rmw, tonode);
        }
        i := i + 1;
      }
      assert edges[..i] == edges;
    }

    // Adds `to`'s predecessors.  A predecessor that the index places before
    // another is dropped first; where the index is sound, it is covered.
    method AddEdges(edgeset: seq<Stamp>, to: Stamp) returns (ghost kept: seq<Stamp>)
      requires to.num > 0 && forall e :: e in edgeset ==> e.num > 0
      requires Closed(actionToNode) && RmwsFollow(actionToNode)
      modifies this
      ensures LinkedMade(old(actionToNode), edgeset, kept, to, actionToNode)
      ensures Trusted(old(actionToNode), Request.AddEdges(edgeset, to)) ==>
        Linked(old(actionToNode), edgeset, kept, to, actionToNode)
      ensures Answered(old(actionToNode), Request.AddEdges(edgeset, to), actionToNode)
    {
      ghost var g0, g := actionToNode, WithNodes(actionToNode, Members(edgeset));
      var es := Prune(edgeset);
      kept := es;
      if es == [] {
        assert WithNodes(g0, {}) == g0;
      } else {
        NodesAreReady(g0, Members(edgeset));
        LinkAll(es, to);
      }
      assert LinkedMade(g0, edgeset, kept, to, actionToNode);
      assert Trusted(g0, Request.AddEdges(edgeset, to)) ==> Linked(g0, edgeset, kept, to, actionToNode);
      IsAnswered(g0, Request.AddEdges(edgeset, to), actionToNode);
    }

    // The edge from one predecessor.
    method LinkOne(from: Stamp, to: Stamp)
      requires to.num > 0 && from.num > 0 && from in WithNode(actionToNode, to)
      requires Closed(actionToNode) && RmwsFollow(actionToNode)
      modifies this
      ensures OneLinked(old(actionToNode), actionToNode, from, to)
    {
      ghost var g := actionToNode;
      LinkNodes(from, to, from.tid == to.tid);
      OneEdgeReady(g, actionToNode, from, to);
    }

    method LinkAll(es: seq<Stamp>, to: Stamp)
      requires es != [] && to.num > 0 && forall k :: k in es ==> k in actionToNode && k.num > 0
      requires Closed(actionToNode) && RmwsFollow(actionToNode)
      modifies this
      ensures EdgesMade(WithNode(old(actionToNode), to), actionToNode, es, to)
      ensures Indexed(old(actionToNode)) && RmwsImmediate(old(actionToNode)) ==>
        EdgesAdded(WithNode(old(actionToNode), to), actionToNode, es, to)
    {
      ghost var g := WithNode(actionToNode, to);
      ghost var sound := Indexed(actionToNode) && RmwsImmediate(actionToNode);
      NodeIsReady(actionToNode, to);
      var i := 0;
      while i < |es|
        invariant i <= |es| && (i > 0 ==> to in actionToNode)
        invariant Linking(g, actionToNode, es[..i], to, sound)
      {
        ghost var before := actionToNode;
        LinkOne(es[i], to);
        LinkedOneMore(g, before, actionToNode, es, i, to, sound);
        i := i + 1;
      }
      assert es[..i] == es && WithNode(actionToNode, to) == actionToNode;
    }

    method Prune(edgeset: seq<Stamp>) returns (es: seq<Stamp>)
      modifies this
      ensures actionToNode == WithNodes(old(actionToNode), Members(edgeset))
      ensures |es| <= |edgeset| && (es == [] <==> edgeset == []) && forall k :: k in es ==> k in edgeset
      ensures SoundOn(actionToNode, edgeset) ==> Covers(actionToNode, edgeset, es)
    {
      ghost var g0, g, seen := actionToNode, WithNodes(actionToNode, Members(edgeset)), {};
      es := edgeset;
      PruneStarts(g, edgeset);
      assert WithNodes(g0, {}) == g0;
      var it := 0;
      while it < |es|
        invariant Pruning(g, edgeset, es, seen, it) && actionToNode == WithNodes(g0, seen) && |es| <= |edgeset|
        invariant es == [] <==> edgeset == []
        decreases |es| - it
      {
        var erased;
        es, erased, seen := PruneFrom(it, es, g0, g, edgeset, seen);
        if !erased {
          it := it + 1;
        }
      }
      PruneEnds(g, edgeset, es, seen);
    }

    // Compares the member at `it` with those behind it: drops it if it reaches
    // one of them, and drops those that reach it.
    method PruneFrom(it: nat, es0: seq<Stamp>, ghost g0: Graph, ghost g: Graph, ghost edgeset: seq<Stamp>,
      ghost seen0: set<Stamp>)
      returns (es: seq<Stamp>, erased: bool, ghost seen: set<Stamp>)
      requires it < |es0| && Pruning(g, edgeset, es0, seen0, it)
      requires actionToNode == WithNodes(g0, seen0) && g == WithNodes(g0, Members(edgeset))
      modifies this
      ensures actionToNode == WithNodes(g0, seen)
      ensures it < |es0| && Pruning(g, edgeset, es, seen, if erased then it else it + 1)
      ensures 0 < |es| <= |es0|
      ensures |es| - (if erased then it else it + 1) < |es0| - it
    {
      es, erased, seen := es0, false, seen0 + {es0[it]};
      PruneVisit(g, edgeset, es, seen0, it);
      WithNodesOneMore(g0, seen0, es[it]);
      GetNode(es[it]);
      var it2 := it + 1;
      while it2 < |es|
        invariant it < it2 <= |es| <= |es0| && es[it] in seen
        invariant Pruning(g, edgeset, es, seen, it2) && actionToNode == WithNodes(g0, seen)
        decreases |es| - it2
      {
        PruneVisit(g, edgeset, es, seen, it2);
        var forward, backward := Compare(es[it], es[it2], g0, edgeset, seen);
        seen := seen + {es[it2]};
        if forward {
          PruneFirst(g, edgeset, es, seen, it, it2);
          return Erase(es, it), true, seen;
        }
        if backward {
          PruneDrop(g, edgeset, es, seen, it2, it, it2 + 1);
          es := Erase(es, it2);
        } else {
          it2 := it2 + 1;
        }
      }
      PruneRewind(g, edgeset, es, seen, it2, it + 1);
    }

    // Does `a` reach `b`, and failing that, `b` reach `a`?
    method Compare(a: Stamp, b: Stamp, ghost g0: Graph, ghost edgeset: seq<Stamp>, ghost seen: set<Stamp>)
      returns (forward: bool, backward: bool)
      requires actionToNode == WithNodes(g0, seen) && seen <= Members(edgeset)
      requires a in seen && b in edgeset
      modifies this
      ensures actionToNode == WithNodes(g0, seen + {b})
      ensures SoundOn(WithNodes(g0, Members(edgeset)), edgeset) && forward ==>
        Reach(WithNodes(g0, Members(edgeset)), a, b)
      ensures SoundOn(WithNodes(g0, Members(edgeset)), edgeset) && backward ==>
        Reach(WithNodes(g0, Members(edgeset)), b, a)
    {
      WithNodesOneMore(g0, seen, b);
      GetNode(b);
      SameAnswer(g0, seen + {b}, Members(edgeset), a, b);
      SameAnswer(g0, seen + {b}, Members(edgeset), b, a);
      forward := IsReachable(a, b);
      backward := false;
      if !forward {
        backward := IsReachable(b, a);
      }
    }
  }

  // A request has its effect; a permitted one leaves the index right exactly if it
  // was no unrepaired RMW.
  ghost predicate Answered(g: Graph, r: Request, h: Graph) {
    && Effect(g, r, h)
    && (Tracked(g) && Permitted(g, r) ==> (Exact(h) <==> Repaired(g, r)) && (Repaired(g, r) ==> Tracked(h)))
  }

  lemma IsAnswered(g: Graph, r: Request, h: Graph)
    requires Effect(g, r, h)
    ensures Answered(g, r, h)
  {
    if Tracked(g) && Permitted(g, r) {
      StepExactIff(g, r, h);
    }
  }

  // The state of the worklist when `node` has been taken off it and has informed
  // its successors `done`.
  ghost predicate Informing(g0: Graph, g: Graph, to: Stamp, node: Stamp, done: seq<Stamp>, queue: seq<Stamp>,
    len: nat, top: nat)
  {
    Spreading(g0, g, to, Members(queue) + {node}) && Bounded(g, len, top) && Informed(g, node, done)
  }

  // The worklist moves on: clocks have learnt something, or nothing was queued.
  ghost predicate Progress(g: Graph, queue0: seq<Stamp>, h: Graph, queue: seq<Stamp>, len: nat, top: nat) {
    || Headroom(h, len, top) < Headroom(g, len, top)
    || (Headroom(h, len, top) == Headroom(g, len, top) && queue == queue0)
  }

  lemma PushMember(queue: seq<Stamp>, a: Stamp)
    ensures Members(queue + [a]) == Members(queue) + {a}
  {
  }

  lemma LaterShrinks(g: Graph, a: Stamp, b: Stamp)
    requires b in g && a.num < b.num
    ensures Later(g, b.num) < Later(g, a.num)
  {
    assert b in Later(g, a.num) && b !in Later(g, b.num);
  }

  // In clock order, but for edges out of `to` and the new one from `from`.
  ghost predicate SettledButFor(g: Graph, from: Stamp, to: Stamp) {
    forall a, b :: Edge(g, a, b) && a != to && b in g && !(a == from && b == to) ==> Leq(g[a].clock, g[b].clock)
  }

  lemma NewEdgeSettledFor(g: Graph, from: Stamp, to: Stamp)
    requires Closed(g) && from in g && to in g
    ensures Closed(WithEdge(g, from, to)) && (SettledBut(g, to) ==> SettledButFor(WithEdge(g, from, to), from, to))
  {
    var g1 := WithEdge(g, from, to);
    forall a, b | Edge(g1, a, b) ensures b in g1 && ((a == from && b == to) || Edge(g, a, b)) {
      assert b in Including(g[a].edges, to);
      assert b == to || Edge(g, a, b);
    }
  }

  // The merge along that edge puts it in order.
  lemma MergeLeavesSettled(g: Graph, from: Stamp, to: Stamp)
    requires Closed(g) && from in g && to in g
    ensures Closed(Merged(g, from, to)) && (SettledButFor(g, from, to) ==> SettledBut(Merged(g, from, to), to))
  {
    var h := Merged(g, from, to);
    MergedClock(g, from, to);
    forall a, b | Edge(h, a, b) ensures b in h {
      assert Edge(g, a, b);
    }
    if SettledButFor(g, from, to) {
      forall a, b | Edge(h, a, b) && a != to && b in h ensures Leq(h[a].clock, h[b].clock) {
        assert Edge(g, a, b);
        if !(a == from && b == to) && b == to {
          LeqTrans(g[a].clock, g[b].clock, h[b].clock);
        }
      }
    }
  }

  lemma PairIsReady(g: Graph, a: Stamp, b: Stamp)
    requires Closed(g) && RmwsFollow(g) && a.num > 0 && b.num > 0
    ensures Closed(WithPair(g, a, b)) && RmwsFollow(WithPair(g, a, b))
    ensures Indexed(g) ==> Indexed(WithPair(g, a, b)) && SettledBut(WithPair(g, a, b), b)
  {
    if Indexed(g) {
      NodeKeepsIndex(g, a);
      NodeKeepsIndex(WithNode(g, a), b);
    }
    var h := WithPair(g, a, b);
    forall x, y | Edge(h, x, y) ensures y in h {
      assert Edge(g, x, y);
    }
    forall x {:trigger h[x].rmw} | x in h && h[x].rmw.Some? ensures h[x].rmw.value in h && x.num < h[x].rmw.value.num {
      assert h[x].rmw == g[x].rmw;
    }
  }

  // Part-way through pruning: nodes exist for the members `seen`, the members
  // from `pos` on are still to be seen, and all are covered in the graph `g`
  // that pruning ends with.
  ghost predicate Pruning(g: Graph, edgeset: seq<Stamp>, es: seq<Stamp>, seen: set<Stamp>, pos: nat) {
    && pos <= |es|
    && (SoundOn(g, edgeset) ==> Covers(g, edgeset, es))
    && (forall k :: k in es ==> k in edgeset)
    && seen <= Members(edgeset)
    && (forall e :: e in edgeset ==> e in seen || Ahead(es, pos, e))
  }

  ghost predicate Ahead(es: seq<Stamp>, pos: nat, e: Stamp) {
    exists n :: pos <= n < |es| && es[n] == e
  }

  // A list without its member at `i`.
  function Erase(es: seq<Stamp>, i: nat): (r: seq<Stamp>)
    requires i < |es|
    ensures |r| == |es| - 1
    ensures forall n {:trigger r[n]} :: 0 <= n < |r| ==> r[n] == if n < i then es[n] else es[n + 1]
    decreases i
  {
    if i == 0 then es[1..] else [es[0]] + Erase(es[1..], i - 1)
  }

  lemma PruneStarts(g: Graph, edgeset: seq<Stamp>)
    requires forall e :: e in edgeset ==> e in g
    ensures Pruning(g, edgeset, edgeset, {}, 0)
  {
    forall e | e in edgeset ensures CoveredBy(g, e, edgeset) {
      ReachSelf(g, e);
    }
  }

  lemma PruneVisit(g: Graph, edgeset: seq<Stamp>, es: seq<Stamp>, seen: set<Stamp>, pos: nat)
    requires Pruning(g, edgeset, es, seen, pos) && pos < |es|
    ensures Pruning(g, edgeset, es, seen + {es[pos]}, pos + 1)
  {
  }

  lemma PruneEnds(g: Graph, edgeset: seq<Stamp>, es: seq<Stamp>, seen: set<Stamp>)
    requires Pruning(g, edgeset, es, seen, |es|)
    ensures seen == Members(edgeset)
  {
  }

  lemma PruneRewind(g: Graph, edgeset: seq<Stamp>, es: seq<Stamp>, seen: set<Stamp>, pos: nat, back: nat)
    requires Pruning(g, edgeset, es, seen, pos) && back <= pos
    ensures Pruning(g, edgeset, es, seen, back)
  {
    assert forall e :: Ahead(es, pos, e) ==> Ahead(es, back, e);
  }

  lemma PruneDrop(g: Graph, edgeset: seq<Stamp>, es: seq<Stamp>, seen: set<Stamp>, i: nat, j: nat, pos: nat)
    requires Pruning(g, edgeset, es, seen, pos)
    requires i < pos && j < |es| && i != j && (SoundOn(g, edgeset) ==> Reach(g, es[i], es[j]))
    ensures Pruning(g, edgeset, Erase(es, i), seen, pos - 1)
  {
    var rest := Erase(es, i);
    forall n | 0 <= n < |es| && n != i ensures es[n] in rest {
      assert rest[if n < i then n else n - 1] == es[n];
    }
    if SoundOn(g, edgeset) {
      forall e | e in edgeset ensures CoveredBy(g, e, rest) {
        assert CoveredBy(g, e, es);
        var k :| k in es && Reach(g, e, k);
        if k == es[i] {
          ReachTrans(g, e, k, es[j]);
        }
      }
    }
    forall e | Ahead(es, pos, e) ensures Ahead(rest, pos - 1, e) {
      var n :| pos <= n < |es| && es[n] == e;
      assert rest[n - 1] == e;
    }
  }

  // Dropping the member at `it` goes back to look at what has come in its place.
  lemma PruneFirst(g: Graph, edgeset: seq<Stamp>, es: seq<Stamp>, seen: set<Stamp>, it: nat, it2: nat)
    requires it < it2 < |es| && Pruning(g, edgeset, es, seen, it2 + 1)
    requires SoundOn(g, edgeset) ==> Reach(g, es[it], es[it2])
    ensures Pruning(g, edgeset, Erase(es, it), seen, it)
  {
    PruneDrop(g, edgeset, es, seen, it, it2, it2 + 1);
    PruneRewind(g, edgeset, Erase(es, it), seen, it2, it);
  }

  // A member that has its node gives the same answers as it will in the end.
  lemma SameAnswer(g0: Graph, seen: set<Stamp>, all: set<Stamp>, a: Stamp, b: Stamp)
    requires a in seen && b in seen && seen <= all
    ensures CheckReachable(WithNodes(g0, seen), a, b) <==> CheckReachable(WithNodes(g0, all), a, b)
  {
  }

  // `h` is `g`, with a node for `to` and the edge from `from`; where the index
  // stood, it still does.
  ghost predicate OneLinked(g: Graph, h: Graph, from: Stamp, to: Stamp) {
    var g1 := WithNode(g, to);
    && from in g1 && RmwsFollow(g1) && EdgeMade(g1, h, from, to, from.tid == to.tid)
    && Closed(h) && RmwsFollow(h) && h.Keys == g1.Keys
    && (Indexed(g) ==> Indexed(h) && EdgeAdded(g1, h, from, to, from.tid == to.tid))
  }

  lemma OneEdgeReady(g: Graph, h: Graph, from: Stamp, to: Stamp)
    requires Closed(g) && RmwsFollow(g) && from.num > 0 && to.num > 0 && from in WithNode(g, to)
    requires RmwsFollow(WithPair(g, from, to)) && EdgeMade(WithPair(g, from, to), h, from, to, from.tid == to.tid)
    requires Indexed(g) ==> EdgeAdded(WithPair(g, from, to), h, from, to, from.tid == to.tid)
    ensures OneLinked(g, h, from, to)
  {
    var g1 := WithNode(g, to);
    PairIsReady(g, from, to);
    assert WithPair(g, from, to) == g1;
    EdgeKeepsClosed(g1, h, from, to, from.tid == to.tid);
    if Indexed(g) {
      EdgeKeepsIndex(g1, h, from, to, from.tid == to.tid);
    }
  }

  // The predecessors `es` have been linked, in a graph that is sound or not.
  ghost predicate Linking(g: Graph, h: Graph, es: seq<Stamp>, to: Stamp, sound: bool) {
    var h1 := WithNode(h, to);
    && EdgesMade(g, h1, es, to) && h1.Keys == g.Keys && Closed(h) && RmwsFollow(h)
    && (sound ==> Indexed(h) && EdgesAdded(g, h1, es, to))
  }

  lemma LinkedOneMore(g: Graph, k: Graph, h: Graph, es: seq<Stamp>, i: nat, to: Stamp, sound: bool)
    requires i < |es| && Linking(g, k, es[..i], to, sound) && OneLinked(k, h, es[i], to)
    ensures to in h && Linking(g, h, es[..i + 1], to, sound)
  {
    assert WithNode(h, to) == h;
    EdgesMadeOneMore(g, WithNode(k, to), h, es, i, to);
    if sound {
      EdgesAddedOneMore(g, WithNode(k, to), h, es, i, to);
    }
  }

  lemma NodeIsReady(g: Graph, s: Stamp)
    requires Closed(g) && RmwsFollow(g) && s.num > 0
    ensures Closed(WithNode(g, s)) && RmwsFollow(WithNode(g, s))
    ensures Indexed(g) && RmwsImmediate(g) ==> Indexed(WithNode(g, s)) && RmwsImmediate(WithNode(g, s))
  {
    PairIsReady(g, s, s);
    assert WithPair(g, s, s) == WithNode(g, s);
    if Indexed(g) && RmwsImmediate(g) {
      OneNodeKeepsIndex(g, s);
    }
  }

  lemma NodesAreReady(g: Graph, s: set<Stamp>)
    requires Closed(g) && RmwsFollow(g) && forall a :: a in s ==> a.num > 0
    ensures Closed(WithNodes(g, s)) && RmwsFollow(WithNodes(g, s))
    ensures Indexed(g) && RmwsImmediate(g) ==> Indexed(WithNodes(g, s)) && RmwsImmediate(WithNodes(g, s))
    decreases s
  {
    if s == {} {
      assert WithNodes(g, s) == g;
    } else {
      var a :| a in s;
      NodesAreReady(g, s - {a});
      NodeIsReady(WithNodes(g, s - {a}), a);
      WithNodesOneMore(g, s - {a}, a);
      assert s - {a} + {a} == s;
    }
  }

  lemma ClearedIsReady(g: Graph, h: Graph, from: Stamp, rmw: Stamp)
    requires Closed(g) && RmwsFollow(g) && from in g && rmw in g && from.num < rmw.num
    requires h == Cleared(g, from, rmw)
    ensures Closed(h) && RmwsFollow(h) && (Ordered(g) ==> SettledBut(h, rmw))
  {
    forall a, b | Edge(h, a, b) ensures b in h {
      assert Edge(g, a, b) || Edge(g, from, b);
    }
    if Ordered(g) {
      forall a, b | Edge(h, a, b) && a != rmw && b in h ensures Leq(h[a].clock, h[b].clock) {
        assert Edge(g, a, b);
      }
    }
    forall a {:trigger h[a].rmw} | a in h && h[a].rmw.Some?
      ensures h[a].rmw.value in h && a.num < h[a].rmw.value.num
    {
      assert a == from || h[a].rmw == g[a].rmw;
    }
  }
}
