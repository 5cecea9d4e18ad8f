// What the graph is for: its constraints admit a total modification order in
// which every RMW immediately follows the store it reads (C++11, section
// 29.3 paragraph 12) exactly when the graph is acyclic.

module ModificationOrder {
  import opened Options
  import opened Sequences
  import opened Clocks
  import opened MoGraph
  import opened MoGraphLaws

  ghost predicate IsModificationOrder(g: Graph, o: seq<Stamp>) {
    && Distinct(o)
    && (forall a :: a in o <==> a in g)
    && (forall i, j :: 0 <= i < |o| && 0 <= j < |o| && Edge(g, o[i], o[j]) ==> i < j)
    && (forall i :: 0 <= i < |o| && g[o[i]].rmw.Some? ==> i + 1 < |o| && o[i + 1] == g[o[i]].rmw.value)
  }

  // The tail of a modification order: closed under edges, with every RMW in it,
  // bar the first, behind the store it reads.
  ghost predicate IsTail(g: Graph, o: seq<Stamp>) {
    && Distinct(o)
    && (forall i :: 0 <= i < |o| ==> o[i] in g)
    && (forall i, b :: 0 <= i < |o| && Edge(g, o[i], b) ==> b in o[i + 1..])
    && (forall i :: 0 <= i < |o| && g[o[i]].rmw.Some? ==> i + 1 < |o| && o[i + 1] == g[o[i]].rmw.value)
    && (forall w :: w in g && w !in o && g[w].rmw.Some? && g[w].rmw.value in o ==> g[w].rmw.value == o[0])
  }

  // In a non-empty part of an acyclic graph some node has no edge back into it.
  lemma SinkExists(g: Graph, rest: set<Stamp>, seen: set<Stamp>, x: Stamp) returns (sink: Stamp)
    requires Closed(g) && Acyclic(g) && rest <= g.Keys && x in rest && seen <= rest && x !in seen
    requires forall v :: v in seen ==> Reach(g, v, x)
    ensures sink in rest && forall b :: b in g[sink].edges ==> b !in rest
    decreases rest - seen
  {
    if forall b :: b in g[x].edges ==> b !in rest {
      return x;
    }
    var b :| b in g[x].edges && b in rest;
    assert Edge(g, x, b);
    ReachSelf(g, x);
    ReachEdge(g, x, b);
    forall v | v in seen + {x} ensures Reach(g, v, b) {
      ReachTrans(g, v, x, b);
    }
    sink := SinkExists(g, rest, seen + {x}, b);
  }

  lemma ExtendTail(g: Graph, o: seq<Stamp>, x: Stamp)
    requires RmwsImmediate(g) && IsTail(g, o) && x in g && x !in o
    requires forall b :: Edge(g, x, b) ==> b in o
    requires g[x].rmw.Some? ==> |o| > 0 && g[x].rmw.value == o[0]
    requires |o| > 0 ==> forall w :: w in g && w !in o && g[w].rmw == Some(o[0]) ==> w == x
    ensures IsTail(g, [x] + o)
  {
    var o' := [x] + o;
    forall i, b | 0 <= i < |o'| && Edge(g, o'[i], b) ensures b in o'[i + 1..] {
      if i == 0 {
        assert o'[1..] == o;
      } else {
        assert o'[i] == o[i - 1] && o'[i + 1..] == o[i..];
      }
    }
    forall i | 0 <= i < |o'| && g[o'[i]].rmw.Some? ensures i + 1 < |o'| && o'[i + 1] == g[o'[i]].rmw.value {
      if i > 0 {
        assert o'[i] == o[i - 1];
      }
    }
    forall w | w in g && w !in o' && g[w].rmw.Some? && g[w].rmw.value in o' ensures g[w].rmw.value == x {
      assert w !in o;
    }
  }

  lemma CompleteTail(g: Graph, o: seq<Stamp>) returns (full: seq<Stamp>)
    requires Closed(g) && Acyclic(g) && RmwsImmediate(g) && IsTail(g, o)
    ensures IsTail(g, full) && forall a :: a in g ==> a in full
    decreases g.Keys - set a | a in o
  {
    var rest := g.Keys - set a | a in o;
    if rest == {} {
      forall a | a in g ensures a in o {
        assert a !in rest;
      }
      return o;
    }
    var x;
    if |o| > 0 && exists w :: w in rest && g[w].rmw == Some(o[0]) {
      x :| x in rest && g[x].rmw == Some(o[0]);
    } else {
      var start :| start in rest;
      x := SinkExists(g, rest, {}, start);
      forall b | Edge(g, x, b) ensures b in o {
        assert b in g;
      }
      assert g[x].rmw.Some? ==> Edge(g, x, g[x].rmw.value);
    }
    ExtendTail(g, o, x);
    assert g.Keys - (set a | a in [x] + o) < rest by {
      assert x in [x] + o;
      assert forall a :: a in o ==> a in [x] + o;
    }
    full := CompleteTail(g, [x] + o);
  }

  lemma OrderRespectsReach(g: Graph, o: seq<Stamp>, i: nat, j: nat)
    requires Closed(g) && IsModificationOrder(g, o) && i < |o| && j < |o| && Reach(g, o[i], o[j])
    ensures i <= j
  {
    var s := set k | 0 <= k < |o| && i <= k :: o[k];
    forall a, b | Edge(g, a, b) && a in s ensures b in s {
      var k :| 0 <= k < |o| && i <= k && o[k] == a;
      assert b in g && b in o;
      var l :| 0 <= l < |o| && o[l] == b;
    }
    ReachInduct(g, s, o[i], o[j]);
  }

  // The graph's verdict is the right one: acyclic means orderable.
  lemma OrderableIffAcyclic(g: Graph)
    requires Closed(g) && RmwsImmediate(g)
    ensures Acyclic(g) <==> exists o :: IsModificationOrder(g, o)
  {
    if Acyclic(g) {
      var o := CompleteTail(g, []);
      forall i, j | 0 <= i < |o| && 0 <= j < |o| && Edge(g, o[i], o[j]) ensures i < j {
        assert o[j] in o[i + 1..];
      }
      assert IsModificationOrder(g, o);
    }
    if exists o :: IsModificationOrder(g, o) {
      var o :| IsModificationOrder(g, o);
      forall a, b | Edge(g, a, b) ensures !Reach(g, b, a) {
        assert a in o && b in o;
        var i :| 0 <= i < |o| && o[i] == a;
        var j :| 0 <= j < |o| && o[j] == b;
        if Reach(g, b, a) {
          OrderRespectsReach(g, o, j, i);
        }
      }
    }
  }
}
