// Happens-before and the vector clocks that stand for it: `create_cv`,
// `synchronize_with` and `happens_before` in `action.cc`.
//
// Actions are numbered in the order they are created; the sequence number of
// action `i` is `i + 1`.

module HappensBefore {
  import opened Options
  import opened Clocks

  // `creator` is the action that created the thread; `syncs` are the actions
  // this one has synchronized with.
  datatype Action = Action(tid: nat, creator: Option<nat>, syncs: seq<nat>)

  function StampOf(acts: seq<Action>, i: nat): Stamp
    requires i < |acts|
  {
    Stamp(acts[i].tid, i + 1)
  }

  // The last of the first `n` actions by thread `tid`.
  function LastBefore(acts: seq<Action>, n: nat, tid: nat): (r: Option<nat>)
    requires n <= |acts|
    ensures r.Some? ==> r.value < n && acts[r.value].tid == tid
    ensures forall k {:trigger acts[k]} :: (if r.Some? then r.value + 1 else 0) <= k < n ==> acts[k].tid != tid
  {
    if n == 0 then None else if acts[n - 1].tid == tid then Some(n - 1) else LastBefore(acts, n - 1, tid)
  }

  predicate WellFormed(acts: seq<Action>) {
    forall i {:trigger acts[i]} :: 0 <= i < |acts| ==>
      (acts[i].creator.Some? ==> acts[i].creator.value < i) && forall s :: s in acts[i].syncs ==> s <= i
  }

  // Action `j` is the next of its thread after `i`.
  predicate NextOfThread(acts: seq<Action>, i: nat, j: nat)
    requires j < |acts|
  {
    i < j && acts[i].tid == acts[j].tid && forall k {:trigger acts[k]} :: i < k < j ==> acts[k].tid != acts[j].tid
  }

  // Action `j` is the first of its thread, which action `i` created.
  predicate FirstOfThread(acts: seq<Action>, i: nat, j: nat)
    requires j < |acts|
  {
    i < j && acts[j].creator == Some(i) && forall k {:trigger acts[k]} :: 0 <= k < j ==> acts[k].tid != acts[j].tid
  }

  // Program order, thread creation and synchronization.
  predicate Edge(acts: seq<Action>, i: nat, j: nat)
    requires j < |acts|
  {
    NextOfThread(acts, i, j) || FirstOfThread(acts, i, j) || (i < j && i in acts[j].syncs)
  }

  // What `get_parent_action` gives a new action of thread `tid`: the last action
  // of the thread, or the one that created it.
  ghost predicate IsParent(acts: seq<Action>, tid: nat, creator: Option<nat>, parent: Option<nat>) {
    if exists k {:trigger acts[k]} :: 0 <= k < |acts| && acts[k].tid == tid then
      && parent.Some? && parent.value < |acts| && acts[parent.value].tid == tid
      && forall k {:trigger acts[k]} :: parent.value < k < |acts| ==> acts[k].tid != tid
    else parent == creator
  }

  // The reflexive and transitive closure of the edges.
  ghost predicate Hb(acts: seq<Action>, i: nat, j: nat)
    requires j < |acts|
    decreases j
  {
    i == j || exists k: nat {:trigger Edge(acts, k, j)} :: k < j && Edge(acts, k, j) && Hb(acts, i, k)
  }

  lemma {:induction false} HbIsUpward(acts: seq<Action>, i: nat, j: nat)
    requires j < |acts| && Hb(acts, i, j)
    ensures i <= j
    decreases j
  {
    if i != j {
      var k: nat :| k < j && Edge(acts, k, j) && Hb(acts, i, k);
      HbIsUpward(acts, i, k);
    }
  }

  lemma {:induction false} HbTrans(acts: seq<Action>, i: nat, j: nat, k: nat)
    requires j < |acts| && k < |acts| && Hb(acts, i, j) && Hb(acts, j, k)
    ensures Hb(acts, i, k)
    decreases k
  {
    if j != k {
      var m: nat :| m < k && Edge(acts, m, k) && Hb(acts, j, m);
      HbTrans(acts, i, j, m);
    }
  }

  // Actions of one thread are ordered as they were created.
  lemma {:induction false} ProgramOrder(acts: seq<Action>, i: nat, j: nat)
    requires i <= j < |acts| && acts[i].tid == acts[j].tid
    ensures Hb(acts, i, j)
    decreases j
  {
    if i < j {
      var last := LastBefore(acts, j, acts[j].tid);
      assert last.Some? && i <= last.value;
      ProgramOrder(acts, i, last.value);
      assert NextOfThread(acts, last.value, j);
      assert Edge(acts, last.value, j);
    }
  }

  // The same without `Edge`: action `i` is an earlier one of `j`'s thread, or
  // created that thread, whose first action `j` is, or `j` synchronized with it.
  ghost predicate DirectlyBefore(acts: seq<Action>, i: nat, j: nat) {
    && i < j < |acts|
    && (|| acts[i].tid == acts[j].tid
        || (acts[j].creator == Some(i) && forall k {:trigger acts[k]} :: 0 <= k < j ==> acts[k].tid != acts[j].tid)
        || i in acts[j].syncs)
  }

  // A way through the trace in direct steps.
  ghost predicate IsWay(acts: seq<Action>, p: seq<nat>, i: nat, j: nat) {
    && p != [] && p[0] == i && p[|p| - 1] == j
    && forall m: nat {:trigger DirectlyBefore(acts, p[m], p[m + 1])} :: m + 1 < |p| ==>
         DirectlyBefore(acts, p[m], p[m + 1])
  }

  lemma {:induction false} HbHasWay(acts: seq<Action>, i: nat, j: nat) returns (p: seq<nat>)
    requires j < |acts| && Hb(acts, i, j)
    ensures IsWay(acts, p, i, j)
    decreases j
  {
    p := [j];
    if i != j {
      var k: nat :| k < j && Edge(acts, k, j) && Hb(acts, i, k);
      var q := HbHasWay(acts, i, k);
      assert DirectlyBefore(acts, k, j);
      p := q + [j];
      forall m: nat | m + 1 < |p| ensures DirectlyBefore(acts, p[m], p[m + 1]) {
        assert m + 1 < |q| ==> DirectlyBefore(acts, q[m], q[m + 1]);
      }
    }
  }

  lemma {:induction false} WayIsHb(acts: seq<Action>, p: seq<nat>, i: nat, j: nat)
    requires j < |acts| && IsWay(acts, p, i, j)
    ensures Hb(acts, i, j)
    decreases |p|
  {
    if |p| > 1 {
      var n := |p| - 2;
      var k, q := p[n], p[..n + 1];
      assert DirectlyBefore(acts, p[n], p[n + 1]);
      forall m: nat | m + 1 < |q| ensures DirectlyBefore(acts, q[m], q[m + 1]) {
        assert DirectlyBefore(acts, p[m], p[m + 1]);
      }
      WayIsHb(acts, q, i, k);
      if acts[k].tid == acts[j].tid {
        ProgramOrder(acts, k, j);
      } else {
        assert Edge(acts, k, j) && Hb(acts, k, k) && Hb(acts, k, j);
      }
      HbTrans(acts, i, k, j);
    }
  }

  // `Hb` is the closure of the direct steps.
  lemma HbIffWay(acts: seq<Action>, i: nat, j: nat)
    requires j < |acts|
    ensures Hb(acts, i, j) <==> exists p: seq<nat> :: IsWay(acts, p, i, j)
  {
    if Hb(acts, i, j) {
      var p := HbHasWay(acts, i, j);
    }
    if p: seq<nat> :| IsWay(acts, p, i, j) {
      WayIsHb(acts, p, i, j);
    }
  }

  // The past does not change.
  lemma EdgeStable(acts: seq<Action>, acts': seq<Action>, i: nat, j: nat)
    requires j < |acts| && j < |acts'|
    requires forall k :: 0 <= k <= j ==> acts[k] == acts'[k]
    ensures Edge(acts, i, j) <==> Edge(acts', i, j)
  {
    assert acts[j] == acts'[j] && (i < j ==> acts[i] == acts'[i]);
    assert forall k {:trigger acts[k]} {:trigger acts'[k]} :: 0 <= k < j ==> acts[k] == acts'[k];
  }

  lemma {:induction false} HbStable(acts: seq<Action>, acts': seq<Action>, i: nat, j: nat)
    requires j < |acts| && j < |acts'|
    requires forall k :: 0 <= k <= j ==> acts[k] == acts'[k]
    ensures Hb(acts, i, j) <==> Hb(acts', i, j)
    decreases j
  {
    forall k: nat | k < j
      ensures Edge(acts, k, j) && Hb(acts, i, k) <==> Edge(acts', k, j) && Hb(acts', i, k)
    {
      EdgeStable(acts, acts', k, j);
      HbStable(acts, acts', i, k);
    }
  }

  // ---- Clocks that are right ----

  // Entry `t` of action `j`'s clock is the number of an action by thread `t`
  // that happens before `j`, or 0.
  ghost predicate Heard(acts: seq<Action>, cvs: seq<Clock>, j: nat, t: nat)
    requires j < |acts| == |cvs|
  {
    At(cvs[j], t) > 0 ==>
      exists k: nat {:trigger Hb(acts, k, j)} :: k <= j && acts[k].tid == t && At(cvs[j], t) == k + 1 && Hb(acts, k, j)
  }

  // What `cvs[j]` must satisfy; it speaks of no later action.
  ghost predicate ClockOk(acts: seq<Action>, cvs: seq<Clock>, j: nat)
    requires j < |acts| == |cvs|
  {
    && At(cvs[j], acts[j].tid) == j + 1
    && (forall t: nat {:trigger Heard(acts, cvs, j, t)} :: Heard(acts, cvs, j, t))
    && (forall i: nat {:trigger Edge(acts, i, j)} :: i < j && Edge(acts, i, j) ==> Leq(cvs[i], cvs[j]))
  }

  ghost predicate ClocksOk(acts: seq<Action>, cvs: seq<Clock>) {
    && |acts| == |cvs| && WellFormed(acts)
    && forall j: nat {:trigger ClockOk(acts, cvs, j)} :: j < |acts| ==> ClockOk(acts, cvs, j)
  }

  lemma {:induction false} HbRaisesClock(acts: seq<Action>, cvs: seq<Clock>, i: nat, j: nat)
    requires ClocksOk(acts, cvs) && j < |acts| && Hb(acts, i, j)
    ensures i <= j && Leq(cvs[i], cvs[j])
    decreases j
  {
    if i != j {
      var k: nat :| k < j && Edge(acts, k, j) && Hb(acts, i, k);
      HbRaisesClock(acts, cvs, i, k);
      assert ClockOk(acts, cvs, j);
    }
  }

  // The clock comparison decides happens-before.
  lemma HappensBeforeIsHb(acts: seq<Action>, cvs: seq<Clock>, i: nat, j: nat)
    requires ClocksOk(acts, cvs) && i < |acts| && j < |acts|
    ensures SynchronizedSince(cvs[j], StampOf(acts, i)) <==> Hb(acts, i, j)
  {
    var t := acts[i].tid;
    assert ClockOk(acts, cvs, i) && ClockOk(acts, cvs, j);
    if Hb(acts, i, j) {
      HbRaisesClock(acts, cvs, i, j);
      assert At(cvs[i], t) <= At(cvs[j], t);
    }
    if SynchronizedSince(cvs[j], StampOf(acts, i)) {
      assert Heard(acts, cvs, j, t);
      var k: nat :| k <= j && acts[k].tid == t && At(cvs[j], t) == k + 1 && Hb(acts, k, j);
      ProgramOrder(acts, i, k);
      HbTrans(acts, i, k, j);
    }
  }

  // And the clocks are ordered just as the actions are.
  lemma ClockOrderIsHb(acts: seq<Action>, cvs: seq<Clock>, i: nat, j: nat)
    requires ClocksOk(acts, cvs) && i < |acts| && j < |acts|
    ensures Leq(cvs[i], cvs[j]) <==> Hb(acts, i, j)
  {
    if Leq(cvs[i], cvs[j]) {
      assert ClockOk(acts, cvs, i);
      assert At(cvs[i], acts[i].tid) <= At(cvs[j], acts[i].tid);
      HappensBeforeIsHb(acts, cvs, i, j);
    }
    if Hb(acts, i, j) {
      HbRaisesClock(acts, cvs, i, j);
    }
  }

  // ---- The two steps ----

  lemma ClockOkStable(acts: seq<Action>, cvs: seq<Clock>, acts': seq<Action>, cvs': seq<Clock>, j: nat)
    requires |acts| == |cvs| && |acts'| == |cvs'| && j < |acts| && j < |acts'|
    requires forall k :: 0 <= k <= j ==> acts[k] == acts'[k] && cvs[k] == cvs'[k]
    requires ClockOk(acts, cvs, j)
    ensures ClockOk(acts', cvs', j)
  {
    forall t: nat ensures Heard(acts', cvs', j, t) {
      assert Heard(acts, cvs, j, t);
      if At(cvs[j], t) > 0 {
        var k: nat :| k <= j && acts[k].tid == t && At(cvs[j], t) == k + 1 && Hb(acts, k, j);
        HbStable(acts, acts', k, j);
      }
    }
    forall i: nat | i < j && Edge(acts', i, j) ensures Leq(cvs'[i], cvs'[j]) {
      EdgeStable(acts, acts', i, j);
    }
  }

  // The one edge into a new action comes from its parent.
  lemma ParentIsEdge(acts: seq<Action>, act: Action, parent: Option<nat>)
    requires IsParent(acts, act.tid, act.creator, parent) && act.syncs == []
    requires act.creator.Some? ==> act.creator.value < |acts|
    ensures forall i: nat {:trigger Edge(acts + [act], i, |acts|)} :: Edge(acts + [act], i, |acts|) <==>
      parent == Some(i)
  {
    var acts', n := acts + [act], |acts|;
    assert acts'[n] == act && forall k {:trigger acts[k]} {:trigger acts'[k]} :: 0 <= k < n ==> acts'[k] == acts[k];
    forall i: nat ensures Edge(acts', i, n) <==> parent == Some(i) {
      if parent.Some? && i != parent.value && i < n {
        assert acts[i].tid == acts[parent.value].tid ==> acts'[i].tid == acts'[parent.value].tid;
      }
    }
  }

  // A new action hears what its parent heard.
  lemma CreatedOk(acts: seq<Action>, cvs: seq<Clock>, act: Action, parent: Option<nat>, cv: Clock)
    requires ClocksOk(acts, cvs) && act.syncs == [] && (act.creator.Some? ==> act.creator.value < |acts|)
    requires IsParent(acts, act.tid, act.creator, parent) && (parent.Some? ==> parent.value < |acts|)
    requires cv == Stamped(if parent.Some? then cvs[parent.value] else [], Stamp(act.tid, |acts| + 1))
    ensures ClocksOk(acts + [act], cvs + [cv])
  {
    var acts', cvs', n := acts + [act], cvs + [cv], |acts|;
    forall j: nat | j < n ensures ClockOk(acts', cvs', j) {
      assert ClockOk(acts, cvs, j);
      ClockOkStable(acts, cvs, acts', cvs', j);
    }
    ParentIsEdge(acts, act, parent);
    forall t: nat ensures Heard(acts', cvs', n, t) {
      if t == act.tid {
        assert Hb(acts', n, n);
      } else if At(cv, t) > 0 {
        var p := parent.value;
        var k := HeardFrom(acts, cvs, acts', p, t);
        assert Edge(acts', p, n) && Hb(acts', k, n);
      }
    }
    forall i: nat | i < n && Edge(acts', i, n) ensures Leq(cvs'[i], cvs'[n]) {
      assert parent == Some(i);
      forall t: nat ensures At(cvs[i], t) <= At(cv, t) {
        ClockBounded(acts, cvs, i, t);
      }
    }
    assert ClockOk(acts', cvs', n);
  }

  lemma ClockBounded(acts: seq<Action>, cvs: seq<Clock>, j: nat, t: nat)
    requires ClocksOk(acts, cvs) && j < |acts|
    ensures At(cvs[j], t) <= j + 1
  {
    assert ClockOk(acts, cvs, j);
    assert Heard(acts, cvs, j, t);
  }

  // What action `p` heard, seen from a longer trace.
  lemma HeardFrom(acts: seq<Action>, cvs: seq<Clock>, acts': seq<Action>, p: nat, t: nat) returns (k: nat)
    requires ClocksOk(acts, cvs) && p < |acts| && p < |acts'| && At(cvs[p], t) > 0
    requires forall k :: 0 <= k <= p ==> acts[k] == acts'[k]
    ensures k <= p && acts'[k].tid == t && At(cvs[p], t) == k + 1 && Hb(acts', k, p)
  {
    assert ClockOk(acts, cvs, p);
    assert Heard(acts, cvs, p, t);
    k :| k <= p && acts[k].tid == t && At(cvs[p], t) == k + 1 && Hb(acts, k, p);
    HbStable(acts, acts', k, p);
  }

  function Synced(acts: seq<Action>, first: nat): seq<Action>
    requires acts != []
  {
    var n := |acts| - 1;
    acts[n := acts[n].(syncs := acts[n].syncs + [first])]
  }

  // Synchronizing adds just the edge from `first`.
  lemma SyncedEdge(acts: seq<Action>, first: nat, i: nat)
    requires acts != [] && first < |acts|
    ensures var n := |acts| - 1;
      Edge(Synced(acts, first), i, n) <==> Edge(acts, i, n) || (i == first && i < n)
  {
    var acts', n := Synced(acts, first), |acts| - 1;
    assert forall k {:trigger acts[k]} {:trigger acts'[k]} :: 0 <= k < n ==> acts'[k] == acts[k];
    assert acts'[n].syncs == acts[n].syncs + [first];
  }

  // An action that synchronizes hears what the other heard.
  lemma SyncedOk(acts: seq<Action>, cvs: seq<Clock>, first: nat)
    requires ClocksOk(acts, cvs) && first < |acts|
    ensures ClocksOk(Synced(acts, first), cvs[|acts| - 1 := Join(cvs[|acts| - 1], cvs[first])])
  {
    var n := |acts| - 1;
    var cv := Join(cvs[n], cvs[first]);
    var acts', cvs' := Synced(acts, first), cvs[n := cv];
    forall j: nat | j < n ensures ClockOk(acts', cvs', j) {
      assert ClockOk(acts, cvs, j);
      ClockOkStable(acts, cvs, acts', cvs', j);
    }
    assert ClockOk(acts, cvs, n);
    forall t: nat ensures Heard(acts', cvs', n, t) {
      if t == acts[n].tid {
        ClockBounded(acts, cvs, first, t);
        assert Hb(acts', n, n);
      } else if At(cv, t) > 0 {
        SyncedHeard(acts, cvs, first, t);
      }
    }
    ClockBounded(acts, cvs, first, acts[n].tid);
    JoinIsLeastUpperBound(cvs[n], cvs[first], cv);
    forall i: nat | i < n && Edge(acts', i, n) ensures Leq(cvs'[i], cvs'[n]) {
      SyncedEdge(acts, first, i);
    }
    assert ClockOk(acts', cvs', n);
  }

  lemma SyncedHeard(acts: seq<Action>, cvs: seq<Clock>, first: nat, t: nat)
    requires ClocksOk(acts, cvs) && first < |acts| && t != acts[|acts| - 1].tid
    requires At(Join(cvs[|acts| - 1], cvs[first]), t) > 0
    ensures var n := |acts| - 1; Heard(Synced(acts, first), cvs[n := Join(cvs[n], cvs[first])], n, t)
  {
    var n := |acts| - 1;
    var acts' := Synced(acts, first);
    if At(cvs[first], t) > At(cvs[n], t) {
      var k := HeardFrom(acts, cvs, acts', first, t);
      SyncedEdge(acts, first, first);
      assert Hb(acts', k, n);
    } else {
      var k := HeardFrom(acts, cvs, acts, n, t);
      var m: nat :| m < n && Edge(acts, m, n) && Hb(acts, k, m);
      HbStable(acts, acts', k, m);
      SyncedEdge(acts, first, m);
      assert Hb(acts', k, n);
    }
  }

  // ---- The trace, as the engine builds it ----

  class ActionTrace {
    var acts: seq<Action>
    var cvs: seq<Clock>

    ghost predicate Valid()
      reads this
    {
      ClocksOk(acts, cvs)
    }

    constructor ()
      ensures Valid() && acts == []
    {
      acts, cvs := [], [];
    }

    method GetParentAction(tid: nat, creator: Option<nat>) returns (parent: Option<nat>)
      ensures IsParent(acts, tid, creator, parent)
    {
      var n: nat := |acts|;
      while n > 0 && acts[n - 1].tid != tid
        invariant n <= |acts| && forall k {:trigger acts[k]} :: n <= k < |acts| ==> acts[k].tid != tid
      {
        n := n - 1;
      }
      parent := if n > 0 then Some(n - 1) else creator;
    }

    // A new action, its clock inherited from its parent: `create_cv`.
    method Create(tid: nat, creator: Option<nat>)
      requires Valid() && (creator.Some? ==> creator.value < |acts|)
      modifies this
      ensures Valid() && acts == old(acts) + [Action(tid, creator, [])]
    {
      var parent := GetParentAction(tid, creator);
      var inherited := if parent.Some? then Some(cvs[parent.value]) else None;
      var cv := NewClock(inherited, Some(Stamp(tid, |acts| + 1)));
      CreatedOk(acts, cvs, Action(tid, creator, []), parent, cv);
      acts, cvs := acts + [Action(tid, creator, [])], cvs + [cv];
    }

    // The current action, which is the last, synchronizes with `first`.
    method Synchronize(first: nat)
      requires Valid() && first < |acts|
      modifies this
      ensures Valid() && |acts| == |old(acts)|
      ensures var n := |acts| - 1; acts[..n] == old(acts)[..n]
      ensures var was, now := old(acts)[|acts| - 1], acts[|acts| - 1];
        now.tid == was.tid && now.creator == was.creator && now.syncs == was.syncs + [first]
    {
      var n := |acts| - 1;
      SyncedOk(acts, cvs, first);
      var cv, _ := Merge(cvs[n], cvs[first]);
      acts, cvs := Synced(acts, first), cvs[n := cv];
    }

    method HappensBefore(i: nat, j: nat) returns (before: bool)
      requires Valid() && i < |acts| && j < |acts|
      ensures before <==> exists p: seq<nat> :: IsWay(acts, p, i, j)
    {
      HappensBeforeIsHb(acts, cvs, i, j);
      HbIffWay(acts, i, j);
      before := SynchronizedSince(cvs[j], StampOf(acts, i));
    }
  }
}
