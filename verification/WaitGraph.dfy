// Who waits for whom: `waiting_on` and `is_waiting_on` (`threads.cc`).

module WaitGraph {
  import opened Options

  // What a thread will do next, or nothing stashed yet.
  datatype Action =
    | Nothing
    | Lock(m: nat)
    | TryLock(m: nat)
    | Unlock(m: nat)
    | Wait(m: nat)
    | Join(u: nat)
    | Finish
    | Other

  // Threads are numbered; `owner` has the locked mutexes.
  datatype Waits = Waits(pending: seq<Action>, owner: map<nat, nat>, recursive: set<nat>)

  ghost predicate WellFormed(w: Waits) {
    && (forall t {:trigger w.pending[t]} :: 0 <= t < |w.pending| && w.pending[t].Join? ==> w.pending[t].u < |w.pending|)
    && (forall m {:trigger m in w.owner} :: m in w.owner ==> w.owner[m] < |w.pending|)
  }

  function WaitingOn(w: Waits, t: nat): Option<nat>
    requires t < |w.pending|
  {
    match w.pending[t]
    case Join(u) => Some(u)
    case Lock(m) => if m in w.owner then Some(w.owner[m]) else None
    case _ => None
  }

  // A thread about to lock again a recursive mutex it holds.
  predicate Relocks(w: Waits, t: nat)
    requires t < |w.pending|
  {
    var act := w.pending[t];
    act.Lock? && act.m in w.recursive && act.m in w.owner && w.owner[act.m] == t
  }

  // Thread `t` has stashed a join of `u`, or a lock of a mutex that `u` owns.
  ghost predicate BlockedOn(w: Waits, t: nat, u: nat) {
    && t < |w.pending|
    && (|| w.pending[t] == Join(u)
        || exists m: nat :: w.pending[t] == Lock(m) && m in w.owner && w.owner[m] == u)
  }

  // Threads from `t` to `u`, each blocked on the next.
  ghost predicate IsChain(w: Waits, p: seq<nat>, t: nat, u: nat) {
    && p != [] && p[0] == t && p[|p| - 1] == u
    && forall i: nat {:trigger BlockedOn(w, p[i], p[i + 1])} :: i + 1 < |p| ==> BlockedOn(w, p[i], p[i + 1])
  }

  // A chain of at least one step leads from `t` back to `t`.
  ghost predicate OnCycle(w: Waits, t: nat) {
    exists p: seq<nat> {:trigger IsChain(w, p, t, t)} :: |p| > 1 && IsChain(w, p, t, t)
  }

  // A chain leads from `t` to another thread that relocks.
  ghost predicate ReachesRelock(w: Waits, t: nat) {
    exists p: seq<nat>, u: nat {:trigger IsChain(w, p, t, u)} ::
      IsChain(w, p, t, u) && u != t && u < |w.pending| && Relocks(w, u)
  }

  // Where `k` steps along the chain of waiting threads lead from `t`.
  ghost function Nth(w: Waits, t: nat, k: nat): Option<nat> {
    if k == 0 then Some(t)
    else match Nth(w, t, k - 1)
      case None => None
      case Some(u) => if u < |w.pending| then WaitingOn(w, u) else None
  }

  ghost predicate WaitsForItself(w: Waits, t: nat) {
    exists k: nat {:trigger Nth(w, t, k)} :: k > 0 && Nth(w, t, k) == Some(t)
  }

  lemma BlockedIsWaiting(w: Waits, t: nat, u: nat)
    requires t < |w.pending|
    ensures WaitingOn(w, t) == Some(u) <==> BlockedOn(w, t, u)
  {
  }

  lemma {:induction false} NthHasChain(w: Waits, t: nat, k: nat, u: nat) returns (p: seq<nat>)
    requires Nth(w, t, k) == Some(u)
    ensures IsChain(w, p, t, u) && |p| == k + 1
  {
    p := [u];
    if k > 0 {
      var v := Nth(w, t, k - 1).value;
      var q := NthHasChain(w, t, k - 1, v);
      BlockedIsWaiting(w, v, u);
      p := q + [u];
      forall i: nat | i + 1 < |p| ensures BlockedOn(w, p[i], p[i + 1]) {
        assert i + 1 < |q| ==> BlockedOn(w, q[i], q[i + 1]);
      }
    }
  }

  lemma {:induction false} ChainIsNth(w: Waits, p: seq<nat>, t: nat, u: nat)
    requires IsChain(w, p, t, u)
    ensures Nth(w, t, |p| - 1) == Some(u)
    decreases |p|
  {
    if |p| > 1 {
      var n := |p| - 2;
      var q := p[..n + 1];
      assert BlockedOn(w, p[n], p[n + 1]);
      forall i: nat | i + 1 < |q| ensures BlockedOn(w, q[i], q[i + 1]) {
        assert BlockedOn(w, p[i], p[i + 1]);
      }
      ChainIsNth(w, q, t, p[n]);
      BlockedIsWaiting(w, p[n], u);
    }
  }

  // What following `waiting_on` finds is what chains of blocked threads are.
  lemma WaitsIffChain(w: Waits, t: nat)
    ensures WaitsForItself(w, t) <==> OnCycle(w, t)
    ensures MeetsRelock(w, t) <==> ReachesRelock(w, t)
  {
    if WaitsForItself(w, t) {
      var k: nat :| k > 0 && Nth(w, t, k) == Some(t);
      var p := NthHasChain(w, t, k, t);
    }
    if p: seq<nat> :| |p| > 1 && IsChain(w, p, t, t) {
      ChainIsNth(w, p, t, t);
    }
    if MeetsRelock(w, t) {
      var k: nat :| RelocksAt(w, t, k);
      var p := NthHasChain(w, t, k, Nth(w, t, k).value);
    }
    if p: seq<nat>, u: nat :| IsChain(w, p, t, u) && u != t && u < |w.pending| && Relocks(w, u) {
      ChainIsNth(w, p, t, u);
      assert RelocksAt(w, t, |p| - 1);
    }
  }

  lemma {:induction false} NthStep(w: Waits, t: nat, k: nat)
    requires t < |w.pending|
    ensures Nth(w, t, k + 1) == match WaitingOn(w, t) case None => None case Some(u) => Nth(w, u, k)
  {
    if k > 0 {
      NthStep(w, t, k - 1);
    } else {
      assert Nth(w, t, 0) == Some(t);
    }
  }

  lemma {:induction false} NthAdd(w: Waits, t: nat, i: nat, j: nat)
    requires Nth(w, t, i).Some?
    ensures Nth(w, t, i + j) == Nth(w, Nth(w, t, i).value, j)
  {
    if j > 0 {
      NthAdd(w, t, i, j - 1);
      assert i + j - 1 == i + (j - 1);
    }
  }

  lemma {:induction false} StaysNone(w: Waits, t: nat, k: nat, j: nat)
    requires Nth(w, t, k).None? && k <= j
    ensures Nth(w, t, j).None?
  {
    if k < j {
      StaysNone(w, t, k, j - 1);
    }
  }

  lemma {:induction false} NthInRange(w: Waits, t: nat, k: nat)
    requires WellFormed(w) && t < |w.pending| && Nth(w, t, k).Some?
    ensures Nth(w, t, k).value < |w.pending|
  {
    if k > 0 {
      NthInRange(w, t, k - 1);
    }
  }

  // ---- When the search ends ----

  // The chain from `t` comes to an end, or comes back to `t`.
  ghost predicate SearchEnds(w: Waits, t: nat) {
    exists k: nat {:trigger EndsAt(w, t, k)} :: EndsAt(w, t, k)
  }

  ghost predicate EndsAt(w: Waits, t: nat, k: nat) {
    k > 0 && (Nth(w, t, k).None? || Nth(w, t, k) == Some(t))
  }

  // Nobody that `t` waits for, in the end, waits for itself.
  ghost predicate NoCycleAhead(w: Waits, t: nat) {
    forall k: nat {:trigger Nth(w, t, k)} :: Nth(w, t, k).Some? ==> !WaitsForItself(w, Nth(w, t, k).value)
  }

  // The search from `t` ends exactly if `t` waits for itself, or nobody ahead of
  // it does; a cycle that `t` runs into without being on it is followed for ever.
  lemma SearchEndsIff(w: Waits, t: nat)
    requires WellFormed(w) && t < |w.pending|
    ensures SearchEnds(w, t) <==> WaitsForItself(w, t) || NoCycleAhead(w, t)
  {
    if WaitsForItself(w, t) {
      var k: nat :| k > 0 && Nth(w, t, k) == Some(t);
      assert EndsAt(w, t, k);
    } else {
      if SearchEnds(w, t) {
        var k: nat :| EndsAt(w, t, k);
        forall j: nat | Nth(w, t, j).Some? ensures !WaitsForItself(w, Nth(w, t, j).value) {
          if WaitsForItself(w, Nth(w, t, j).value) {
            NeverEnds(w, t, j, k);
          }
        }
      }
      if NoCycleAhead(w, t) {
        ChainEnds(w, t);
      }
    }
  }

  // A chain that reaches a cycle goes on for ever.
  lemma {:induction false} NeverEnds(w: Waits, t: nat, j: nat, k: nat)
    requires Nth(w, t, j).Some? && WaitsForItself(w, Nth(w, t, j).value)
    ensures Nth(w, t, k).Some?
    decreases if k > j then k - j else 0
  {
    var u := Nth(w, t, j).value;
    var p: nat :| p > 0 && Nth(w, u, p) == Some(u);
    if k <= j {
      if Nth(w, t, k).None? {
        StaysNone(w, t, k, j);
      }
    } else {
      NthAdd(w, t, j, p);
      NeverEnds(w, t, j + p, k);
    }
  }

  // A chain without end meets some thread twice, which then waits for itself.
  lemma ChainEnds(w: Waits, t: nat)
    requires WellFormed(w) && t < |w.pending| && NoCycleAhead(w, t)
    ensures SearchEnds(w, t)
  {
    var n := |w.pending|;
    if Nth(w, t, n).None? {
      assert EndsAt(w, t, n);
    } else {
      MeetsDistinct(w, t, n);
      Pigeons(seq(n + 1, k requires 0 <= k => MetAt(w, t, k)), n);
      assert false;
    }
  }

  ghost function MetAt(w: Waits, t: nat, k: nat): nat {
    if Nth(w, t, k).Some? then Nth(w, t, k).value else 0
  }

  lemma MeetsDistinct(w: Waits, t: nat, n: nat)
    requires WellFormed(w) && t < |w.pending| && NoCycleAhead(w, t) && Nth(w, t, n).Some?
    ensures forall i: nat, j: nat :: i < j <= n ==> MetAt(w, t, i) != MetAt(w, t, j)
    ensures forall k: nat :: k <= n ==> MetAt(w, t, k) < |w.pending|
  {
    forall k: nat | k <= n ensures Nth(w, t, k).Some? && MetAt(w, t, k) < |w.pending| {
      if Nth(w, t, k).None? {
        StaysNone(w, t, k, n);
      }
      NthInRange(w, t, k);
    }
    forall i: nat, j: nat | i < j <= n ensures MetAt(w, t, i) != MetAt(w, t, j) {
      NthAdd(w, t, i, j - i);
      var u := Nth(w, t, i).value;
      assert !WaitsForItself(w, u);
      assert Nth(w, u, j - i) != Some(u);
    }
  }

  // There are no more than `n` distinct numbers below `n`.
  lemma {:induction false} Pigeons(s: seq<nat>, n: nat)
    requires forall i :: 0 <= i < |s| ==> s[i] < n
    requires forall i, j :: 0 <= i < j < |s| ==> s[i] != s[j]
    ensures |s| <= n
    decreases n
  {
    assert s == [] || s[0] < n;
    if |s| > 0 {
      // Put the last number in the place of the greatest, and drop the last place.
      var last := |s| - 1;
      if k: nat :| k < last && s[k] == n - 1 {
        Pigeons(s[k := s[last]][..last], n - 1);
      } else {
        Pigeons(s[..last], n - 1);
      }
    }
  }

  // `is_waiting_on`, as it is used: has `t`, which has just stashed an action,
  // closed a cycle?  Locking a recursive mutex again does not count.
  method IsWaitingOnItself(w: Waits, t: nat) returns (yes: bool)
    requires WellFormed(w) && t < |w.pending|
    requires WaitsForItself(w, t) || NoCycleAhead(w, t)
    ensures yes <==> OnCycle(w, t) && !Relocks(w, t)
  {
    WaitsIffChain(w, t);
    if WaitingOn(w, t) == Some(t) && w.pending[t].Lock? && w.pending[t].m in w.recursive {
      return false;
    }
    SearchEndsIff(w, t);
    ghost var end: nat :| EndsAt(w, t, end);
    var wait := WaitingOn(w, t);
    ghost var k := 1;
    assert Nth(w, t, 0) == Some(t);
    while wait.Some?
      invariant 0 < k <= end && Nth(w, t, k) == wait && (wait.Some? ==> wait.value < |w.pending|)
      invariant forall j: nat :: 0 < j < k ==> Nth(w, t, j) != Some(t)
      decreases end - k
    {
      if wait.value == t {
        return true;
      }
      wait := WaitingOn(w, wait.value);
      k := k + 1;
    }
    forall j: nat | j >= k ensures Nth(w, t, j).None? {
      StaysNone(w, t, k, j);
    }
    yes := false;
  }

  // ---- Ranks ----

  // Every thread but `x` ranks above the one it waits for, relocking aside.
  ghost predicate RankedBut(w: Waits, rank: seq<nat>, x: int) {
    && WellFormed(w) && |rank| == |w.pending|
    && forall t {:trigger WaitingOn(w, t)} :: 0 <= t < |rank| && t != x && WaitingOn(w, t).Some? && !Relocks(w, t) ==>
         rank[WaitingOn(w, t).value] < rank[t]
  }

  ghost predicate Ranked(w: Waits, rank: seq<nat>) {
    RankedBut(w, rank, -1)
  }

  // A chain goes down in rank, until it stops at a thread that relocks.
  lemma {:induction false} RankFalls(w: Waits, rank: seq<nat>, t: nat, k: nat)
    requires Ranked(w, rank) && t < |rank| && k > 0 && Nth(w, t, k).Some?
    ensures Nth(w, t, k).value < |rank|
    ensures rank[Nth(w, t, k).value] < rank[t] || (Nth(w, t, k) == Some(t) && Relocks(w, t))
  {
    if k > 1 {
      RankFalls(w, rank, t, k - 1);
    } else {
      assert Nth(w, t, 0) == Some(t);
    }
  }

  // Ranks rule out that anyone waits for itself, but to lock a recursive mutex
  // again.
  lemma RankedIsAcyclic(w: Waits, rank: seq<nat>, t: nat)
    requires Ranked(w, rank) && t < |rank|
    ensures OnCycle(w, t) <==> Relocks(w, t)
  {
    WaitsIffChain(w, t);
    forall k: nat | k > 0 ensures Nth(w, t, k) == Some(t) ==> Relocks(w, t) {
      if Nth(w, t, k).Some? {
        RankFalls(w, rank, t, k);
      }
    }
    if Relocks(w, t) {
      assert Nth(w, t, 0) == Some(t);
      assert Nth(w, t, 1) == Some(t);
    }
  }

  // ---- What makes the search go on for ever ----

  // The chain from `t` comes to another thread that relocks.
  ghost predicate MeetsRelock(w: Waits, t: nat) {
    exists k: nat {:trigger RelocksAt(w, t, k)} :: RelocksAt(w, t, k)
  }

  ghost predicate RelocksAt(w: Waits, t: nat, k: nat) {
    match Nth(w, t, k)
    case None => false
    case Some(u) => u != t && u < |w.pending| && Relocks(w, u)
  }

  lemma {:induction false} RelockStays(w: Waits, u: nat, k: nat)
    requires u < |w.pending| && Relocks(w, u)
    ensures Nth(w, u, k) == Some(u)
  {
    if k > 0 {
      RelockStays(w, u, k - 1);
    }
  }

  // A thread that waits for itself comes round again and again.
  lemma {:induction false} ComesRound(w: Waits, t: nat, p: nat, k: nat) returns (m: nat)
    requires p > 0 && Nth(w, t, p) == Some(t)
    ensures m >= k && Nth(w, t, m) == Some(t)
  {
    if k == 0 {
      return 0;
    }
    var n := ComesRound(w, t, p, k - 1);
    NthAdd(w, t, n, p);
    m := n + p;
  }

  lemma RelockIsNoCycle(w: Waits, t: nat, k: nat)
    requires RelocksAt(w, t, k)
    ensures !WaitsForItself(w, t) && !NoCycleAhead(w, t)
  {
    var u := Nth(w, t, k).value;
    RelockStays(w, u, 1);
    assert WaitsForItself(w, u);
    forall p: nat | p > 0 ensures Nth(w, t, p) != Some(t) {
      if Nth(w, t, p) == Some(t) {
        var m := ComesRound(w, t, p, k);
        NthAdd(w, t, k, m - k);
        RelockStays(w, u, m - k);
      }
    }
  }

  // Off `t` and short of relocks, a chain goes down in rank.
  lemma {:induction false} RankFallsBut(w: Waits, rank: seq<nat>, t: nat, u: nat, j: nat)
    requires RankedBut(w, rank, t) && u < |rank| && j > 0 && Nth(w, u, j).Some?
    requires forall i: nat {:trigger Nth(w, u, i)} :: i < j && Nth(w, u, i).Some? ==>
      Nth(w, u, i).value != t && Nth(w, u, i).value < |rank| && !Relocks(w, Nth(w, u, i).value)
    ensures Nth(w, u, j).value < |rank| && rank[Nth(w, u, j).value] < rank[u]
  {
    assert Nth(w, u, 0) == Some(u);
    if j > 1 {
      RankFallsBut(w, rank, t, u, j - 1);
    }
  }

  // With everyone else ranked, the search from `t` goes on for ever exactly if its
  // chain meets another thread that is about to lock a recursive mutex again.
  lemma RankedSearchEndsIff(w: Waits, rank: seq<nat>, t: nat)
    requires RankedBut(w, rank, t) && t < |rank|
    ensures SearchEnds(w, t) <==> !ReachesRelock(w, t)
    ensures WaitsForItself(w, t) || NoCycleAhead(w, t) <==> !ReachesRelock(w, t)
  {
    SearchEndsIff(w, t);
    WaitsIffChain(w, t);
    if MeetsRelock(w, t) {
      var k: nat :| RelocksAt(w, t, k);
      RelockIsNoCycle(w, t, k);
    } else if !WaitsForItself(w, t) {
      forall k: nat | Nth(w, t, k).Some? ensures !WaitsForItself(w, Nth(w, t, k).value) {
        AheadIsNoCycle(w, rank, t, k);
      }
    }
  }

  lemma AheadIsNoCycle(w: Waits, rank: seq<nat>, t: nat, k: nat)
    requires RankedBut(w, rank, t) && t < |rank| && !WaitsForItself(w, t) && !MeetsRelock(w, t) && Nth(w, t, k).Some?
    ensures !WaitsForItself(w, Nth(w, t, k).value)
  {
    var u := Nth(w, t, k).value;
    NthInRange(w, t, k);
    if u != t {
      forall p: nat | p > 0 ensures Nth(w, u, p) != Some(u) {
        forall i: nat {:trigger Nth(w, u, i)} | Nth(w, u, i).Some?
          ensures Nth(w, u, i).value != t && Nth(w, u, i).value < |rank| && !Relocks(w, Nth(w, u, i).value)
        {
          NthAdd(w, t, k, i);
          NthInRange(w, t, k + i);
          assert Nth(w, t, 0) == Some(t);
          assert k + i > 0 && !RelocksAt(w, t, k + i);
        }
        if Nth(w, u, p).Some? {
          RankFallsBut(w, rank, t, u, p);
        }
      }
    }
  }

  // ---- Keeping ranks ----

  // Those that wait, in the end, for `t`.
  ghost predicate WaitsFor(w: Waits, u: nat, t: nat) {
    exists k: nat {:trigger Nth(w, u, k)} :: Nth(w, u, k) == Some(t)
  }

  ghost function Lifted(w: Waits, rank: seq<nat>, t: nat, lift: nat): seq<nat> {
    seq(|rank|, u requires 0 <= u < |rank| => if WaitsFor(w, u, t) then rank[u] + lift else rank[u])
  }

  // A thread that stashed an action and does not wait for itself gets a rank
  // above what it waits for, and those that wait for it move up with it.
  lemma StashedRank(w: Waits, rank: seq<nat>, t: nat) returns (rank': seq<nat>)
    requires RankedBut(w, rank, t) && t < |rank| && (WaitsForItself(w, t) ==> Relocks(w, t))
    ensures Ranked(w, rank')
  {
    if Relocks(w, t) {
      return rank;
    }
    var lift := if WaitingOn(w, t).Some? then rank[WaitingOn(w, t).value] + 1 else 0;
    rank' := Lifted(w, rank, t, lift);
    assert Nth(w, t, 0) == Some(t);
    forall u | 0 <= u < |rank| && WaitingOn(w, u).Some? && !Relocks(w, u)
      ensures rank'[WaitingOn(w, u).value] < rank'[u]
    {
      var v := WaitingOn(w, u).value;
      if WaitsFor(w, v, t) {
        var k: nat :| Nth(w, v, k) == Some(t);
        NthStep(w, u, k);
        assert Nth(w, u, k + 1) == Some(t);
      }
    }
  }

  // A thread with nothing stashed may be waited for by anyone.
  lemma SinkRank(w: Waits, w': Waits, rank: seq<nat>, x: nat) returns (rank': seq<nat>)
    requires Ranked(w, rank) && WellFormed(w') && |w'.pending| == |w.pending| && x < |rank|
    requires WaitingOn(w', x).None? && w'.recursive == w.recursive
    requires forall t {:trigger w'.pending[t]} :: 0 <= t < |rank| && t != x ==> w'.pending[t] == w.pending[t]
    requires forall t {:trigger WaitingOn(w', t)} :: 0 <= t < |rank| ==>
      WaitingOn(w', t) == WaitingOn(w, t) || WaitingOn(w', t) == Some(x) || WaitingOn(w', t).None?
    ensures Ranked(w', rank')
  {
    rank' := seq(|rank|, u requires 0 <= u < |rank| => if u == x then 0 else rank[u] + 1);
    forall t | 0 <= t < |rank| && WaitingOn(w', t).Some? && !Relocks(w', t)
      ensures rank'[WaitingOn(w', t).value] < rank'[t]
    {
      assert t != x && w'.pending[t] == w.pending[t];
      assert WaitingOn(w, t).Some? && !Relocks(w, t) ==> rank[WaitingOn(w, t).value] < rank[t];
    }
  }

  // ---- Two searches that never end ----

  // Thread 0 holds mutexes 0 and 1 and is about to lock 0, a recursive one, again.
  // That is no deadlock, and is not taken for one.  But when thread 1 goes for
  // mutex 1, the search for a cycle through it goes round thread 0 for ever.
  lemma {:induction false} RelockLoops(k: nat)
    ensures var w := Waits([Lock(0), Lock(1)], map[0 := 0, 1 := 0], {0});
            WellFormed(w) && WaitingOn(w, 1) == Some(0) && Nth(w, 1, k + 1) == Some(0)
  {
    var w := Waits([Lock(0), Lock(1)], map[0 := 0, 1 := 0], {0});
    if k > 0 {
      RelockLoops(k - 1);
    } else {
      assert Nth(w, 1, 0) == Some(1);
    }
  }

  // Likewise for a thread that blocks on one of two that have already been
  // reported as deadlocked.
  lemma {:induction false} ReportedLoops(k: nat)
    ensures var w := Waits([Lock(1), Lock(0), Lock(0)], map[0 := 0, 1 := 1], {});
            WellFormed(w) && Nth(w, 2, k + 1) == Some(if k % 2 == 0 then 0 else 1)
  {
    var w := Waits([Lock(1), Lock(0), Lock(0)], map[0 := 0, 1 := 1], {});
    if k > 0 {
      ReportedLoops(k - 1);
    } else {
      assert Nth(w, 2, 0) == Some(2);
    }
  }
}
