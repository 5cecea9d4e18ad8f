// Three short runs of the lock protocol in which it falls short: a thread left
// asleep at a free mutex, and two searches for a deadlock that never end.

module LockGaps {
  import opened Options
  import opened WaitGraph
  import opened LockProtocol

  // Without recursive mutexes no search meets a relock.
  lemma NoRelocks(w: Waits, t: nat)
    requires w.recursive == {}
    ensures !ReachesRelock(w, t)
  {
  }

  // What a thread that holds no chain to others waits for: nobody.
  lemma WaitsForNobody(w: Waits, t: nat)
    requires t < |w.pending| && WaitingOn(w, t).None?
    ensures !ReachesRelock(w, t) && !OnCycle(w, t)
  {
    WaitsIffChain(w, t);
    assert Nth(w, t, 0) == Some(t);
    forall k: nat | k > 0 ensures Nth(w, t, k).None? {
      StaysNone(w, t, 1, k);
    }
  }

  // The threads are in state `w`, all of them enabled and none finished.
  ghost predicate Ready(ths: Threads, w: Waits)
    reads ths
  {
    && ths.Valid() && ths.w == w && ths.woken == {} && |ths.enabled| == |ths.complete| == |w.pending|
    && forall u :: 0 <= u < |w.pending| ==> ths.enabled[u] && !ths.complete[u]
  }

  // A thread stashes what it need not wait for.
  method StashFree(ths: Threads, t: nat, act: Action, ghost w: Waits)
    requires Ready(ths, w) && t < |w.pending| && w.pending[t] == Nothing
    requires !act.Join? && (act.Lock? ==> act.m !in w.owner)
    modifies ths
    ensures Ready(ths, w.(pending := w.pending[t := act]))
  {
    WaitsForNobody(w.(pending := w.pending[t := act]), t);
    var deadlock := ths.Stash(t, act);
  }

  // All threads have stashed; the engine checks them; thread `t` takes its lock.
  method TakeLock(ths: Threads, t: nat, m: nat, ghost w: Waits)
    requires Ready(ths, w) && t < |w.pending| && w.pending[t] == Lock(m)
    requires forall u :: 0 <= u < |w.pending| ==> w.pending[u] != Nothing && !w.pending[u].Join?
    requires forall u :: 0 <= u < |w.pending| && w.pending[u].Lock? ==> w.pending[u].m !in w.owner
    modifies ths
    ensures Ready(ths, w.(pending := w.pending[t := Nothing], owner := w.owner[m := t]))
  {
    ths.CheckAll();
    ths.StepLock(t, m);
  }

  // Thread 0 locks a mutex, thread 1 goes to sleep for it, and thread 2, which
  // does not hold it, unlocks it.
  method AsleepAtFreeMutex() returns (ths: Threads)
    ensures fresh(ths) && |ths.enabled| == |ths.w.pending| == 3
    ensures !ths.enabled[1] && ths.w.pending[1] == Lock(0) && 0 !in ths.w.owner && !ths.Valid()
  {
    ths := OneHolds();
    StashFree(ths, 0, Other, Waits([Nothing, Lock(0), Unlock(0)], map[0 := 0], {}));
    ths.CheckAll();
    ths.StepUnlock(2, 0);
  }

  method OneHolds() returns (ths: Threads)
    ensures fresh(ths) && Ready(ths, Waits([Nothing, Lock(0), Unlock(0)], map[0 := 0], {}))
  {
    ths := new Threads(3, {});
    StashFree(ths, 0, Lock(0), Waits([Nothing, Nothing, Nothing], map[], {}));
    StashFree(ths, 1, Lock(0), Waits([Lock(0), Nothing, Nothing], map[], {}));
    StashFree(ths, 2, Unlock(0), Waits([Lock(0), Lock(0), Nothing], map[], {}));
    TakeLock(ths, 0, 0, Waits([Lock(0), Lock(0), Unlock(0)], map[], {}));
  }

  // A thread's own relock does not stop its search.
  lemma OwnRelock(w: Waits, t: nat)
    requires t < |w.pending| && Relocks(w, t)
    ensures !ReachesRelock(w, t)
  {
    WaitsIffChain(w, t);
    forall k: nat ensures !RelocksAt(w, t, k) {
      RelockStays(w, t, k);
    }
  }

  // Thread 0 holds mutexes 0 and 1 and is about to lock 0, a recursive one, again;
  // if thread 1 now goes for mutex 1, the search for a deadlock goes on for ever.
  method RelockGoesRound() returns (ths: Threads)
    ensures fresh(ths) && ths.Valid() && |ths.w.pending| == |ths.enabled| == 2
    ensures ths.enabled[1] && ths.w.pending[1] == Nothing
    ensures !SearchEnds(ths.w.(pending := ths.w.pending[1 := Lock(1)]), 1)
  {
    ths := HoldsBoth();
    OwnRelock(Waits([Lock(0), Other], map[0 := 0, 1 := 0], {0}), 0);
    var deadlock := ths.Stash(0, Lock(0));
    ths.CheckAll();
    ths.StepNotify(1, {});
    ghost var w := ths.w.(pending := ths.w.pending[1 := Lock(1)]);
    assert w == Waits([Lock(0), Lock(1)], map[0 := 0, 1 := 0], {0});
    RelockSearch();
  }

  method HoldsBoth() returns (ths: Threads)
    ensures fresh(ths) && Ready(ths, Waits([Nothing, Other], map[0 := 0, 1 := 0], {0}))
  {
    ths := new Threads(2, {0});
    StashFree(ths, 0, Lock(0), Waits([Nothing, Nothing], map[], {0}));
    StashFree(ths, 1, Other, Waits([Lock(0), Nothing], map[], {0}));
    TakeLock(ths, 0, 0, Waits([Lock(0), Other], map[], {0}));
    StashFree(ths, 0, Lock(1), Waits([Nothing, Other], map[0 := 0], {0}));
    TakeLock(ths, 0, 1, Waits([Lock(1), Other], map[0 := 0], {0}));
  }

  lemma RelockSearch()
    ensures !SearchEnds(Waits([Lock(0), Lock(1)], map[0 := 0, 1 := 0], {0}), 1)
  {
    forall k: nat ensures !EndsAt(Waits([Lock(0), Lock(1)], map[0 := 0, 1 := 0], {0}), 1, k) {
      if k > 0 {
        RelockLoops(k - 1);
      }
    }
  }

  // Threads 0 and 1 each hold a mutex.  Thread 0 goes for the other's; thread 1
  // creates thread 2 and then goes for the first, which is reported as a deadlock.
  // If thread 2 now goes for it too, the search goes on for ever.
  method DeadlockGoesRound() returns (ths: Threads, deadlock: bool)
    ensures fresh(ths) && deadlock && |ths.w.pending| == |ths.enabled| == 3
    ensures ths.enabled[2] && ths.w.pending[2] == Nothing
    ensures !SearchEnds(ths.w.(pending := ths.w.pending[2 := Lock(0)]), 2)
  {
    ths := EachHolds();
    ths.CheckAll();
    var child := ths.StepCreate(1);
    assert ths.w == Waits([Lock(1), Nothing, Nothing], map[0 := 0, 1 := 1], {});
    ghost var closed := Waits([Lock(1), Lock(0), Nothing], map[0 := 0, 1 := 1], {});
    NoRelocks(closed, 1);
    deadlock := ths.Stash(1, Lock(0));
    EachWaits();
    assert ths.w == closed;
    assert ths.w.(pending := ths.w.pending[2 := Lock(0)]) ==
      Waits([Lock(1), Lock(0), Lock(0)], map[0 := 0, 1 := 1], {});
    ReportedSearch();
  }

  lemma EachWaits()
    ensures var w := Waits([Lock(1), Lock(0), Nothing], map[0 := 0, 1 := 1], {}); OnCycle(w, 1) && !Relocks(w, 1)
  {
    var w := Waits([Lock(1), Lock(0), Nothing], map[0 := 0, 1 := 1], {});
    assert BlockedOn(w, 1, 0) && BlockedOn(w, 0, 1);
    var p := [1, 0, 1];
    assert forall i: nat :: i + 1 < |p| ==> BlockedOn(w, p[i], p[i + 1]);
    assert IsChain(w, p, 1, 1);
  }

  method EachHolds() returns (ths: Threads)
    ensures fresh(ths) && Ready(ths, Waits([Lock(1), Other], map[0 := 0, 1 := 1], {}))
  {
    ths := new Threads(2, {});
    StashFree(ths, 0, Lock(0), Waits([Nothing, Nothing], map[], {}));
    StashFree(ths, 1, Lock(1), Waits([Lock(0), Nothing], map[], {}));
    TakeLock(ths, 0, 0, Waits([Lock(0), Lock(1)], map[], {}));
    StashFree(ths, 0, Lock(1), Waits([Nothing, Lock(1)], map[0 := 0], {}));
    TakeLock(ths, 1, 1, Waits([Lock(1), Lock(1)], map[0 := 0], {}));
    StashFree(ths, 1, Other, Waits([Lock(1), Nothing], map[0 := 0, 1 := 1], {}));
  }

  lemma ReportedSearch()
    ensures !SearchEnds(Waits([Lock(1), Lock(0), Lock(0)], map[0 := 0, 1 := 1], {}), 2)
  {
    forall k: nat ensures !EndsAt(Waits([Lock(1), Lock(0), Lock(0)], map[0 := 0, 1 := 1], {}), 2, k) {
      if k > 0 {
        ReportedLoops(k - 1);
      }
    }
  }
}
