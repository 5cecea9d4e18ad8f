// Locks, joins and condition waits as steps of the engine: threads stash actions,
// the disabled ones are put to sleep, and one step is taken
// (`model.cc`, `execution.cc`).

module LockProtocol {
  import opened Options
  import opened WaitGraph

  class Threads {
    var w: Waits
    var enabled: seq<bool>
    var complete: seq<bool>
    // Threads a notification has woken; their wait is over.
    var woken: set<nat>
    ghost var rank: seq<nat>

    // Nobody waits for itself, but to lock a recursive mutex again; and whoever
    // sleeps has a reason to: another thread holds its mutex, the thread it joins
    // runs, or it waits on a condition.
    ghost predicate Valid()
      reads this
    {
      && Ranked(w, rank) && |enabled| == |complete| == |w.pending|
      && (forall t {:trigger enabled[t]} :: 0 <= t < |enabled| && !enabled[t] ==> HasReason(t))
      && (forall t :: t in woken ==> t < |enabled| && enabled[t] && w.pending[t].Wait?)
      && (forall t {:trigger complete[t]} :: 0 <= t < |enabled| && complete[t] ==> w.pending[t] == Nothing)
    }

    ghost predicate HasReason(t: nat)
      requires t < |w.pending| && WellFormed(w) && |complete| == |w.pending|
      reads this
    {
      match w.pending[t]
      case Lock(m) => m in w.owner && w.owner[m] != t
      case Join(u) => !complete[u]
      case Wait(m) => true
      case Nothing => complete[t]
      case _ => false
    }

    // `check_action_enabled`
    predicate ActionEnabled(t: nat)
      requires t < |w.pending| && (w.pending[t].Join? ==> w.pending[t].u < |complete|)
      reads this
    {
      match w.pending[t]
      case Lock(m) => m !in w.owner || (w.owner[m] == t && m in w.recursive)
      case Join(u) => complete[u]
      case _ => true
    }

    // The mutex it locks is free, or a recursive one of its own; and the thread it
    // joins has finished.
    ghost predicate MayRun(t: nat)
      requires t < |w.pending|
      reads this
    {
      && (forall m: nat :: w.pending[t] == Lock(m) && m in w.owner ==> w.owner[m] == t && m in w.recursive)
      && (forall u: nat :: w.pending[t] == Join(u) ==> u < |complete| && complete[u])
    }

    // Every enabled thread with an action has been looked at since the last step.
    ghost predicate Checked()
      reads this
    {
      && WellFormed(w) && |enabled| == |complete| == |w.pending|
      && forall t {:trigger enabled[t]} :: 0 <= t < |enabled| && enabled[t] ==> ActionEnabled(t)
    }

    constructor (threads: nat, recursive: set<nat>)
      ensures Valid() && w == Waits(seq(threads, i => Nothing), map[], recursive) && woken == {}
      ensures enabled == seq(threads, i => true) && complete == seq(threads, i => false)
    {
      w := Waits(seq(threads, i => Nothing), map[], recursive);
      enabled := seq(threads, i => true);
      complete := seq(threads, i => false);
      woken := {};
      rank := seq(threads, i => 0);
    }

    // `switch_thread`: a thread stashes its next action.  A deadlock is reported
    // exactly when the thread now waits for itself, and not just to lock a
    // recursive mutex again.  Otherwise the thread must not come to wait for one
    // that is about to do so, or the search for a deadlock goes on for ever (see
    // `RankedSearchEndsIff`).
    method Stash(t: nat, act: Action) returns (deadlock: bool)
      requires Valid() && t < |w.pending| && w.pending[t] == Nothing && enabled[t] && !complete[t]
      requires act.Join? ==> act.u < |w.pending|
      requires !ReachesRelock(w.(pending := w.pending[t := act]), t)
      modifies this`w, this`rank
      ensures w == old(w).(pending := old(w).pending[t := act]) && enabled == old(enabled) && complete == old(complete)
      ensures deadlock <==> OnCycle(w, t) && !Relocks(w, t)
      ensures !deadlock ==> Valid()
    {
      w := w.(pending := w.pending[t := act]);
      assert forall u {:trigger WaitingOn(w, u)} :: 0 <= u < |w.pending| && u != t ==>
        WaitingOn(w, u) == WaitingOn(old(w), u);
      RankedSearchEndsIff(w, rank, t);
      WaitsIffChain(w, t);
      deadlock := IsWaitingOnItself(w, t);
      if !deadlock {
        rank := StashedRank(w, rank, t);
      }
    }

    // The pass of `getNextThread` once every thread has something stashed.
    method CheckAll()
      requires Valid() && forall t :: 0 <= t < |w.pending| && !complete[t] ==> w.pending[t] != Nothing
      modifies this`enabled
      ensures Valid() && Checked()
      ensures |enabled| == |old(enabled)|
      ensures forall t :: 0 <= t < |enabled| ==> (enabled[t] <==> old(enabled)[t] && MayRun(t))
    {
      for t := 0 to |w.pending|
        invariant |enabled| == |old(enabled)|
        invariant forall u {:trigger enabled[u]} :: 0 <= u < |enabled| ==>
          enabled[u] == (old(enabled)[u] && (u < t ==> ActionEnabled(u)))
      {
        if enabled[t] && !ActionEnabled(t) {
          enabled := enabled[t := false];
        }
      }
      forall t | 0 <= t < |enabled| && !enabled[t] ensures HasReason(t) {
        assert old(enabled)[t] ==> !ActionEnabled(t);
        assert WaitingOn(w, t) == Some(t) ==> Relocks(w, t) || w.pending[t].Join?;
      }
    }

    // ---- Steps ----

    // What every step starts from: the thread chosen is enabled, and the checks
    // are up to date.
    ghost predicate Chosen(t: nat)
      reads this
    {
      Valid() && Checked() && t < |enabled| && enabled[t] && w.pending[t] != Nothing && t !in woken
    }

    // The mutex is free, or a recursive one that the thread holds already: nobody
    // else's critical section is entered.
    method StepLock(t: nat, m: nat)
      requires Chosen(t) && w.pending[t] == Lock(m)
      modifies this
      ensures m !in old(w).owner || (old(w).owner[m] == t && m in old(w).recursive)
      ensures Valid() && w == old(w).(pending := old(w).pending[t := Nothing], owner := old(w).owner[m := t])
      ensures enabled == old(enabled) && complete == old(complete) && woken == old(woken)
    {
      ghost var was := w;
      w := w.(pending := w.pending[t := Nothing], owner := w.owner[m := t]);
      rank := SinkRank(was, w, rank, t);
    }

    method StepTryLock(t: nat, m: nat) returns (success: bool)
      requires Chosen(t) && w.pending[t] == TryLock(m)
      modifies this
      ensures success <==> m !in old(w).owner
      ensures Valid() && w.owner == (if success then old(w).owner[m := t] else old(w).owner)
      ensures w.pending == old(w).pending[t := Nothing] && w.recursive == old(w).recursive
      ensures enabled == old(enabled) && complete == old(complete) && woken == old(woken)
    {
      ghost var was := w;
      success := m !in w.owner;
      w := w.(pending := w.pending[t := Nothing], owner := if success then w.owner[m := t] else w.owner);
      rank := SinkRank(was, w, rank, t);
    }

    // The loops that wake everyone who waits on thread `t` for a lock, or to join
    // it.
    method WakeWaiters(t: nat, joiners: bool)
      requires WellFormed(w) && |enabled| == |w.pending|
      modifies this`enabled
      ensures |enabled| == |w.pending|
      ensures forall u {:trigger enabled[u]} :: 0 <= u < |enabled| ==>
        enabled[u] == (old(enabled)[u] || WokenBy(u, t, joiners))
    {
      for u := 0 to |w.pending|
        invariant |enabled| == |w.pending|
        invariant forall v {:trigger enabled[v]} :: 0 <= v < |enabled| ==>
          enabled[v] == (old(enabled)[v] || (v < u && WokenBy(v, t, joiners)))
      {
        if WokenBy(u, t, joiners) {
          enabled := enabled[u := true];
        }
      }
    }

    predicate WokenBy(u: nat, t: nat, joiners: bool)
      requires u < |w.pending|
      reads this`w
    {
      WaitingOn(w, u) == Some(t) && if joiners then w.pending[u].Join? else w.pending[u].Lock?
    }

    // Thread `u` is about to lock a mutex that thread `t` owns.
    ghost predicate LocksOf(u: nat, t: nat)
      reads this`w
    {
      u < |w.pending| && exists m: nat :: w.pending[u] == Lock(m) && m in w.owner && w.owner[m] == t
    }

    // Unlocking leaves nobody asleep for a free mutex exactly when the mutex is
    // unlocked by its owner, or nobody was asleep for it.
    method StepUnlock(t: nat, m: nat)
      requires Chosen(t) && w.pending[t] == Unlock(m)
      modifies this
      ensures w == old(w).(pending := old(w).pending[t := Nothing], owner := old(w).owner - {m})
      ensures complete == old(complete) && woken == old(woken) && |enabled| == |old(enabled)|
      ensures forall u {:trigger enabled[u]} :: 0 <= u < |enabled| ==>
        enabled[u] == (old(enabled)[u] || old(LocksOf(u, t)))
      ensures Valid() <==>
        (m in old(w).owner && old(w).owner[m] == t)
        || forall u :: 0 <= u < |old(enabled)| && !old(enabled)[u] ==> old(w).pending[u] != Lock(m)
    {
      ghost var was := w;
      w := w.(pending := w.pending[t := Nothing]);
      WakeWaiters(t, false);
      w := w.(owner := w.owner - {m});
      rank := SinkRank(was, w, rank, t);
      if u: nat :| u < |old(enabled)| && !old(enabled)[u] && was.pending[u] == Lock(m) {
        assert old(HasReason(u)) && u != t && w.pending[u] == Lock(m);
        assert was.owner[m] != t ==> !enabled[u] && !HasReason(u);
      }
    }

    // A condition wait releases the mutex and puts the thread to sleep.  Like an
    // unlock, it leaves nobody asleep for a free mutex exactly when the thread held
    // it, or nobody was asleep for it.
    method StepWait(t: nat, m: nat)
      requires Chosen(t) && w.pending[t] == Wait(m)
      modifies this`w, this`enabled, this`rank
      ensures w == old(w).(owner := old(w).owner - {m}) && |enabled| == |old(enabled)| && !enabled[t]
      ensures forall u {:trigger enabled[u]} :: 0 <= u < |enabled| && u != t ==>
        enabled[u] == (old(enabled)[u] || old(LocksOf(u, t)))
      ensures Valid() <==>
        (m in old(w).owner && old(w).owner[m] == t)
        || forall u :: 0 <= u < |old(enabled)| && !old(enabled)[u] ==> old(w).pending[u] != Lock(m)
    {
      ghost var was := w;
      w := w.(pending := w.pending[t := Nothing]);
      WakeWaiters(t, false);
      w := w.(owner := w.owner - {m}, pending := w.pending[t := Wait(m)]);
      enabled := enabled[t := false];
      rank := SinkRank(was, w, rank, t);
      if u: nat :| u < |old(enabled)| && !old(enabled)[u] && was.pending[u] == Lock(m) {
        assert old(HasReason(u)) && u != t && w.pending[u] == Lock(m);
        assert was.owner[m] != t ==> !enabled[u] && !HasReason(u);
      }
    }

    method Wake(ts: set<nat>)
      modifies this`enabled
      ensures |enabled| == |old(enabled)|
      ensures forall u {:trigger enabled[u]} :: 0 <= u < |enabled| ==> enabled[u] == (old(enabled)[u] || u in ts)
    {
      for u := 0 to |enabled|
        invariant |enabled| == |old(enabled)|
        invariant forall v {:trigger enabled[v]} :: 0 <= v < |enabled| ==>
          enabled[v] == (old(enabled)[v] || (v < u && v in ts))
      {
        if u in ts {
          enabled := enabled[u := true];
        }
      }
    }

    // A notification wakes some of the waiting threads.
    method StepNotify(t: nat, waiters: set<nat>)
      requires Chosen(t) && w.pending[t] == Other
      requires forall u :: u in waiters ==> u < |enabled| && w.pending[u].Wait? && !enabled[u]
      modifies this`w, this`enabled, this`rank, this`woken
      ensures Valid() && w == old(w).(pending := old(w).pending[t := Nothing])
      ensures woken == old(woken) + waiters
      ensures forall u {:trigger enabled[u]} :: 0 <= u < |enabled| ==> enabled[u] == (old(enabled)[u] || u in waiters)
    {
      ghost var was := w;
      Wake(waiters);
      woken := woken + waiters;
      w := w.(pending := w.pending[t := Nothing]);
      rank := SinkRank(was, w, rank, t);
    }

    // A woken thread, once chosen, drops its wait and may stash again.
    method Rouse(t: nat)
      requires Valid() && t in woken
      modifies this`w, this`rank, this`woken
      ensures Valid() && w == old(w).(pending := old(w).pending[t := Nothing]) && woken == old(woken) - {t}
    {
      ghost var was := w;
      woken := woken - {t};
      w := w.(pending := w.pending[t := Nothing]);
      rank := SinkRank(was, w, rank, t);
    }

    // A join step runs only when the other thread has finished.
    method StepJoin(t: nat, u: nat)
      requires Chosen(t) && w.pending[t] == Join(u)
      modifies this`w, this`rank
      ensures u < |complete| && complete[u]
      ensures Valid() && w == old(w).(pending := old(w).pending[t := Nothing])
    {
      ghost var was := w;
      w := w.(pending := w.pending[t := Nothing]);
      rank := SinkRank(was, w, rank, t);
    }

    // A finishing thread wakes those that join it, and runs no more.  But if the
    // initial thread finishes, the execution is over, and nobody is woken.
    method StepFinish(t: nat, initial: bool) returns (over: bool)
      requires Chosen(t) && w.pending[t] == Finish
      modifies this`w, this`enabled, this`complete, this`rank
      ensures over == initial
      ensures w == old(w).(pending := old(w).pending[t := Nothing]) && complete == old(complete)[t := true]
      ensures |enabled| == |old(enabled)| && !enabled[t]
      ensures forall u {:trigger enabled[u]} :: 0 <= u < |enabled| && u != t ==>
        enabled[u] == (old(enabled)[u] || (!initial && old(w).pending[u] == Join(t)))
      ensures Valid() <==> !initial || forall u :: 0 <= u < |old(enabled)| && !old(enabled)[u] ==>
        old(w).pending[u] != Join(t)
    {
      ghost var was := w;
      w := w.(pending := w.pending[t := Nothing]);
      if !initial {
        WakeWaiters(t, true);
      }
      complete := complete[t := true];
      enabled := enabled[t := false];
      rank := SinkRank(was, w, rank, t);
      over := initial;
      if initial && !forall u :: 0 <= u < |old(enabled)| && !old(enabled)[u] ==> was.pending[u] != Join(t) {
        var u :| 0 <= u < |old(enabled)| && !old(enabled)[u] && was.pending[u] == Join(t);
        assert old(HasReason(u));
        assert u != t && w.pending[u] == Join(t) && !enabled[u] && !HasReason(u);
      }
    }

    // Creating a thread.
    method StepCreate(t: nat) returns (child: nat)
      requires Chosen(t) && w.pending[t] == Other
      modifies this`w, this`enabled, this`complete, this`rank
      ensures Valid() && child == |old(w).pending| && w == old(w).(pending := old(w).pending[t := Nothing] + [Nothing])
      ensures enabled == old(enabled) + [true] && complete == old(complete) + [false]
    {
      ghost var was := w;
      child := |w.pending|;
      w := w.(pending := w.pending[t := Nothing] + [Nothing]);
      enabled, complete := enabled + [true], complete + [false];
      rank := rank + [0];
      assert forall u {:trigger WaitingOn(w, u)} :: 0 <= u < child && u != t ==> WaitingOn(w, u) == WaitingOn(was, u);
    }

    // ---- Safety ----

    // Whatever steps led here, nobody waits for itself but to lock a recursive
    // mutex again, and a thread asleep waits for another that holds its mutex, or
    // for one that has not finished.
    lemma NobodyStuck(t: nat)
      requires Valid() && t < |enabled|
      ensures OnCycle(w, t) <==> Relocks(w, t)
      ensures !enabled[t] ==> !OnCycle(w, t)
      ensures !enabled[t] && w.pending[t].Lock? ==> exists u: nat :: u != t && LocksOf(t, u)
      ensures !enabled[t] && w.pending[t].Join? ==> !complete[w.pending[t].u]
    {
      RankedIsAcyclic(w, rank, t);
      assert !enabled[t] && w.pending[t].Lock? ==> LocksOf(t, w.owner[w.pending[t].m]);
    }
  }
}
