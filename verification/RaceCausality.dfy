// The detector's clocks and happens-before: an access bears the clock of its
// thread's latest action, so an access is ordered before another exactly when the
// other has heard of a later action of its thread.

module RaceCausality {
  import opened Clocks
  import opened HappensBefore
  import opened RaceDetector
  import opened ShadowMemory
  import opened MemoryTrace

  // `at[i]` is the latest action of the thread of access `i` when it is made.
  ghost predicate Placed(acts: seq<Action>, cvs: seq<Clock>, trace: seq<Event>, at: seq<nat>) {
    && ClocksOk(acts, cvs) && |at| == |trace|
    && (forall i :: 0 <= i < |at| ==> at[i] < |acts| && trace[i].tid == acts[at[i]].tid && trace[i].cv == cvs[at[i]])
    && (forall i, j :: 0 <= i < j < |at| && trace[i].tid == trace[j].tid ==> at[i] <= at[j])
  }

  // A later action of the thread of access `i` happens before the point where
  // access `j` is made.
  ghost predicate HeardSince(acts: seq<Action>, trace: seq<Event>, at: seq<nat>, i: nat, j: nat)
    requires i < |at| == |trace| && j < |at| && at[j] < |acts|
  {
    exists k: nat {:trigger Hb(acts, k, at[j])} ::
      at[i] < k < |acts| && acts[k].tid == trace[i].tid && Hb(acts, k, at[j])
  }

  lemma OrderedIsHeardSince(acts: seq<Action>, cvs: seq<Clock>, trace: seq<Event>, at: seq<nat>, i: nat, j: nat)
    requires Placed(acts, cvs, trace, at) && i < |trace| && j < |trace|
    ensures Ordered(trace, i, j) <==> trace[i].tid == trace[j].tid || HeardSince(acts, trace, at, i, j)
  {
    var t := trace[i].tid;
    assert ClockOk(acts, cvs, at[i]);
    assert EpochOf(trace[i]).clock == at[i] + 1;
    if t != trace[j].tid {
      if Ordered(trace, i, j) {
        var k := HeardFrom(acts, cvs, acts, at[j], t);
      }
      if HeardSince(acts, trace, at, i, j) {
        var k: nat :| at[i] < k < |acts| && acts[k].tid == t && Hb(acts, k, at[j]);
        HappensBeforeIsHb(acts, cvs, k, at[j]);
      }
    }
  }

  // Clock vectors guarantee what the detector relies on.
  lemma ClocksAreCausal(acts: seq<Action>, cvs: seq<Clock>, trace: seq<Event>, at: seq<nat>)
    requires Placed(acts, cvs, trace, at)
    ensures Causal(trace)
  {
    forall i | 0 <= i < |trace| ensures EpochOf(trace[i]).clock > 0 {
      assert ClockOk(acts, cvs, at[i]);
    }
    forall i, j | 0 <= i < j < |trace| && Ordered(trace, i, j) ensures Leq(trace[i].cv, trace[j].cv) {
      OrderedIsHeardSince(acts, cvs, trace, at, i, j);
      if trace[i].tid == trace[j].tid {
        ProgramOrder(acts, at[i], at[j]);
      } else {
        var k: nat :| at[i] < k < |acts| && acts[k].tid == trace[i].tid && Hb(acts, k, at[j]);
        ProgramOrder(acts, at[i], k);
        HbTrans(acts, at[i], k, at[j]);
      }
      ClockOrderIsHb(acts, cvs, at[i], at[j]);
    }
  }

  // The detector against the happens-before relation itself: up to its first
  // report it reports access `k` exactly when some earlier access by another
  // thread, one of the two a write, has not been heard of since.
  lemma ReportsUnheardConflicts(acts: seq<Action>, cvs: seq<Clock>, trace: seq<Event>, at: seq<nat>, k: nat)
    requires Placed(acts, cvs, trace, at) && k < |trace|
    requires forall j: nat :: j < k ==> !Reported(trace, j)
    ensures Reported(trace, k) <==>
      exists i: nat {:trigger HeardSince(acts, trace, at, i, k)} :: i < k && trace[i].tid != trace[k].tid
        && (trace[i].isWrite || trace[k].isWrite) && !HeardSince(acts, trace, at, i, k)
  {
    ClocksAreCausal(acts, cvs, trace, at);
    SilentIsRaceFree(trace, k);
    ReportsExactly(trace, k);
    forall i: nat | i < k
      ensures Ordered(trace, i, k) <==> trace[i].tid == trace[k].tid || HeardSince(acts, trace, at, i, k)
    {
      OrderedIsHeardSince(acts, cvs, trace, at, i, k);
    }
    if Reported(trace, k) {
      var i: nat :| i < k && RacyPair(trace, i, k);
      assert !HeardSince(acts, trace, at, i, k);
    } else {
      forall i: nat | i < k && trace[i].tid != trace[k].tid && (trace[i].isWrite || trace[k].isWrite)
        ensures HeardSince(acts, trace, at, i, k)
      {
        assert !RacyPair(trace, i, k);
      }
    }
  }

  // ---- The same for all of memory ----

  function Events(accs: seq<MemoryAccess>): (r: seq<Event>)
    ensures |r| == |accs| && forall i :: 0 <= i < |accs| ==> r[i] == accs[i].ev
  {
    seq(|accs|, i requires 0 <= i < |accs| => accs[i].ev)
  }

  lemma {:induction false} AccessesToMembers(accs: seq<MemoryAccess>, k: nat, b: nat, e: Event)
    requires k <= |accs|
    ensures e in AccessesTo(accs[..k], b) <==> exists i: nat :: i < k && Touches(accs[i], b) && accs[i].ev == e
  {
    if k > 0 {
      AccessesToMembers(accs, k - 1, b, e);
      LastAccess(accs, k, b);
    }
  }

  // The accesses to one byte are as causal as all of them.
  lemma {:induction false} BytesAreCausal(accs: seq<MemoryAccess>, k: nat, b: nat)
    requires Causal(Events(accs)) && k <= |accs|
    ensures Causal(AccessesTo(accs[..k], b))
  {
    if k > 0 {
      BytesAreCausal(accs, k - 1, b);
      LastAccess(accs, k, b);
      var before := AccessesTo(accs[..k - 1], b);
      if Touches(accs[k - 1], b) {
        forall e | e in before ensures exists l :: 0 <= l < k - 1 && Events(accs)[l] == e {
          AccessesToMembers(accs, k - 1, b, e);
          var l: nat :| l < k - 1 && Touches(accs[l], b) && accs[l].ev == e;
          assert Events(accs)[l] == e;
        }
        OneMoreCausal(before, Events(accs), k - 1);
      } else {
        assert AccessesTo(accs[..k], b) == before;
      }
    }
  }

  // Some of the events before the `n`-th, and that one.
  lemma OneMoreCausal(before: seq<Event>, all: seq<Event>, n: nat)
    requires Causal(before) && Causal(all) && n < |all|
    requires forall e :: e in before ==> exists l :: 0 <= l < n && all[l] == e
    ensures Causal(before + [all[n]])
  {
    var now := before + [all[n]];
    assert EpochOf(all[n]).clock > 0;
    forall i, j | 0 <= i < j < |now| && Ordered(now, i, j) ensures Leq(now[i].cv, now[j].cv) {
      assert now[i] == before[i] && before[i] in before;
      if j < |before| {
        assert Ordered(before, i, j);
      } else {
        var l :| 0 <= l < n && all[l] == before[i];
        assert Ordered(all, l, n);
      }
    }
  }

  // While nothing has been reported, no byte has seen a race.
  lemma {:induction false} SilentSoFar(accs: seq<MemoryAccess>, ms: seq<Memory>, races: seq<bool>, k: nat, b: nat)
    requires Run(accs, ms, races) && k <= |accs| && Causal(Events(accs))
    requires forall j :: 0 <= j < k ==> !races[j]
    ensures RaceFree(AccessesTo(accs[..k], b), |AccessesTo(accs[..k], b)|)
  {
    if k > 0 {
      LastAccess(accs, k, b);
      var n := k - 1;
      var upTo := accs[..n + 1];
      forall c: nat ensures Causal(AccessesTo(upTo, c)) {
        BytesAreCausal(accs, n + 1, c);
      }
      forall c: nat ensures RaceFree(AccessesTo(accs[..n], c), |AccessesTo(accs[..n], c)|) {
        SilentSoFar(accs, ms, races, n, c);
      }
      AccessReportedIff(accs, ms, races, n);
      assert Touches(accs[k - 1], b) || AccessesTo(accs[..k], b) == AccessesTo(accs[..k - 1], b);
    }
  }

  // Two accesses to byte `b`, the later one `k`, that race.
  ghost predicate UnheardConflict(acts: seq<Action>, accs: seq<MemoryAccess>, at: seq<nat>, i: nat, k: nat, b: nat)
    requires i < k < |accs| && |at| == |accs| && at[k] < |acts|
  {
    && Touches(accs[i], b) && Touches(accs[k], b)
    && accs[i].ev.tid != accs[k].ev.tid && (accs[i].ev.isWrite || accs[k].ev.isWrite)
    && !HeardSince(acts, Events(accs), at, i, k)
  }

  lemma ByteUnheard(acts: seq<Action>, cvs: seq<Clock>, accs: seq<MemoryAccess>, at: seq<nat>, k: nat, b: nat)
    requires Placed(acts, cvs, Events(accs), at) && k < |accs| && Touches(accs[k], b)
    requires RaceFree(AccessesTo(accs[..k], b), |AccessesTo(accs[..k], b)|)
    ensures !RaceFree(AccessesTo(accs[..k + 1], b), |AccessesTo(accs[..k + 1], b)|) <==>
      exists i: nat {:trigger accs[i]} :: i < k && UnheardConflict(acts, accs, at, i, k, b)
  {
    LastAccess(accs, k + 1, b);
    var before, now, n := AccessesTo(accs[..k], b), AccessesTo(accs[..k + 1], b), |AccessesTo(accs[..k], b)|;
    RaceFreePrefix(before, accs[k].ev);
    RaceFreeOneMore(now, n);
    if !RaceFree(now, n + 1) {
      var m: nat :| m < n && RacyPair(now, m, n);
      AccessesToMembers(accs, k, b, before[m]);
      var i: nat :| i < k && Touches(accs[i], b) && accs[i].ev == before[m];
      OrderedIsHeardSince(acts, cvs, Events(accs), at, i, k);
      assert UnheardConflict(acts, accs, at, i, k, b);
    }
    if i: nat :| i < k && UnheardConflict(acts, accs, at, i, k, b) {
      AccessesToMembers(accs, k, b, accs[i].ev);
      var m: nat :| m < n && before[m] == accs[i].ev;
      OrderedIsHeardSince(acts, cvs, Events(accs), at, i, k);
      assert now[m] == before[m] && RacyPair(now, m, n);
    }
  }

  // The detector over all of memory against happens-before: up to its first
  // report it reports access `k` exactly when on some byte that it touches it
  // conflicts with an earlier access that has not been heard of since.
  lemma ReportsUnheardAccesses(acts: seq<Action>, cvs: seq<Clock>, accs: seq<MemoryAccess>, at: seq<nat>,
                               ms: seq<Memory>, races: seq<bool>, k: nat)
    requires Placed(acts, cvs, Events(accs), at) && Run(accs, ms, races) && k < |accs|
    requires forall j :: 0 <= j < k ==> !races[j]
    ensures races[k] <==> exists i: nat, b: nat {:trigger accs[i], Touches(accs[k], b)} ::
      i < k && UnheardConflict(acts, accs, at, i, k, b)
  {
    ClocksAreCausal(acts, cvs, Events(accs), at);
    var upTo := accs[..k + 1];
    forall b: nat ensures Causal(AccessesTo(upTo, b)) {
      BytesAreCausal(accs, k + 1, b);
    }
    forall b: nat ensures RaceFree(AccessesTo(accs[..k], b), |AccessesTo(accs[..k], b)|) {
      SilentSoFar(accs, ms, races, k, b);
    }
    AccessReportedIff(accs, ms, races, k);
    if races[k] {
      var b: nat :| Touches(accs[k], b) && !RaceFree(AccessesTo(accs[..k + 1], b), |AccessesTo(accs[..k + 1], b)|);
      ByteUnheard(acts, cvs, accs, at, k, b);
    }
    if i: nat, b: nat :| i < k && UnheardConflict(acts, accs, at, i, k, b) {
      ByteUnheard(acts, cvs, accs, at, k, b);
    }
  }
}
