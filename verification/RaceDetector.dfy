// The data-race detector for one byte, as a function of its record, and what it
// decides over a whole trace of non-atomic accesses: `datarace.cc`.

module RaceDetector {
  import opened Clocks

  // A thread and its clock at an access.  Clock 0 means no access.
  datatype Epoch = Epoch(tid: nat, clock: nat)

  // What the detector keeps of a byte's past: reads since the last write, and
  // that write.  `atomic` marks a last write by an atomic store.
  datatype Record = Record(loads: seq<Epoch>, write: Epoch, atomic: bool)

  const NEVER := Record([], Epoch(0, 0), false)

  // `clock_may_race`
  predicate MayRace(cv: Clock, tid: nat, e: Epoch) {
    tid != e.tid && e.clock != 0 && At(cv, e.tid) <= e.clock
  }

  function Now(cv: Clock, tid: nat): Epoch {
    Epoch(tid, At(cv, tid))
  }

  // The reads that the read by `tid` does not subsume.
  function StillNeeded(loads: seq<Epoch>, cv: Clock, tid: nat): (r: seq<Epoch>)
    ensures |r| <= |loads|
  {
    if loads == [] then []
    else
      var last := loads[|loads| - 1];
      var r := StillNeeded(loads[..|loads| - 1], cv, tid);
      if MayRace(cv, tid, last) then r + [last] else r
  }

  lemma {:induction false} StillNeededMembers(loads: seq<Epoch>, cv: Clock, tid: nat, e: Epoch)
    ensures e in StillNeeded(loads, cv, tid) <==> e in loads && MayRace(cv, tid, e)
  {
    if loads != [] {
      StillNeededMembers(loads[..|loads| - 1], cv, tid, e);
      assert loads == loads[..|loads| - 1] + [loads[|loads| - 1]];
    }
  }

  function AfterRead(rec: Record, cv: Clock, tid: nat): Record {
    rec.(loads := StillNeeded(rec.loads, cv, tid) + [Now(cv, tid)])
  }

  predicate ReadRaces(rec: Record, cv: Clock, tid: nat) {
    MayRace(cv, tid, rec.write)
  }

  function AfterWrite(rec: Record, cv: Clock, tid: nat): Record {
    Record([], Now(cv, tid), false)
  }

  predicate WriteRaces(rec: Record, cv: Clock, tid: nat) {
    (exists e :: e in rec.loads && MayRace(cv, tid, e)) || MayRace(cv, tid, rec.write)
  }

  // ---- Traces ----

  datatype Event = Event(tid: nat, isWrite: bool, cv: Clock)

  function EpochOf(ev: Event): Epoch {
    Now(ev.cv, ev.tid)
  }

  function After(rec: Record, ev: Event): Record {
    if ev.isWrite then AfterWrite(rec, ev.cv, ev.tid) else AfterRead(rec, ev.cv, ev.tid)
  }

  predicate Races(rec: Record, ev: Event) {
    if ev.isWrite then WriteRaces(rec, ev.cv, ev.tid) else ReadRaces(rec, ev.cv, ev.tid)
  }

  // The record after the first `k` events.
  function Recorded(trace: seq<Event>, k: nat): Record
    requires k <= |trace|
  {
    if k == 0 then NEVER else After(Recorded(trace, k - 1), trace[k - 1])
  }

  // It depends on those events alone.
  lemma {:induction false} RecordedPrefix(s: seq<Event>, t: seq<Event>, n: nat)
    requires n <= |s| && n <= |t| && forall i :: 0 <= i < n ==> s[i] == t[i]
    ensures Recorded(s, n) == Recorded(t, n)
  {
    if n > 0 {
      RecordedPrefix(s, t, n - 1);
    }
  }

  lemma OneMoreRecorded(before: seq<Event>, ev: Event)
    ensures Recorded(before + [ev], |before| + 1) == After(Recorded(before, |before|), ev)
  {
    RecordedPrefix(before, before + [ev], |before|);
  }

  predicate Reported(trace: seq<Event>, k: nat)
    requires k < |trace|
  {
    Races(Recorded(trace, k), trace[k])
  }

  // Event `i` is ordered before the later event `j`: by program order, or
  // because `j`'s thread has heard from `i`'s since.
  predicate Ordered(trace: seq<Event>, i: nat, j: nat)
    requires i < |trace| && j < |trace|
  {
    trace[i].tid == trace[j].tid || At(trace[j].cv, trace[i].tid) > EpochOf(trace[i]).clock
  }

  predicate RacyPair(trace: seq<Event>, i: nat, j: nat)
    requires i < |trace| && j < |trace|
  {
    i < j && (trace[i].isWrite || trace[j].isWrite) && !Ordered(trace, i, j)
  }

  // No race among the first `n` events.
  ghost predicate RaceFree(trace: seq<Event>, n: nat)
    requires n <= |trace|
  {
    forall i: nat, j: nat :: i < j < n ==> !RacyPair(trace, i, j)
  }

  // What clock vectors guarantee: threads have started counting, and hearing
  // from an event means hearing all that it had heard.
  ghost predicate Causal(trace: seq<Event>) {
    && (forall i :: 0 <= i < |trace| ==> EpochOf(trace[i]).clock > 0)
    && (forall i, j :: 0 <= i < j < |trace| && Ordered(trace, i, j) ==> Leq(trace[i].cv, trace[j].cv))
  }

  lemma OrderedTrans(trace: seq<Event>, i: nat, j: nat, k: nat)
    requires Causal(trace) && i < j < k < |trace| && Ordered(trace, i, j) && Ordered(trace, j, k)
    ensures Ordered(trace, i, k)
  {
    assert Leq(trace[i].cv, trace[j].cv) && Leq(trace[j].cv, trace[k].cv);
    var t := trace[i].tid;
    assert At(trace[i].cv, t) <= At(trace[j].cv, t) <= At(trace[k].cv, t);
  }

  lemma MayRaceIsUnordered(trace: seq<Event>, i: nat, k: nat)
    requires Causal(trace) && i < k < |trace|
    ensures MayRace(trace[k].cv, trace[k].tid, EpochOf(trace[i])) <==> !Ordered(trace, i, k)
  {
  }

  // ---- What the record remembers ----

  ghost predicate LastWrite(trace: seq<Event>, k: nat, w: int)
    requires k <= |trace|
  {
    && -1 <= w < k
    && (w >= 0 ==> trace[w].isWrite)
    && forall i :: w < i < k ==> !trace[i].isWrite
  }

  // A kept read no earlier than read `i`, equal to it or ordered after it.
  ghost predicate Subsumed(trace: seq<Event>, k: nat, loads: seq<Epoch>, i: nat)
    requires i < k <= |trace|
  {
    exists j :: i <= j < k && !trace[j].isWrite && EpochOf(trace[j]) in loads && (i == j || Ordered(trace, i, j))
  }

  ghost predicate Remembers(trace: seq<Event>, k: nat, rec: Record, w: int)
    requires k <= |trace|
  {
    && LastWrite(trace, k, w)
    && rec.write == (if w < 0 then Epoch(0, 0) else EpochOf(trace[w]))
    && (forall e :: e in rec.loads ==> exists i :: w < i < k && EpochOf(trace[i]) == e)
    && (forall i :: w < i < k ==> Subsumed(trace, k, rec.loads, i))
  }

  lemma ReadKeepsMemory(trace: seq<Event>, k: nat, rec: Record, w: int)
    requires Causal(trace) && k < |trace| && Remembers(trace, k, rec, w) && !trace[k].isWrite
    ensures Remembers(trace, k + 1, After(rec, trace[k]), w)
  {
    var rec' := After(rec, trace[k]);
    assert EpochOf(trace[k]) in rec'.loads;
    forall e | e in rec'.loads ensures exists i :: w < i < k + 1 && EpochOf(trace[i]) == e {
      if e != EpochOf(trace[k]) {
        StillNeededMembers(rec.loads, trace[k].cv, trace[k].tid, e);
        assert e in rec.loads;
      }
    }
    var n := k + 1;
    forall i | w < i < n ensures Subsumed(trace, n, rec'.loads, i) {
      if i < k {
        assert Subsumed(trace, k, rec.loads, i);
        var j :| i <= j < k && !trace[j].isWrite && EpochOf(trace[j]) in rec.loads && (i == j || Ordered(trace, i, j));
        MayRaceIsUnordered(trace, j, k);
        if Ordered(trace, j, k) {
          if i < j {
            OrderedTrans(trace, i, j, k);
          }
          assert i <= k < k + 1 && EpochOf(trace[k]) in rec'.loads && Ordered(trace, i, k);
        } else {
          StillNeededMembers(rec.loads, trace[k].cv, trace[k].tid, EpochOf(trace[j]));
          assert EpochOf(trace[j]) in rec'.loads;
        }
      }
    }
  }

  lemma RecordedRemembers(trace: seq<Event>, k: nat) returns (w: int)
    requires Causal(trace) && k <= |trace|
    ensures Remembers(trace, k, Recorded(trace, k), w) && !Recorded(trace, k).atomic
  {
    if k == 0 {
      w := -1;
    } else {
      w := RecordedRemembers(trace, k - 1);
      if trace[k - 1].isWrite {
        w := k - 1;
      } else {
        ReadKeepsMemory(trace, k - 1, Recorded(trace, k - 1), w);
      }
    }
  }

  // Events before the last write matter no more: with no race so far, whatever
  // is unordered with them is unordered with that write.
  lemma OlderIsBehindWrite(trace: seq<Event>, w: nat, i: nat, k: nat)
    requires Causal(trace) && i < w < k < |trace| && trace[w].isWrite
    requires !RacyPair(trace, i, w) && !Ordered(trace, i, k)
    ensures !Ordered(trace, w, k)
  {
    if Ordered(trace, w, k) {
      OrderedTrans(trace, i, w, k);
    }
  }

  // The detector is exact up to its first report: at each event it reports just
  // when some earlier conflicting event is not ordered before it.
  lemma ReportsExactly(trace: seq<Event>, k: nat)
    requires Causal(trace) && k < |trace|
    requires RaceFree(trace, k)
    ensures Reported(trace, k) <==> exists i: nat :: i < k && RacyPair(trace, i, k)
  {
    var rec := Recorded(trace, k);
    var w := RecordedRemembers(trace, k);
    if Reported(trace, k) {
      ReportIsReal(trace, k, rec, w);
    }
    if exists i: nat :: i < k && RacyPair(trace, i, k) {
      var i: nat :| i < k && RacyPair(trace, i, k);
      RaceIsReported(trace, k, rec, w, i);
    }
  }

  lemma ReportIsReal(trace: seq<Event>, k: nat, rec: Record, w: int)
    requires Causal(trace) && k < |trace| && Remembers(trace, k, rec, w) && Races(rec, trace[k])
    ensures exists i: nat :: i < k && RacyPair(trace, i, k)
  {
    var ev := trace[k];
    if MayRace(ev.cv, ev.tid, rec.write) {
      MayRaceIsUnordered(trace, w, k);
      assert RacyPair(trace, w, k);
    } else {
      var e :| e in rec.loads && MayRace(ev.cv, ev.tid, e);
      var i :| w < i < k && EpochOf(trace[i]) == e;
      MayRaceIsUnordered(trace, i, k);
      assert RacyPair(trace, i, k);
    }
  }

  lemma RaceIsReported(trace: seq<Event>, k: nat, rec: Record, w: int, i: nat)
    requires Causal(trace) && k < |trace| && Remembers(trace, k, rec, w)
    requires i < k && RacyPair(trace, i, k)
    requires RaceFree(trace, k)
    ensures Races(rec, trace[k])
  {
    var ev := trace[k];
    if i > w {
      assert Subsumed(trace, k, rec.loads, i);
      var j :| i <= j < k && !trace[j].isWrite && EpochOf(trace[j]) in rec.loads && (i == j || Ordered(trace, i, j));
      if i < j && Ordered(trace, j, k) {
        OrderedTrans(trace, i, j, k);
      }
      MayRaceIsUnordered(trace, j, k);
    } else {
      if i < w {
        OlderIsBehindWrite(trace, w, i, k);
      }
      MayRaceIsUnordered(trace, w, k);
    }
  }

  // Hence a run with no report at all is race free, and conversely.
  lemma SilentIffRaceFree(trace: seq<Event>)
    requires Causal(trace)
    ensures (forall k :: 0 <= k < |trace| ==> !Reported(trace, k))
      <==> RaceFree(trace, |trace|)
  {
    if forall k :: 0 <= k < |trace| ==> !Reported(trace, k) {
      SilentIsRaceFree(trace, |trace|);
    }
    if RaceFree(trace, |trace|) {
      forall k | 0 <= k < |trace| ensures !Reported(trace, k) {
        ReportsExactly(trace, k);
      }
    }
  }

  lemma {:induction false} SilentIsRaceFree(trace: seq<Event>, n: nat)
    requires Causal(trace) && n <= |trace|
    requires forall k :: 0 <= k < n ==> !Reported(trace, k)
    ensures RaceFree(trace, n)
  {
    if n > 0 {
      SilentIsRaceFree(trace, n - 1);
      ReportsExactly(trace, n - 1);
    }
  }
}
