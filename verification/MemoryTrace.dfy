// Whole runs of the detector over shadow memory: accesses of any widths, their
// bytes overlapping at will, are reported as the races of each byte demand.

module MemoryTrace {
  import opened RaceDetector
  import opened ShadowMemory

  datatype MemoryAccess = MemoryAccess(a: nat, width: nat, ev: Event)

  predicate Touches(acc: MemoryAccess, b: nat) {
    acc.a <= b < acc.a + acc.width
  }

  // The accesses that touch byte `b`, in order.
  function AccessesTo(accs: seq<MemoryAccess>, b: nat): (r: seq<Event>)
    ensures |r| <= |accs|
  {
    if accs == [] then []
    else
      var last := accs[|accs| - 1];
      AccessesTo(accs[..|accs| - 1], b) + (if Touches(last, b) then [last.ev] else [])
  }

  // Shadow memory through a run: `ms[k]` is what the first `k` accesses left, and
  // `races[k]` what the check of access `k` reported.
  ghost predicate Run(accs: seq<MemoryAccess>, ms: seq<Memory>, races: seq<bool>) {
    && |ms| == |accs| + 1 && |races| == |accs|
    && (forall b: nat {:trigger Untouched(ms[0], b)} :: Untouched(ms[0], b))
    && forall k {:trigger StepOk(accs, ms, races, k)} :: 0 <= k < |accs| ==> StepOk(accs, ms, races, k)
  }

  ghost predicate Untouched(m: Memory, b: nat) {
    b in m && m[b] == NEVER
  }

  ghost predicate StepOk(accs: seq<MemoryAccess>, ms: seq<Memory>, races: seq<bool>, k: nat)
    requires |ms| == |accs| + 1 && |races| == |accs| && k < |accs|
  {
    Checked(ms[k], ms[k + 1], accs[k].a, accs[k].width, accs[k].ev, races[k])
  }

  lemma LastAccess(accs: seq<MemoryAccess>, k: nat, b: nat)
    requires 0 < k <= |accs|
    ensures AccessesTo(accs[..k], b) ==
      AccessesTo(accs[..k - 1], b) + (if Touches(accs[k - 1], b) then [accs[k - 1].ev] else [])
  {
    assert accs[..k][..k - 1] == accs[..k - 1];
  }

  // Each byte's record is the one its own accesses leave.
  lemma {:induction false} ByteRecorded(accs: seq<MemoryAccess>, ms: seq<Memory>, races: seq<bool>, k: nat, b: nat)
    requires Run(accs, ms, races) && k <= |accs|
    ensures b in ms[k] && ms[k][b] == Recorded(AccessesTo(accs[..k], b), |AccessesTo(accs[..k], b)|)
  {
    if k == 0 {
      assert Untouched(ms[0], b);
    } else {
      ByteRecorded(accs, ms, races, k - 1, b);
      var acc := accs[k - 1];
      assert StepOk(accs, ms, races, k - 1);
      assert ByteChecked(ms[k - 1], ms[k], acc.a, acc.width, acc.ev, b);
      var before, now := AccessesTo(accs[..k - 1], b), AccessesTo(accs[..k], b);
      LastAccess(accs, k, b);
      if Touches(acc, b) {
        OneMoreRecorded(before, acc.ev);
      } else {
        assert now == before;
      }
    }
  }

  // Up to the first report of a run, an access is reported exactly when on some
  // byte it touches it is unordered with an earlier conflicting access.
  lemma AccessReportedIff(accs: seq<MemoryAccess>, ms: seq<Memory>, races: seq<bool>, k: nat)
    requires Run(accs, ms, races) && k < |accs|
    requires forall b: nat {:trigger AccessesTo(accs[..k + 1], b)} :: Causal(AccessesTo(accs[..k + 1], b))
    requires forall b: nat {:trigger AccessesTo(accs[..k], b)} ::
      RaceFree(AccessesTo(accs[..k], b), |AccessesTo(accs[..k], b)|)
    ensures races[k] <==> exists b: nat {:trigger Touches(accs[k], b)} ::
      Touches(accs[k], b) && !RaceFree(AccessesTo(accs[..k + 1], b), |AccessesTo(accs[..k + 1], b)|)
  {
    var acc := accs[k];
    assert StepOk(accs, ms, races, k);
    forall b: nat | Touches(acc, b)
      ensures RacesAt(ms[k], b, acc.ev) <==> !RaceFree(AccessesTo(accs[..k + 1], b), |AccessesTo(accs[..k + 1], b)|)
    {
      ByteReportedIff(accs, ms, races, k, b);
    }
    if races[k] {
      var b: nat :| acc.a <= b < acc.a + acc.width && RacesAt(ms[k], b, acc.ev);
      assert Touches(acc, b);
    }
  }

  lemma ByteReportedIff(accs: seq<MemoryAccess>, ms: seq<Memory>, races: seq<bool>, k: nat, b: nat)
    requires Run(accs, ms, races) && k < |accs| && Touches(accs[k], b)
    requires Causal(AccessesTo(accs[..k + 1], b))
    requires RaceFree(AccessesTo(accs[..k], b), |AccessesTo(accs[..k], b)|)
    ensures RacesAt(ms[k], b, accs[k].ev) <==> !RaceFree(AccessesTo(accs[..k + 1], b), |AccessesTo(accs[..k + 1], b)|)
  {
    LastAccess(accs, k + 1, b);
    var before := AccessesTo(accs[..k], b);
    ByteRecorded(accs, ms, races, k, b);
    OneEventMore(before, accs[k].ev);
  }

  // The verdict on one more event of a race-free trace.
  lemma OneEventMore(before: seq<Event>, ev: Event)
    requires Causal(before + [ev]) && RaceFree(before, |before|)
    ensures Races(Recorded(before, |before|), ev) <==> !RaceFree(before + [ev], |before| + 1)
  {
    var now, n := before + [ev], |before|;
    RecordedPrefix(before, now, n);
    RaceFreePrefix(before, ev);
    RaceFreeOneMore(now, n);
    ReportsExactly(now, n);
    assert now[n] == ev;
  }

  lemma RaceFreePrefix(before: seq<Event>, ev: Event)
    ensures RaceFree(before + [ev], |before|) <==> RaceFree(before, |before|)
  {
    var now, n := before + [ev], |before|;
    forall i: nat, j: nat | i < j < n ensures RacyPair(now, i, j) <==> RacyPair(before, i, j) {
      assert now[i] == before[i] && now[j] == before[j];
    }
  }

  lemma RaceFreeOneMore(trace: seq<Event>, n: nat)
    requires n < |trace|
    ensures RaceFree(trace, n + 1) <==> RaceFree(trace, n) && !exists i: nat :: i < n && RacyPair(trace, i, n)
  {
  }
}
