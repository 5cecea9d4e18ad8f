// The expanded race record: read entries in two growing arrays whose capacity is
// not stored, compacted in place by every read.

module RaceRecord {
  import opened Clocks
  import opened RaceDetector

  const INITCAPACITY: nat := 4

  // ---- Capacities ----

  function Popcount(n: nat): nat {
    if n == 0 then 0 else n % 2 + Popcount(n / 2)
  }

  // The least power of two that is at least `n`.
  function CeilPow2(n: nat): nat {
    if n <= 1 then 1 else 2 * CeilPow2((n + 1) / 2)
  }

  lemma {:induction false} CeilPow2Bounds(n: nat)
    ensures n <= CeilPow2(n) && CeilPow2(n) >= 1
    ensures n >= 1 ==> CeilPow2(n) < 2 * n
  {
    if n > 1 {
      CeilPow2Bounds((n + 1) / 2);
    }
  }

  lemma {:induction false} CeilPow2Monotone(m: nat, n: nat)
    requires m <= n
    ensures CeilPow2(m) <= CeilPow2(n)
  {
    if m > 1 {
      CeilPow2Monotone((m + 1) / 2, (n + 1) / 2);
    } else {
      CeilPow2Bounds(n);
    }
  }

  // At most one bit set means a power of two, where a list is full.
  lemma {:induction false} PowerOfTwo(n: nat)
    ensures Popcount(n) <= 1 <==> n == 0 || CeilPow2(n) == n
    ensures n >= 1 && CeilPow2(n) == n ==> CeilPow2(n + 1) == 2 * n
    ensures CeilPow2(n) > n ==> CeilPow2(n + 1) == CeilPow2(n)
    decreases n
  {
    if n == 0 {
    } else if n == 1 {
      assert CeilPow2(2) == 2 * CeilPow2(1);
      assert Popcount(1) == 1 + Popcount(0);
    } else if n % 2 == 0 {
      PowerOfTwo(n / 2);
      assert (n + 1) / 2 == n / 2 && (n + 2) / 2 == n / 2 + 1;
    } else {
      // An odd number above 1 has its lowest bit and another.
      PowerOfTwo(n / 2);
      assert (n + 1) / 2 == n / 2 + 1 == (n + 2) / 2;
      assert CeilPow2(n) == CeilPow2(n + 1);
      CeilPow2Bounds(n + 1);
      assert Popcount(n / 2) >= 1 by {
        PopcountPositive(n / 2);
      }
    }
  }

  lemma {:induction false} PopcountPositive(n: nat)
    requires n > 0
    ensures Popcount(n) >= 1
  {
    if n % 2 == 0 {
      PopcountPositive(n / 2);
    }
  }

  // Arrays that hold `n` entries and were only ever grown as the detector does.
  ghost predicate Roomy(capacity: nat, n: nat) {
    INITCAPACITY <= capacity && CeilPow2(n) <= capacity
  }

  // After compaction to `c` entries, the detector grows the arrays exactly when
  // it must to write one more.
  lemma RoomForOneMore(capacity: nat, n: nat, c: nat)
    requires Roomy(capacity, n) && c <= n
    ensures Popcount(c) > 1 || c < INITCAPACITY ==> c < capacity && Roomy(capacity, c + 1)
    ensures Popcount(c) <= 1 && c >= INITCAPACITY ==> c < 2 * c && Roomy(2 * c, c + 1)
  {
    PowerOfTwo(c);
    CeilPow2Monotone(c, n);
    CeilPow2Bounds(c);
    if c < INITCAPACITY {
      CeilPow2Monotone(c + 1, 4);
      assert CeilPow2(4) == 2 * CeilPow2(2) == 4 * CeilPow2(1);
    }
  }

  ghost function Zip(threads: seq<nat>, clocks: seq<nat>): (r: seq<Epoch>)
    requires |threads| == |clocks|
    ensures |r| == |threads| && forall k {:trigger r[k]} :: 0 <= k < |r| ==> r[k] == Epoch(threads[k], clocks[k])
  {
    seq(|threads|, k requires 0 <= k < |threads| => Epoch(threads[k], clocks[k]))
  }

  class RaceRecord {
    var readClock: array?<nat>
    var thread: array?<nat>
    var numReads: nat
    var isAtomic: bool
    var writeThread: nat
    var writeClock: nat

    ghost function Repr(): set<object>
      reads this
    {
      {this} + (if thread == null then {} else {thread}) + (if readClock == null then {} else {readClock})
    }

    ghost predicate Valid()
      reads Repr()
    {
      if thread == null then readClock == null && numReads == 0
      else
        && readClock != null && thread != readClock && thread.Length == readClock.Length
        && numReads <= thread.Length && Roomy(thread.Length, numReads)
    }

    ghost function View(): Record
      requires Valid()
      reads Repr()
    {
      Record(Entries(numReads), Epoch(writeThread, writeClock), isAtomic)
    }

    ghost function Entries(n: nat): (r: seq<Epoch>)
      requires n <= numReads && Valid()
      reads Repr()
      ensures |r| == n
    {
      if thread == null then [] else Zip(thread[..n], readClock[..n])
    }

    // `expandRecord`, given the fields of the packed word.
    constructor (rdThread: nat, rdClock: nat, wrThread: nat, wrClock: nat, atomic: bool)
      ensures Valid() && fresh(Repr())
      ensures View() == Record(if rdClock == 0 then []
        else [Epoch(rdThread, rdClock)], Epoch(wrThread, wrClock), atomic)
    {
      var threads: array?<nat>, clocks: array?<nat> := null, null;
      if rdClock != 0 {
        threads := new nat[INITCAPACITY];
        clocks := new nat[INITCAPACITY];
        threads[0] := rdThread;
        clocks[0] := rdClock;
      }
      thread, readClock := threads, clocks;
      numReads := if rdClock != 0 then 1 else 0;
      writeThread, writeClock, isAtomic := wrThread, wrClock, atomic;
    }

    // `fullRaceCheckWrite`
    method FullRaceCheckWrite(tid: nat, cv: Clock) returns (race: bool)
      requires Valid()
      modifies this
      ensures Valid() && Repr() == old(Repr())
      ensures race <==> WriteRaces(old(View()), cv, tid)
      ensures View() == AfterWrite(old(View()), cv, tid)
    {
      race := false;
      var i := 0;
      while i < numReads
        invariant i <= numReads && !race
        invariant forall k :: 0 <= k < i ==> !MayRace(cv, tid, Epoch(thread[k], readClock[k]))
        invariant Valid() && View() == old(View()) && Repr() == old(Repr())
      {
        assert View().loads[i] == Epoch(thread[i], readClock[i]);
        if MayRace(cv, tid, Epoch(thread[i], readClock[i])) {
          race := true;
          break;
        }
        i := i + 1;
      }
      if !race && MayRace(cv, tid, Epoch(writeThread, writeClock)) {
        race := true;
      }
      CeilPow2Bounds(0);
      numReads := 0;
      writeThread := tid;
      isAtomic := false;
      writeClock := At(cv, tid);
    }

    // `fullRaceCheckRead`: drop the reads this one subsumes, then add it.  The
    // entry written is always within the arrays.
    method FullRaceCheckRead(tid: nat, cv: Clock) returns (race: bool)
      requires Valid()
      modifies Repr()
      ensures Valid() && fresh(Repr() - old(Repr()))
      ensures race <==> ReadRaces(old(View()), cv, tid)
      ensures View() == AfterRead(old(View()), cv, tid)
    {
      race := MayRace(cv, tid, Epoch(writeThread, writeClock));
      ghost var loads := View().loads;
      var copytoindex := 0;
      if thread != null {
        copytoindex := Compact(thread, readClock, numReads, tid, cv);
      }
      MakeRoom(copytoindex);
      PutEntry(tid, At(cv, tid));
    }

    // Writes one more entry, for which there is room.
    method PutEntry(tid: nat, clock: nat)
      requires Valid() && thread != null && numReads < thread.Length && Roomy(thread.Length, numReads + 1)
      modifies this`numReads, thread, readClock
      ensures Valid() && Repr() == old(Repr())
      ensures View() == old(View()).(loads := old(View()).loads + [Epoch(tid, clock)])
    {
      thread[numReads] := tid;
      readClock[numReads] := clock;
      numReads := numReads + 1;
      assert Entries(numReads) == old(Entries(numReads)) + [Epoch(tid, clock)];
    }

    // A second reader's entry, written straight behind the first in the arrays
    // that expansion has just allocated.
    method AddSecondRead(tid: nat, clock: nat)
      requires Valid() && numReads == 1
      modifies Repr()
      ensures Valid() && Repr() == old(Repr())
      ensures View() == old(View()).(loads := old(View()).loads + [Epoch(tid, clock)])
    {
      assert CeilPow2(2) == 2 * CeilPow2(1);
      thread[1] := tid;
      readClock[1] := clock;
      numReads := numReads + 1;
      assert Entries(2) == old(Entries(1)) + [Epoch(tid, clock)];
    }

    // Allocates or grows the arrays when entry `n` would not fit, keeping the
    // first `n` entries, which are then all there are.
    method MakeRoom(n: nat)
      requires Valid() && n <= numReads
      modifies this`thread, this`readClock, this`numReads
      ensures thread != null && readClock != null && thread != readClock && thread.Length == readClock.Length
      ensures n < thread.Length && Roomy(thread.Length, n + 1)
      ensures Valid() && numReads == n && Entries(n) == old(Entries(n)) && fresh(Repr() - old(Repr()))
    {
      assert Popcount(0) == 0;
      if thread != null {
        RoomForOneMore(thread.Length, numReads, n);
        CeilPow2Monotone(n, n + 1);
      }
      if Popcount(n) <= 1 {
        if n == 0 && thread == null {
          CeilPow2Bounds(1);
          thread := new nat[INITCAPACITY];
          readClock := new nat[INITCAPACITY];
        } else if n >= INITCAPACITY {
          var newThread := new nat[2 * n];
          var newReadClock := new nat[2 * n];
          forall k | 0 <= k < n {
            newThread[k] := thread[k];
          }
          forall k | 0 <= k < n {
            newReadClock[k] := readClock[k];
          }
          assert newThread[..n] == thread[..n] && newReadClock[..n] == readClock[..n];
          thread, readClock := newThread, newReadClock;
        }
      }
      numReads := n;
    }
  }

  // Moves the entries still needed, of the first `n`, to the front.
  method Compact(threads: array<nat>, clocks: array<nat>, n: nat, tid: nat, cv: Clock) returns (copytoindex: nat)
    requires threads != clocks && n <= threads.Length == clocks.Length
    modifies threads, clocks
    ensures copytoindex <= n
    ensures Zip(threads[..copytoindex], clocks[..copytoindex]) ==
      StillNeeded(old(Zip(threads[..n], clocks[..n])), cv, tid)
  {
    ghost var loads := Zip(threads[..n], clocks[..n]);
    ghost var needed: seq<Epoch> := [];
    copytoindex := 0;
    var i := 0;
    while i < n
      invariant i <= n && copytoindex <= i
      invariant needed == StillNeeded(loads[..i], cv, tid) && |needed| == copytoindex
      invariant forall k :: 0 <= k < copytoindex ==> Epoch(threads[k], clocks[k]) == needed[k]
      invariant forall k :: i <= k < n ==> Epoch(threads[k], clocks[k]) == loads[k]
    {
      NeededStep(loads, i, cv, tid);
      var clock, reader := clocks[i], threads[i];
      if MayRace(cv, tid, Epoch(reader, clock)) {
        if copytoindex != i {
          clocks[copytoindex] := clock;
          threads[copytoindex] := reader;
        }
        needed := needed + [loads[i]];
        copytoindex := copytoindex + 1;
      }
      i := i + 1;
    }
    assert loads[..i] == loads;
  }

  lemma NeededStep(loads: seq<Epoch>, i: nat, cv: Clock, tid: nat)
    requires i < |loads|
    ensures StillNeeded(loads[..i + 1], cv, tid) ==
      StillNeeded(loads[..i], cv, tid) + (if MayRace(cv, tid, loads[i]) then [loads[i]] else [])
  {
    assert loads[..i + 1][..i] == loads[..i];
  }
}
