// Shadow memory: one entry per byte, packed into a 64-bit word while a single
// reader suffices and pointing to an expanded record afterwards.

module ShadowMemory {
  import opened Arithmetic
  import opened Clocks
  import opened RaceDetector
  import opened RaceRecord

  // ---- The packed word ----
  //
  // From the low end: a bit set to 1, 6 bits of reader thread, 25 of reader
  // clock, 6 of writer thread, 25 of writer clock, and the atomic bit.  The
  // fields do not overlap, so combining them by `or` is addition.

  const THREADS: nat := 0x40
  const CLOCKS: nat := 0x200_0000
  const MAXTHREADID: nat := THREADS - 2
  const MAXWRITEVECTOR: nat := CLOCKS - 2
  const INVALIDSHADOWVAL: nat := 2

  function Encode(rdThread: nat, rdClock: nat, wrThread: nat, wrClock: nat, atomic: bool): nat {
    1 + 0x2 * rdThread + 0x80 * rdClock + 0x1_0000_0000 * wrThread + 0x40_0000_0000 * wrClock
      + (if atomic then 0x8000_0000_0000_0000 else 0)
  }

  predicate IsShort(w: nat) {
    w % 2 == 1
  }

  function RdThread(w: nat): nat {
    w / 0x2 % THREADS
  }

  function RdClock(w: nat): nat {
    w / 0x80 % CLOCKS
  }

  function WrThread(w: nat): nat {
    w / 0x1_0000_0000 % THREADS
  }

  function WrClock(w: nat): nat {
    w / 0x40_0000_0000 % CLOCKS
  }

  predicate IsAtomic(w: nat) {
    w / 0x8000_0000_0000_0000 % 2 == 1
  }

  // Fields in range survive packing.
  lemma DecodeEncode(rdThread: nat, rdClock: nat, wrThread: nat, wrClock: nat, atomic: bool)
    requires rdThread < THREADS && wrThread < THREADS && rdClock < CLOCKS && wrClock < CLOCKS
    ensures var w := Encode(rdThread, rdClock, wrThread, wrClock, atomic);
            && IsShort(w) && w < 0x1_0000_0000_0000_0000
            && RdThread(w) == rdThread && RdClock(w) == rdClock
            && WrThread(w) == wrThread && WrClock(w) == wrClock && IsAtomic(w) == atomic
  {
    var w := Encode(rdThread, rdClock, wrThread, wrClock, atomic);
    var top := if atomic then 1 else 0;
    var w4 := wrClock + CLOCKS * top;
    var w3 := wrThread + THREADS * w4;
    var w2 := rdClock + CLOCKS * w3;
    var w1 := rdThread + THREADS * w2;
    assert w == 1 + 2 * w1;
    Peel(1, 2, w1);
    Peel(rdThread, THREADS, w2);
    Peel(rdClock, CLOCKS, w3);
    Peel(wrThread, THREADS, w4);
    Peel(wrClock, CLOCKS, top);
    Shifts(w);
  }

  lemma Shifts(w: nat)
    ensures w / 0x80 == w / 2 / THREADS
    ensures w / 0x1_0000_0000 == w / 2 / THREADS / CLOCKS
    ensures w / 0x40_0000_0000 == w / 2 / THREADS / CLOCKS / THREADS
    ensures w / 0x8000_0000_0000_0000 == w / 2 / THREADS / CLOCKS / THREADS / CLOCKS
  {
    DivDiv(w, 2, THREADS);
    DivDiv(w, 0x80, CLOCKS);
    DivDiv(w, 0x1_0000_0000, THREADS);
    DivDiv(w, 0x40_0000_0000, CLOCKS);
  }

  // And every packed word is the packing of its fields.
  lemma EncodeDecode(w: nat)
    requires IsShort(w) && w < 0x1_0000_0000_0000_0000
    ensures Encode(RdThread(w), RdClock(w), WrThread(w), WrClock(w), IsAtomic(w)) == w
  {
    Shifts(w);
    var w1 := w / 2;
    var w2 := w1 / THREADS;
    var w3 := w2 / CLOCKS;
    var w4 := w3 / THREADS;
    var w5 := w4 / CLOCKS;
    assert w == 1 + 2 * w1 && w1 == w1 % THREADS + THREADS * w2 && w2 == w2 % CLOCKS + CLOCKS * w3;
    assert w3 == w3 % THREADS + THREADS * w4 && w4 == w4 % CLOCKS + CLOCKS * w5;
    assert w5 < 2;
  }

  // The record a word stands for; the zero word is a byte never accessed.
  function WordView(w: nat): Record {
    Record(if RdClock(w) == 0 then [] else [Epoch(RdThread(w), RdClock(w))],
           Epoch(WrThread(w), WrClock(w)), IsAtomic(w))
  }

  predicate WordOk(w: nat) {
    (w == 0 || IsShort(w)) && w < 0x1_0000_0000_0000_0000
  }

  // ---- One access on a packed word ----

  // A word can be updated in place unless the thread or clock is too large for
  // its fields.
  predicate Fits(tid: nat, clock: nat) {
    tid <= MAXTHREADID && clock <= MAXWRITEVECTOR
  }

  function ReadWord(w: nat, tid: nat, clock: nat): nat {
    Encode(tid, clock, WrThread(w), WrClock(w), IsAtomic(w))
  }

  function WriteWord(tid: nat, clock: nat): nat {
    Encode(0, 0, tid, clock, false)
  }

  lemma ReadWordView(w: nat, tid: nat, cv: Clock)
    requires At(cv, tid) > 0 && Fits(tid, At(cv, tid)) && !MayRace(cv, tid, Epoch(RdThread(w), RdClock(w)))
    ensures WordOk(ReadWord(w, tid, At(cv, tid)))
    ensures WordView(ReadWord(w, tid, At(cv, tid))) == AfterRead(WordView(w), cv, tid)
  {
    DecodeEncode(tid, At(cv, tid), WrThread(w), WrClock(w), IsAtomic(w));
    var loads := WordView(w).loads;
    if loads != [] {
      assert loads[..0] == [] && StillNeeded(loads[..0], cv, tid) == [];
    }
  }

  lemma WriteWordView(w: nat, tid: nat, cv: Clock)
    requires Fits(tid, At(cv, tid))
    ensures WordOk(WriteWord(tid, At(cv, tid)))
    ensures WordView(WriteWord(tid, At(cv, tid))) == AfterWrite(WordView(w), cv, tid)
  {
    DecodeEncode(0, 0, tid, At(cv, tid), false);
  }

  // A read changes the low half of the word, and nothing else.
  lemma ReadWordLayout(w: nat, tid: nat, clock: nat)
    requires WordOk(w) && tid < 64 && clock < 0x200_0000
    ensures ReadWord(w, tid, clock) % 0x1_0000_0000 == 1 + 0x2 * tid + 0x80 * clock
    ensures ReadWord(w, tid, clock) / 0x1_0000_0000 == w / 0x1_0000_0000
  {
    var high := WrThread(w) + 0x40 * WrClock(w) + (if IsAtomic(w) then 0x8000_0000 else 0);
    Peel(1 + 0x2 * tid + 0x80 * clock, 0x1_0000_0000, high);
    if w != 0 {
      EncodeDecode(w);
      Peel(1 + 0x2 * RdThread(w) + 0x80 * RdClock(w), 0x1_0000_0000, high);
    }
  }

  // A read that does not subsume the recorded one goes in beside it.
  lemma SecondReader(w: nat, tid: nat, cv: Clock)
    requires MayRace(cv, tid, Epoch(RdThread(w), RdClock(w)))
    ensures AfterRead(WordView(w), cv, tid) == WordView(w).(loads := WordView(w).loads + [Now(cv, tid)])
  {
    var loads := WordView(w).loads;
    assert loads[..0] == [] && StillNeeded(loads[..0], cv, tid) == [];
  }

  // ---- Accesses to several bytes ----

  type Memory = imap<nat, Record>

  ghost predicate Total(m: Memory) {
    forall b: nat :: b in m
  }

  // Byte `b` of `now` is as in `m`, after the access `ev` if it is one of the
  // `n` bytes from `a`.
  ghost predicate ByteChecked(m: Memory, now: Memory, a: nat, n: nat, ev: Event, b: nat) {
    b in m && b in now && now[b] == if a <= b < a + n then After(m[b], ev) else m[b]
  }

  ghost predicate RacesAt(m: Memory, b: nat, ev: Event) {
    b in m && Races(m[b], ev)
  }

  // `now` is `m` with the `n` bytes from `a` each checked for the access `ev`,
  // and `race` says whether any of them raced.
  ghost predicate Checked(m: Memory, now: Memory, a: nat, n: nat, ev: Event, race: bool) {
    && (forall b: nat {:trigger ByteChecked(m, now, a, n, ev, b)} :: ByteChecked(m, now, a, n, ev, b))
    && (race <==> exists b: nat {:trigger RacesAt(m, b, ev)} :: a <= b < a + n && RacesAt(m, b, ev))
  }

  lemma CheckedOne(m: Memory, now: Memory, a: nat, ev: Event)
    requires Total(m) && now == m[a := After(m[a], ev)]
    ensures Checked(m, now, a, 1, ev, Races(m[a], ev))
  {
    forall b: nat ensures ByteChecked(m, now, a, 1, ev, b) {
    }
    assert Races(m[a], ev) ==> RacesAt(m, a, ev);
  }

  // Checking bytes in turn is checking them all.
  lemma CheckedNext(m: Memory, now: Memory, next: Memory, a: nat, k: nat, ev: Event, race: bool, more: bool)
    requires Checked(m, now, a, k, ev, race) && Checked(now, next, a + k, 1, ev, more)
    ensures Checked(m, next, a, k + 1, ev, race || more)
  {
    assert ByteChecked(m, now, a, k, ev, a + k);
    var n := k + 1;
    forall b: nat ensures ByteChecked(m, next, a, n, ev, b) {
      assert ByteChecked(m, now, a, k, ev, b) && ByteChecked(now, next, a + k, 1, ev, b);
    }
    assert RacesAt(m, a + k, ev) <==> RacesAt(now, a + k, ev);
  }

  // A byte holding the first byte's old word fares as the first byte did.
  lemma CheckedSame(m: Memory, now: Memory, next: Memory, a: nat, k: nat, ev: Event, race: bool, oldVal: nat,
    newVal: nat)
    requires Total(now) && Checked(m, now, a, k, ev, race) && k >= 1
    requires a in m && m[a] == WordView(oldVal) == now[a + k] && now[a] == WordView(newVal)
    requires next == now[a + k := WordView(newVal)]
    ensures Checked(m, next, a, k + 1, ev, race)
  {
    assert ByteChecked(m, now, a, k, ev, a) && ByteChecked(m, now, a, k, ev, a + k);
    if Races(now[a + k], ev) {
      assert RacesAt(m, a, ev);
    }
    CheckedOne(now, next, a + k, ev);
    CheckedNext(m, now, next, a, k, ev, race, Races(now[a + k], ev));
  }

  // ---- The memory ----

  datatype Shadow = Word(w: nat) | Full(rec: RaceRecord)

  class ShadowMemory {
    var shadow: map<nat, Shadow>
    ghost var Repr: set<object>

    // `lookupAddressEntry`: tables are created zeroed on first use.
    function Entry(a: nat): Shadow
      reads this
    {
      if a in shadow then shadow[a] else Word(0)
    }

    ghost predicate Valid()
      reads this, Repr
    {
      && this !in Repr
      && (forall a {:trigger EntryOk(a)} :: EntryOk(a))
      && (forall a, b {:trigger Apart(a, b)} :: EntryOk(a) && EntryOk(b) && Apart(a, b))
    }

    ghost predicate EntryOk(a: nat)
      reads this, Repr
    {
      match Entry(a)
      case Word(w) => WordOk(w)
      case Full(rec) => rec in Repr && rec.Repr() <= Repr && rec.Valid()
    }

    // Expanded records share nothing.
    ghost predicate Apart(a: nat, b: nat)
      requires EntryOk(a) && EntryOk(b)
      reads this, Repr
    {
      a != b && Entry(a).Full? && Entry(b).Full? ==> Entry(a).rec.Repr() !! Entry(b).rec.Repr()
    }

    // What is remembered of byte `a`, in either form.
    ghost function View(a: nat): Record
      requires EntryOk(a)
      reads this, Repr
    {
      match Entry(a)
      case Word(w) => WordView(w)
      case Full(rec) => rec.View()
    }

    // What is remembered of every byte.
    ghost function Contents(): imap<nat, Record>
      requires Valid()
      reads this, Repr
    {
      imap a: nat | true :: View(a)
    }

    constructor ()
      ensures Valid() && fresh(Repr) && forall a: nat {:trigger Contents()[a]} :: Contents()[a] == NEVER
    {
      shadow, Repr := map[], {};
      new;
      forall a ensures EntryOk(a) {
      }
      forall a, b ensures Apart(a, b) {
      }
      forall a: nat ensures Contents()[a] == NEVER {
        assert EntryOk(a);
      }
    }

    // `expandRecord`
    method ExpandRecord(a: nat)
      requires Valid() && Entry(a).Word?
      modifies this
      ensures Valid() && fresh(Repr - old(Repr)) && old(Repr) <= Repr
      ensures Entry(a).Full? && Contents() == old(Contents())
      ensures forall b :: b != a ==> Entry(b) == old(Entry(b))
    {
      var w := Entry(a).w;
      var rec := new RaceRecord(RdThread(w), RdClock(w), WrThread(w), WrClock(w), IsAtomic(w));
      shadow := shadow[a := Full(rec)];
      Repr := Repr + rec.Repr();
      forall b ensures EntryOk(b) && View(b) == old(View(b)) {
        assert old(EntryOk(b));
      }
      forall b, c ensures Apart(b, c) {
        assert old(EntryOk(b)) && old(EntryOk(c)) && old(Apart(b, c));
      }
      assert Contents() == old(Contents());
    }

    method SetWord(a: nat, w: nat)
      requires Valid() && WordOk(w)
      modifies this`shadow
      ensures Valid() && Entry(a) == Word(w) && Contents() == old(Contents())[a := WordView(w)]
      ensures forall b :: b != a ==> Entry(b) == old(Entry(b))
    {
      shadow := shadow[a := Word(w)];
      forall b ensures EntryOk(b) && (b != a ==> View(b) == old(View(b))) {
        assert old(EntryOk(b));
      }
      forall b, c ensures Apart(b, c) {
        assert old(EntryOk(b)) && old(EntryOk(c)) && old(Apart(b, c));
      }
      assert Contents() == old(Contents())[a := WordView(w)];
    }

    method FullRead(a: nat, tid: nat, cv: Clock) returns (race: bool)
      requires Valid() && Entry(a).Full?
      modifies this`Repr, Repr
      ensures Valid() && fresh(Repr - old(Repr))
      ensures race <==> ReadRaces(old(Contents())[a], cv, tid)
      ensures Contents() == old(Contents())[a := AfterRead(old(Contents())[a], cv, tid)]
      ensures forall b :: Entry(b) == old(Entry(b))
    {
      assert EntryOk(a);
      var rec := Entry(a).rec;
      race := rec.FullRaceCheckRead(tid, cv);
      Repr := Repr + rec.Repr();
      forall b ensures EntryOk(b) && (b != a ==> View(b) == old(View(b))) {
        assert old(EntryOk(b)) && old(Apart(a, b));
      }
      forall b, c ensures Apart(b, c) {
        assert old(EntryOk(b)) && old(EntryOk(c)) && old(Apart(b, c)) && old(Apart(a, c)) && old(Apart(b, a));
      }
      assert Contents() == old(Contents())[a := View(a)];
    }

    method FullWrite(a: nat, tid: nat, cv: Clock) returns (race: bool)
      requires Valid() && Entry(a).Full?
      modifies Repr
      ensures Valid()
      ensures race <==> WriteRaces(old(Contents())[a], cv, tid)
      ensures Contents() == old(Contents())[a := AfterWrite(old(Contents())[a], cv, tid)]
      ensures forall b :: Entry(b) == old(Entry(b))
    {
      assert EntryOk(a);
      race := Entry(a).rec.FullRaceCheckWrite(tid, cv);
      forall b ensures EntryOk(b) && (b != a ==> View(b) == old(View(b))) {
        assert old(EntryOk(b)) && old(Apart(a, b));
      }
      forall b, c ensures Apart(b, c) {
        assert old(EntryOk(b)) && old(EntryOk(c)) && old(Apart(b, c));
      }
      assert Contents() == old(Contents())[a := View(a)];
    }

    method SecondRead(a: nat, tid: nat, clock: nat)
      requires Valid() && Entry(a).Full? && |Contents()[a].loads| == 1
      modifies Repr
      ensures Valid()
      ensures var was := old(Contents())[a];
              Contents() == old(Contents())[a := was.(loads := was.loads + [Epoch(tid, clock)])]
      ensures forall b :: Entry(b) == old(Entry(b))
    {
      assert EntryOk(a);
      Entry(a).rec.AddSecondRead(tid, clock);
      forall b ensures EntryOk(b) && (b != a ==> View(b) == old(View(b))) {
        assert old(EntryOk(b)) && old(Apart(a, b));
      }
      forall b, c ensures Apart(b, c) {
        assert old(EntryOk(b)) && old(EntryOk(c)) && old(Apart(b, c));
      }
      assert Contents() == old(Contents())[a := View(a)];
    }

    // The entry of `a` went from one packed word to another by a read or write
    // that looked at nothing but that word; or else both are the invalid word.
    ghost predicate Packed(before: Shadow, after: Shadow, oldVal: nat, newVal: nat) {
      || (oldVal == newVal == INVALIDSHADOWVAL)
      || (before == Word(oldVal) && after == Word(newVal) && WordOk(oldVal) && WordOk(newVal))
    }

    // One byte of `raceCheckRead`.  Whatever form its entry takes before and
    // after, the record it stands for changes as the detector prescribes.
    method CheckRead(a: nat, tid: nat, cv: Clock) returns (race: bool, oldVal: nat, newVal: nat)
      requires Valid() && At(cv, tid) > 0
      modifies this, Repr
      ensures Valid() && fresh(Repr - old(Repr))
      ensures Checked(old(Contents()), Contents(), a, 1, Event(tid, false, cv), race)
      ensures forall b :: b != a ==> Entry(b) == old(Entry(b))
      ensures Packed(old(Entry(a)), Entry(a), oldVal, newVal)
      // The word stays packed as long as thread and clock fit and the read
      // subsumes the one recorded; it then goes to the low half.
      ensures Entry(a).Word? <==>
        && old(Entry(a)).Word? && tid <= 62 && At(cv, tid) <= 0x1FF_FFFE
        && forall e :: e in old(Contents())[a].loads ==> !MayRace(cv, tid, e)
      ensures Entry(a).Word? ==>
        && Entry(a).w % 0x1_0000_0000 == 1 + 0x2 * tid + 0x80 * At(cv, tid)
        && Entry(a).w / 0x1_0000_0000 == old(Entry(a)).w / 0x1_0000_0000
    {
      assert EntryOk(a);
      ghost var m, ev := Contents(), Event(tid, false, cv);
      oldVal, newVal := INVALIDSHADOWVAL, INVALIDSHADOWVAL;
      var ourClock := At(cv, tid);
      if Entry(a).Full? {
        race := FullRead(a, tid, cv);
        CheckedOne(m, Contents(), a, ev);
        return;
      }
      var w := Entry(a).w;
      if tid > MAXTHREADID || ourClock > MAXWRITEVECTOR {
        ExpandRecord(a);
        race := FullRead(a, tid, cv);
        CheckedOne(m, Contents(), a, ev);
        return;
      }
      race := MayRace(cv, tid, Epoch(WrThread(w), WrClock(w)));
      if MayRace(cv, tid, Epoch(RdThread(w), RdClock(w))) {
        SecondReader(w, tid, cv);
        ExpandRecord(a);
        SecondRead(a, tid, ourClock);
        CheckedOne(m, Contents(), a, ev);
        return;
      }
      ReadWordView(w, tid, cv);
      ReadWordLayout(w, tid, ourClock);
      newVal := ReadWord(w, tid, ourClock);
      SetWord(a, newVal);
      CheckedOne(m, Contents(), a, ev);
      oldVal := w;
    }

    // The shortcut: gives `newVal` to the bytes behind `a` for as long as they
    // hold `oldVal`.
    method CopyWord(a: nat, width: nat, oldVal: nat, newVal: nat, ghost was: Shadow, ghost c0: Memory,
      ghost ev: Event, ghost race: bool)
      returns (k: nat)
      requires Valid() && width >= 1 && Checked(c0, Contents(), a, 1, ev, race)
      requires Packed(was, Entry(a), oldVal, newVal)
      requires was.Word? ==> a in c0 && c0[a] == WordView(was.w)
      modifies this`shadow
      ensures Valid() && 1 <= k <= width && Checked(c0, Contents(), a, k, ev, race)
    {
      k := 1;
      while k < width && Entry(a + k) == Word(oldVal)
        invariant 1 <= k <= width && Valid() && Entry(a) == old(Entry(a))
        invariant Checked(c0, Contents(), a, k, ev, race)
      {
        assert EntryOk(a + k) && EntryOk(a);
        ghost var now := Contents();
        SetWord(a + k, newVal);
        CheckedSame(c0, now, Contents(), a, k, ev, race, oldVal, newVal);
        k := k + 1;
      }
    }

    // The `n` bytes from `a` on have been checked, and nothing else has changed.
    ghost predicate CheckedUpTo(c0: Memory, a: nat, n: nat, ev: Event, race: bool)
      reads this, Repr
    {
      Valid() && Checked(c0, Contents(), a, n, ev, race)
    }

    method CheckReadNext(a: nat, k: nat, tid: nat, cv: Clock, ghost c0: Memory, seen: bool) returns (race: bool)
      requires At(cv, tid) > 0 && CheckedUpTo(c0, a, k, Event(tid, false, cv), seen)
      modifies this, Repr
      ensures fresh(Repr - old(Repr)) && CheckedUpTo(c0, a, k + 1, Event(tid, false, cv), race)
    {
      var o, n;
      race, o, n := CheckRead(a + k, tid, cv);
      CheckedNext(c0, old(Contents()), Contents(), a, k, Event(tid, false, cv), seen, race);
      race := seen || race;
    }

    // The bytes from `a + k` on, one at a time.
    method CheckReadRest(a: nat, from: nat, width: nat, tid: nat, cv: Clock, ghost c0: Memory, seen: bool)
      returns (race: bool)
      requires At(cv, tid) > 0 && 1 <= from <= width && CheckedUpTo(c0, a, from, Event(tid, false, cv), seen)
      modifies this, Repr
      ensures fresh(Repr - old(Repr)) && CheckedUpTo(c0, a, width, Event(tid, false, cv), race)
    {
      race := seen;
      var k := from;
      while k < width
        invariant from <= k <= width && CheckedUpTo(c0, a, k, Event(tid, false, cv), race) && fresh(Repr - old(Repr))
      {
        race := CheckReadNext(a, k, tid, cv, c0, race);
        k := k + 1;
      }
    }

    // `raceCheckRead16`, `32` and `64`: bytes that hold the very word the first
    // one held take its new word without being checked.  Memory still ends as if
    // each byte had been checked in turn, and a race on any of them is reported.
    method CheckReadWide(a: nat, width: nat, tid: nat, cv: Clock) returns (race: bool)
      requires Valid() && At(cv, tid) > 0 && 1 <= width <= 8
      modifies this, Repr
      ensures Valid() && fresh(Repr - old(Repr))
      ensures Checked(old(Contents()), Contents(), a, width, Event(tid, false, cv), race)
    {
      ghost var c0, ev := Contents(), Event(tid, false, cv);
      var oldVal, newVal;
      race, oldVal, newVal := CheckRead(a, tid, cv);
      var k := 1;
      if a % 0x1_0000 + (width - 1) <= 0xffff {
        k := CopyWord(a, width, oldVal, newVal, old(Entry(a)), c0, ev, race);
      }
      race := CheckReadRest(a, k, width, tid, cv, c0, race);
    }

    // One byte of `raceCheckWrite`.
    method CheckWrite(a: nat, tid: nat, cv: Clock) returns (race: bool, oldVal: nat, newVal: nat)
      requires Valid()
      modifies this, Repr
      ensures Valid() && fresh(Repr - old(Repr))
      ensures Checked(old(Contents()), Contents(), a, 1, Event(tid, true, cv), race)
      ensures forall b :: b != a ==> Entry(b) == old(Entry(b))
      ensures Packed(old(Entry(a)), Entry(a), oldVal, newVal)
      // A packed word becomes that of the write, if thread and clock fit.
      ensures Entry(a).Word? <==> old(Entry(a)).Word? && tid <= 62 && At(cv, tid) <= 0x1FF_FFFE
      ensures Entry(a).Word? ==> Entry(a).w == 1 + 0x1_0000_0000 * tid + 0x40_0000_0000 * At(cv, tid)
    {
      assert EntryOk(a);
      ghost var m, ev := Contents(), Event(tid, true, cv);
      oldVal, newVal := INVALIDSHADOWVAL, INVALIDSHADOWVAL;
      var ourClock := At(cv, tid);
      if Entry(a).Full? {
        race := FullWrite(a, tid, cv);
        CheckedOne(m, Contents(), a, ev);
        return;
      }
      var w := Entry(a).w;
      if tid > MAXTHREADID || ourClock > MAXWRITEVECTOR {
        ExpandRecord(a);
        race := FullWrite(a, tid, cv);
        CheckedOne(m, Contents(), a, ev);
        return;
      }
      race := MayRace(cv, tid, Epoch(RdThread(w), RdClock(w))) || MayRace(cv, tid, Epoch(WrThread(w), WrClock(w)));
      WriteWordView(w, tid, cv);
      newVal := WriteWord(tid, ourClock);
      SetWord(a, newVal);
      CheckedOne(m, Contents(), a, ev);
      oldVal := w;
    }

    method CheckWriteNext(a: nat, k: nat, tid: nat, cv: Clock, ghost c0: Memory, seen: bool) returns (race: bool)
      requires CheckedUpTo(c0, a, k, Event(tid, true, cv), seen)
      modifies this, Repr
      ensures fresh(Repr - old(Repr)) && CheckedUpTo(c0, a, k + 1, Event(tid, true, cv), race)
    {
      var o, n;
      race, o, n := CheckWrite(a + k, tid, cv);
      CheckedNext(c0, old(Contents()), Contents(), a, k, Event(tid, true, cv), seen, race);
      race := seen || race;
    }

    // The bytes from `a + k` on, one at a time.
    method CheckWriteRest(a: nat, from: nat, width: nat, tid: nat, cv: Clock, ghost c0: Memory, seen: bool)
      returns (race: bool)
      requires 1 <= from <= width && CheckedUpTo(c0, a, from, Event(tid, true, cv), seen)
      modifies this, Repr
      ensures fresh(Repr - old(Repr)) && CheckedUpTo(c0, a, width, Event(tid, true, cv), race)
    {
      race := seen;
      var k := from;
      while k < width
        invariant from <= k <= width && CheckedUpTo(c0, a, k, Event(tid, true, cv), race) && fresh(Repr - old(Repr))
      {
        race := CheckWriteNext(a, k, tid, cv, c0, race);
        k := k + 1;
      }
    }

    // `raceCheckWrite16`, `32` and `64`, likewise.
    method CheckWriteWide(a: nat, width: nat, tid: nat, cv: Clock) returns (race: bool)
      requires Valid() && 1 <= width <= 8
      modifies this, Repr
      ensures Valid() && fresh(Repr - old(Repr))
      ensures Checked(old(Contents()), Contents(), a, width, Event(tid, true, cv), race)
    {
      ghost var c0, ev := Contents(), Event(tid, true, cv);
      var oldVal, newVal;
      race, oldVal, newVal := CheckWrite(a, tid, cv);
      var k := 1;
      if a % 0x1_0000 + (width - 1) <= 0xffff {
        k := CopyWord(a, width, oldVal, newVal, old(Entry(a)), c0, ev, race);
      }
      race := CheckWriteRest(a, k, width, tid, cv, c0, race);
    }
  }
}
