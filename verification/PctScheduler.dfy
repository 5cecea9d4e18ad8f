// The PCT scheduler: random priorities, lowered at chosen points of the schedule
// (`schedule.cc`).

module PctScheduler {
  import opened Options
  import opened Sequences
  import opened PctOrder

  datatype Enabled = Disabled | Runnable | Sleeping

  predicate Increasing(s: seq<int>) {
    forall i, j :: 0 <= i < j < |s| ==> s[i] < s[j]
  }

  // How many of the change points have been reached.
  function Reached(points: seq<int>, now: nat): (r: nat)
    ensures r <= |points|
  {
    if points == [] then 0 else Reached(points[1..], now) + if points[0] <= now then 1 else 0
  }

  lemma {:induction false} ReachedStep(points: seq<int>, now: nat)
    requires Increasing(points)
    ensures Reached(points, now + 1) == Reached(points, now) + if now + 1 in points then 1 else 0
  {
    if points != [] {
      assert points == [points[0]] + points[1..];
      ReachedStep(points[1..], now);
      if points[0] == now + 1 {
        assert now + 1 !in points[1..];
      }
    }
  }

  // ---- Change points ----

  // `getRandom`
  function Clamped(draw: int, range: int): int
    requires range > 0
  {
    // C's remainder takes the sign of the dividend.
    var rem := if draw >= 0 then draw % range else -((-draw) % range);
    if rem < 1 then 1 else rem
  }

  // The change point a draw gives.
  ghost function PointOf(draw: int, range: int): int
    requires range > 0
  {
    if draw > 0 && draw % range > 0 then draw % range else 1
  }

  ghost function PointsOf(draws: seq<int>, range: int): (r: set<int>)
    requires range > 0
    ensures forall p :: p in r ==> p == 1 || 1 < p < range
  {
    set d | d in draws :: PointOf(d, range)
  }

  lemma ClampedIsPoint(draw: int, range: int)
    requires range > 0
    ensures Clamped(draw, range) == PointOf(draw, range)
  {
  }

  lemma PointsOfNext(draws: seq<int>, k: nat, range: int)
    requires range > 0 && k < |draws|
    ensures PointsOf(draws[..k + 1], range) == PointsOf(draws[..k], range) + {PointOf(draws[k], range)}
  {
    var a, b := draws[..k], draws[..k + 1];
    assert b == a + [draws[k]];
    forall p ensures p in PointsOf(b, range) <==> p in PointsOf(a, range) + {PointOf(draws[k], range)} {
      if p in PointsOf(b, range) {
        var d :| d in b && p == PointOf(d, range);
        assert d in a || d == draws[k];
      }
      if p in PointsOf(a, range) {
        var d :| d in a && p == PointOf(d, range);
        assert d in b;
      }
      assert draws[k] in b;
    }
  }

  // `set_chg_pts`: distinct points drawn at random, then sorted.  None if the
  // draws run out before enough distinct points were seen.
  method SetChgPts(bugdepth: int, maxscheduler: int, draws: seq<int>) returns (points: Option<seq<int>>)
    requires maxscheduler > 0
    ensures points.Some? ==> Increasing(points.value) && |points.value| == if bugdepth <= 1 then 0 else bugdepth - 1
    ensures points.Some? ==> forall p :: p in points.value ==> p == 1 || 1 < p < maxscheduler
    // They are what the first so many draws give.
    ensures points.Some? ==> exists k {:trigger draws[..k]} ::
      0 <= k <= |draws| && PointsOf(draws[..k], maxscheduler) == set p | p in points.value
    ensures points.None? ==> |PointsOf(draws, maxscheduler)| < bugdepth - 1
  {
    if bugdepth <= 1 {
      assert PointsOf(draws[..0], maxscheduler) == set p: int | p in [];
      return Some([]);
    }
    var n, next := bugdepth - 1, 0;
    var chgPts: seq<int> := [];
    while |chgPts| < n
      invariant |chgPts| <= n && next <= |draws| && Distinct(chgPts)
      invariant PointsOf(draws[..next], maxscheduler) == set p | p in chgPts
      decreases |draws| - next
    {
      if next == |draws| {
        assert draws[..next] == draws;
        DistinctCount(chgPts);
        return None;
      }
      PointsOfNext(draws, next, maxscheduler);
      ClampedIsPoint(draws[next], maxscheduler);
      var tmp := Clamped(draws[next], maxscheduler);
      next := next + 1;
      if tmp !in chgPts {
        chgPts := chgPts + [tmp];
      }
    }
    var sorted := BubbleSort(chgPts);
    assert forall p :: p in sorted <==> p in chgPts by {
      assert forall p :: p in sorted <==> p in multiset(sorted);
    }
    assert (set p | p in sorted) == PointsOf(draws[..next], maxscheduler);
    assert forall p :: p in sorted ==> p in PointsOf(draws[..next], maxscheduler);
    DistinctSorted(chgPts, sorted);
    points := Some(sorted);
  }

  lemma DistinctSorted(a: seq<int>, b: seq<int>)
    requires Distinct(a) && multiset(a) == multiset(b) && forall i, j :: 0 <= i < j < |b| ==> b[i] <= b[j]
    ensures Increasing(b) && |a| == |b|
  {
    assert |a| == |multiset(a)| == |multiset(b)| == |b|;
    forall i, j | 0 <= i < j < |b| ensures b[i] < b[j] {
      if b[i] == b[j] {
        assert b == b[..j] + b[j..];
        assert b[..j][i] in multiset(b[..j]) && b[j..][0] in multiset(b[j..]);
        DistinctOnce(a, b[i]);
      }
    }
  }

  lemma {:induction false} DistinctCount(a: seq<int>)
    requires Distinct(a)
    ensures |set x | x in a| == |a|
  {
    if a != [] {
      DistinctCount(a[1..]);
      assert a == [a[0]] + a[1..];
      assert (set x | x in a) == {a[0]} + set x | x in a[1..];
    }
  }

  lemma {:induction false} DistinctOnce(a: seq<int>, x: int)
    requires Distinct(a)
    ensures multiset(a)[x] <= 1
  {
    if a != [] {
      DistinctOnce(a[1..], x);
      assert a == [a[0]] + a[1..];
      if a[0] == x {
        assert x !in a[1..];
      }
    }
  }

  // The tail from `k` on is sorted and above the rest.
  ghost predicate Risen(s: seq<int>, k: int) {
    forall i, j :: 0 <= i < j < |s| && j >= k ==> s[i] <= s[j]
  }

  method BubbleSort(points: seq<int>) returns (s: seq<int>)
    ensures multiset(s) == multiset(points)
    ensures forall i, j :: 0 <= i < j < |s| ==> s[i] <= s[j]
  {
    s := points;
    for i := 0 to |points|
      invariant |s| == |points| && multiset(s) == multiset(points) && Risen(s, |s| - i)
    {
      s := BubblePass(s, i);
    }
  }

  // Part-way through a pass: the largest of the first `j` has been carried to
  // place `j - 1`, and the tail from `k` on has risen.
  ghost predicate Rising(s: seq<int>, j: int, k: int) {
    && 0 < j <= |s| && Risen(s, k) && (forall i :: 0 <= i < j ==> s[i] <= s[j - 1])
    && (j > k ==> Risen(s, k - 1))
  }

  // One more element rises to its place.
  method BubblePass(points: seq<int>, i: nat) returns (s: seq<int>)
    requires i < |points| && Risen(points, |points| - i)
    ensures |s| == |points| && multiset(s) == multiset(points) && Risen(s, |s| - i - 1)
  {
    s := points;
    for j := 1 to |s|
      invariant |s| == |points| && multiset(s) == multiset(points) && Rising(s, j, |s| - i)
    {
      RisingStep(s, j, |s| - i);
      if s[j - 1] > s[j] {
        s := s[j - 1 := s[j]][j := s[j - 1]];
      }
    }
  }

  // A swap, where one is due, carries the largest so far one place up.
  lemma RisingStep(s: seq<int>, j: int, k: int)
    requires Rising(s, j, k) && j < |s|
    ensures var r := if s[j - 1] > s[j] then s[j - 1 := s[j]][j := s[j - 1]] else s;
      multiset(r) == multiset(s) && Rising(r, j + 1, k)
  {
    var r := if s[j - 1] > s[j] then s[j - 1 := s[j]][j := s[j - 1]] else s;
    assert forall i :: 0 <= i < |s| ==> r[i] == if r == s then s[i] else if i == j - 1 then s[j]
      else if i == j then s[j - 1] else s[i];
    forall i | 0 <= i <= j ensures r[i] <= r[j] {
      assert i < j ==> s[i] <= s[j - 1];
    }
    forall a, b | 0 <= a < b < |r| && b >= k ensures r[a] <= r[b] {
      assert s[a] <= s[b] && (j >= k ==> s[j - 1] <= s[j]);
    }
    if j + 1 > k {
      forall a, b | 0 <= a < b < |r| && b >= k - 1 ensures r[a] <= r[b] {
        assert r == s && (b >= k || j > k || b == j - 1);
      }
    }
  }

  // ---- The highest available thread ----

  function Highest(order: seq<int>, avail: seq<int>): (r: Option<int>)
    ensures r.Some? ==> r.value in order && r.value in avail
  {
    if order == [] then None else if order[0] in avail then Some(order[0]) else Highest(order[1..], avail)
  }

  // No available thread is above it.
  lemma {:induction false} HighestIsHighest(order: seq<int>, avail: seq<int>, t: int)
    requires Distinct(order) && t in order && t in avail
    ensures Highest(order, avail).Some?
    ensures t == Highest(order, avail).value || Above(order, Highest(order, avail).value, t)
  {
    assert order == [order[0]] + order[1..];
    if order[0] !in avail {
      HighestIsHighest(order[1..], avail, t);
    }
    AboveStep(order, Highest(order, avail).value, t);
  }

  lemma {:induction false} HighestJoin(a: seq<int>, b: seq<int>, avail: seq<int>)
    ensures Highest(a + b, avail) == if Highest(a, avail).Some? then Highest(a, avail) else Highest(b, avail)
  {
    if a == [] {
      assert a + b == b;
    } else {
      HighestJoin(a[1..], b, avail);
      assert (a + b)[1..] == a[1..] + b;
    }
  }

  // Scanning one more slot.
  lemma ScanStep(slots: seq<int>, k: nat, avail: seq<int>)
    requires k < |slots| && NONE !in avail && Highest(Threads(slots[..k]), avail).None?
    ensures Highest(Threads(slots[..k + 1]), avail) == if slots[k] in avail then Some(slots[k]) else None
  {
    assert slots[..k + 1] == slots[..k] + [slots[k]];
    ThreadsJoin(slots[..k], [slots[k]]);
    HighestJoin(Threads(slots[..k]), Threads([slots[k]]), avail);
  }

  // One of the two loops of `find_highest`.
  method FirstAvailable(slots: seq<int>, avail: seq<int>) returns (found: Option<int>)
    requires NONE !in avail
    ensures found == Highest(Threads(slots), avail)
  {
    var k := 0;
    found := None;
    while k < |slots| && found.None?
      invariant k <= |slots| && found == Highest(Threads(slots[..k]), avail)
    {
      ScanStep(slots, k, avail);
      if slots[k] in avail {
        found := Some(slots[k]);
      }
      k := k + 1;
    }
    assert slots[..|slots|] == slots;
    if k < |slots| {
      assert slots == slots[..k] + slots[k..];
      ThreadsJoin(slots[..k], slots[k..]);
      HighestJoin(Threads(slots[..k]), Threads(slots[k..]), avail);
    }
  }

  // No runnable thread is above `t`.
  ghost predicate IsTop(enabled: seq<Enabled>, order: seq<int>, t: int) {
    forall u :: 0 <= u < |enabled| && enabled[u].Runnable? ==> u == t || Above(order, t, u)
  }

  // The order once thread `t` has sunk to the bottom, if it has.
  ghost function Lowered(order: seq<int>, t: int, sinks: bool): seq<int> {
    if sinks then Without(order, t) + [t] else order
  }

  // `t` is the one that `random` draws from the threads with this status, in
  // order of id.
  ghost predicate IsDraw(enabled: seq<Enabled>, status: Enabled, random: nat, t: int) {
    exists list: seq<int> :: && Increasing(list) && list != [] && t == list[random % |list|]
                             && forall u :: u in list <==> 0 <= u < |enabled| && enabled[u] == status
  }

  class Scheduler {
    var enabled: seq<Enabled>
    var highvec: seq<int>
    var lowvec: seq<int>
    var chgPts: seq<int>
    var schelen: nat
    const maxscheduler: nat
    var schelenLimit: nat
    var livelock: bool
    // How often a priority was lowered.
    ghost var moves: nat

    // All threads, from the highest priority down.
    ghost function Order(): seq<int>
      reads this
    {
      Threads(highvec) + Threads(lowvec)
    }

    ghost predicate Valid()
      reads this
    {
      && maxscheduler > 0 && schelenLimit == 5 * maxscheduler && |lowvec| == |chgPts| && Increasing(chgPts)
      && Distinct(Order()) && (forall t :: t in Order() ==> t >= 0)
      && (forall t :: 0 <= t < |enabled| && !enabled[t].Disabled? ==> t in Order())
      && (forall i :: 0 <= i < |lowvec| && lowvec[i] != NONE ==> chgPts[i] <= schelen)
      && moves <= Reached(chgPts, schelen)
    }

    // `setParams`
    constructor (points: seq<int>, maxscheduler: nat)
      requires maxscheduler > 0 && Increasing(points)
      ensures Valid() && Order() == [] && enabled == [] && chgPts == points && schelen == 0 && moves == 0
      ensures this.maxscheduler == maxscheduler && schelenLimit == 5 * maxscheduler && !livelock
    {
      this.maxscheduler := maxscheduler;
      enabled, highvec, lowvec, chgPts := [], [], seq(|points|, i => NONE), points;
      schelen, schelenLimit, livelock, moves := 0, 5 * maxscheduler, false, 0;
      new;
      ThreadsNone(lowvec);
    }

    // `set_enabled`, and so `sleep`, `wake`, `add_sleep` and `remove_sleep`: the
    // table grows, with threads in between disabled.
    method SetEnabled(t: nat, status: Enabled)
      modifies this`enabled
      ensures Order() == old(Order())
      ensures old(Valid()) ==> (Valid() <==> t in Order() || status.Disabled?)
      ensures |enabled| == if t < |old(enabled)| then |old(enabled)| else t + 1
      ensures enabled[t] == status
      ensures forall i :: 0 <= i < |enabled| && i != t ==>
        enabled[i] == if i < |old(enabled)| then old(enabled)[i] else Disabled
    {
      if t >= |enabled| {
        enabled := enabled + seq(t + 1 - |enabled|, i => Disabled);
      }
      enabled := enabled[t := status];
    }

    // `add_thread`: a new thread gets a random priority above all lowered ones.
    method AddThread(t: nat, random: nat)
      requires Valid() && t !in Order()
      modifies this`enabled, this`highvec
      ensures Valid() && t < |enabled| && enabled[t] == Runnable
      ensures exists k {:trigger old(Order())[..k]} ::
        0 <= k <= |old(Order())| && Order() == old(Order())[..k] + [t] + old(Order())[k..]
      ensures var slot := random % (|old(highvec)| + 1);
        |highvec| == |old(highvec)| + 1 && highvec[slot] == t
      ensures forall u :: u in lowvec && u != NONE ==> Above(Order(), t, u)
    {
      SetEnabled(t, Runnable);
      InsertHigh(t, random % (|highvec| + 1));
    }

    // `highvec_addthread`: the new thread's slot pushes those behind it back.
    method InsertHigh(t: nat, tmp: nat)
      requires Distinct(Order()) && t !in Order() && tmp <= |highvec|
      modifies this`highvec
      ensures Distinct(Order()) && forall x :: x in Order() <==> x in old(Order()) || x == t
      ensures exists k {:trigger old(Order())[..k]} ::
        0 <= k <= |old(Order())| && Order() == old(Order())[..k] + [t] + old(Order())[k..]
      ensures |highvec| == |old(highvec)| + 1 && highvec[tmp] == t
      ensures forall u :: u in lowvec && u != NONE ==> Above(Order(), t, u)
    {
      var oldhigh := highvec;
      highvec := oldhigh[..tmp] + [t] + oldhigh[tmp..];
      Inserted(oldhigh, lowvec, tmp, t);
      ghost var order, k := old(Order()), |Threads(oldhigh[..tmp])|;
      InsertedDistinct(order, k, t);
      assert Order() == order[..k] + [t] + order[k..];
      HighIsAbove(highvec, lowvec, tmp, t);
    }

    // `movethread`
    method MoveThread(lowvecIdx: nat, t: int)
      requires t != NONE && t in Order() && Distinct(Order())
      requires lowvecIdx < |lowvec| && forall i :: lowvecIdx <= i < |lowvec| ==> lowvec[i] == NONE
      modifies this`highvec, this`lowvec
      ensures Order() == Without(old(Order()), t) + [t]
      ensures |lowvec| == |old(lowvec)| && forall i :: 0 <= i < |lowvec| && lowvec[i] != NONE ==> i <= lowvecIdx
      ensures forall i :: 0 <= i < |lowvec| && lowvec[i] != NONE ==> i == lowvecIdx || old(lowvec)[i] != NONE
    {
      ghost var high, low := highvec, lowvec;
      ThreadsIn(highvec, t);
      ThreadsIn(lowvec, t);
      DistinctParts(Threads(high), Threads(low), t);
      WithoutJoin(Threads(high), Threads(low), t);
      var i := IndexOf(highvec, t);
      if i < |highvec| {
        EmptiedSlot(highvec, i);
        highvec := highvec[i := NONE];
        WithoutAbsent(Threads(low), t);
      } else {
        var j := IndexOf(lowvec, t);
        EmptiedSlot(lowvec, j);
        lowvec := lowvec[j := NONE];
        WithoutAbsent(Threads(high), t);
      }
      FilledSlot(lowvec, lowvecIdx, t);
      lowvec := lowvec[lowvecIdx := t];
    }

    // `find_chgidx`
    method FindChgIdx(now: nat) returns (res: int)
      ensures -1 <= res < |chgPts| && (res == -1 <==> now !in chgPts) && (res >= 0 ==> chgPts[res] == now)
    {
      res := -1;
      for i := 0 to |chgPts|
        invariant -1 <= res < i && (res == -1 <==> now !in chgPts[..i]) && (res >= 0 ==> chgPts[res] == now)
      {
        if now == chgPts[i] {
          res := i;
        }
      }
    }

    // `find_highest`
    method FindHighest(avail: seq<int>) returns (resid: int)
      requires NONE !in avail
      ensures resid == if Highest(Order(), avail).Some? then Highest(Order(), avail).value else 0
    {
      HighestJoin(Threads(highvec), Threads(lowvec), avail);
      var found := FirstAvailable(highvec, avail);
      if found.None? {
        found := FirstAvailable(lowvec, avail);
      }
      resid := if found.Some? then found.value else 0;
    }

    // The threads with a given status, in order of id.
    method ListOf(status: Enabled) returns (list: seq<int>)
      ensures Increasing(list) && forall t :: t in list <==> 0 <= t < |enabled| && enabled[t] == status
    {
      list := [];
      for i := 0 to |enabled|
        invariant Increasing(list) && forall k :: 0 <= k < |list| ==> 0 <= list[k] < i
        invariant forall t :: t in list <==> 0 <= t < i && enabled[t] == status
      {
        if enabled[i] == status {
          list := list + [i];
        }
      }
    }

    // `select_next_thread` under PCT.  `random` is what the fuzzer draws.
    method SelectNextThread(random: nat) returns (thread: Option<int>)
      requires Valid()
      modifies this
      ensures Valid() && chgPts == old(chgPts) && schelenLimit == old(schelenLimit)
      ensures thread.Some? ==> 0 <= thread.value < |enabled| == |old(enabled)|
      // With a runnable thread: short of five times the expected length of the
      // schedule, the highest one runs, and a change point sends it to the bottom.
      ensures if exists t :: 0 <= t < |old(enabled)| && old(enabled)[t].Runnable? then
          thread.Some? && enabled == old(enabled) && enabled[thread.value].Runnable? && schelen == old(schelen) + 1
        else Order() == old(Order()) && schelen == old(schelen) && moves == old(moves)
      ensures schelen == old(schelen) + 1 < 5 * maxscheduler ==>
        && IsTop(old(enabled), old(Order()), thread.value)
        && Order() == Lowered(old(Order()), thread.value, schelen in chgPts)
      // At each multiple of that, and for good from ten multiples on, the draw
      // decides, and no priority changes; anywhere else it is as before.
      ensures schelen == old(schelen) + 1 ==>
        if schelen % (5 * maxscheduler) == 0 || schelen > 50 * maxscheduler
        then
          && livelock && Order() == old(Order()) && moves == old(moves)
          && IsDraw(old(enabled), Runnable, random, thread.value)
        else
          && livelock == old(livelock) && IsTop(old(enabled), old(Order()), thread.value)
          && Order() == Lowered(old(Order()), thread.value, schelen in chgPts)
          && moves == old(moves) + if schelen in chgPts then 1 else 0
      // With none runnable, a sleeping one is drawn and woken.
      ensures schelen == old(schelen) && thread.Some? ==> IsDraw(old(enabled), Sleeping, random, thread.value)
      ensures if exists t :: 0 <= t < |old(enabled)| && !old(enabled)[t].Disabled?
        then thread.Some? && enabled[thread.value].Runnable? && !old(enabled)[thread.value].Disabled?
          && enabled == old(enabled)[thread.value := Runnable]
        else thread.None? && enabled == old(enabled)
    {
      var avail := ListOf(Runnable);
      if avail != [] {
        assert avail[0] in avail;
        var t := PickAvailable(avail, random);
        assert enabled[t] == Runnable;
        assert enabled[t := Runnable] == enabled;
        thread := Some(t);
        return;
      }
      thread := WakeSleeper(random);
    }

    // With no thread available, one that sleeps is woken, if there is one.
    method WakeSleeper(random: nat) returns (thread: Option<int>)
      requires Valid() && forall t :: 0 <= t < |enabled| ==> !enabled[t].Runnable?
      modifies this`enabled
      ensures Valid() && |enabled| == |old(enabled)|
      ensures if exists t :: 0 <= t < |old(enabled)| && old(enabled)[t].Sleeping?
        then thread.Some? && 0 <= thread.value < |enabled| && old(enabled)[thread.value].Sleeping?
          && enabled == old(enabled)[thread.value := Runnable]
          && IsDraw(old(enabled), Sleeping, random, thread.value)
        else thread.None? && enabled == old(enabled)
    {
      var asleep := ListOf(Sleeping);
      if asleep == [] {
        thread := None;
        return;
      }
      var t := asleep[random % |asleep|];
      assert t in asleep;
      SetEnabled(t, Runnable);
      assert enabled == old(enabled)[t := Runnable];
      thread := Some(t);
    }

    method PickAvailable(avail: seq<int>, random: nat) returns (t: int)
      requires Valid() && avail != []
      requires Increasing(avail) && forall x :: x in avail <==> 0 <= x < |enabled| && enabled[x] == Runnable
      modifies this`schelen, this`livelock, this`highvec, this`lowvec, this`moves
      ensures Valid() && t in avail && schelen == old(schelen) + 1
      ensures schelen < 5 * maxscheduler ==>
        IsTop(enabled, old(Order()), t) && Order() == Lowered(old(Order()), t, schelen in chgPts)
      ensures if schelen % (5 * maxscheduler) == 0 || schelen > 50 * maxscheduler
        then
          && livelock && Order() == old(Order()) && moves == old(moves)
          && IsDraw(enabled, Runnable, random, t)
        else
          && livelock == old(livelock) && IsTop(enabled, old(Order()), t)
          && Order() == Lowered(old(Order()), t, schelen in chgPts)
          && moves == old(moves) + if schelen in chgPts then 1 else 0
    {
      BelowLimit(schelen + 1, 5 * maxscheduler);
      ReachedStep(chgPts, schelen);
      schelen := schelen + 1;
      if AtLimit(schelen) {
        livelock := true;
        t := avail[random % |avail|];
      } else {
        t := RunHighest(avail);
        LoweredDistinct(old(Order()), t);
      }
    }

    predicate AtLimit(now: nat)
      reads this`schelenLimit
      requires schelenLimit > 0
    {
      now % schelenLimit == 0 || now > 10 * schelenLimit
    }

    // The highest available thread runs, and sinks to the bottom if this is a
    // change point.
    method RunHighest(avail: seq<int>) returns (t: int)
      requires schelen > 0 && avail != [] && forall x :: x in avail ==> x in Order() && x >= 0
      requires |lowvec| == |chgPts| && Increasing(chgPts) && Distinct(Order())
      requires forall i :: 0 <= i < |lowvec| && lowvec[i] != NONE ==> chgPts[i] < schelen
      modifies this`highvec, this`lowvec, this`moves
      ensures t in avail && forall x :: x in avail ==> x == t || Above(old(Order()), t, x)
      ensures Order() == if schelen in chgPts then Without(old(Order()), t) + [t] else old(Order())
      ensures |lowvec| == |chgPts| && forall i :: 0 <= i < |lowvec| && lowvec[i] != NONE ==> chgPts[i] <= schelen
      ensures moves == old(moves) + if schelen in chgPts then 1 else 0
    {
      ghost var order := Order();
      HighestIsHighest(order, avail, avail[0]);
      t := FindHighest(avail);
      forall x | x in avail ensures x == t || Above(order, t, x) {
        HighestIsHighest(order, avail, x);
      }
      var idx := FindChgIdx(schelen);
      if idx != -1 {
        forall i | idx <= i < |lowvec| ensures lowvec[i] == NONE {
          assert i > idx ==> chgPts[idx] < chgPts[i];
        }
        MoveThread(idx, t);
        moves := moves + 1;
      }
    }
  }

  lemma BelowLimit(now: nat, limit: nat)
    requires 0 < limit
    ensures 0 < now < limit ==> now % limit != 0
  {
  }

  lemma LoweredDistinct(order: seq<int>, t: int)
    requires Distinct(order) && t in order
    ensures Distinct(Without(order, t) + [t]) && forall x :: x in Without(order, t) + [t] <==> x in order
  {
    WithoutDistinct(order, t);
    forall x ensures x in Without(order, t) <==> x in order && x != t {
      WithoutIn(order, t, x);
    }
  }

  method IndexOf(slots: seq<int>, t: int) returns (i: nat)
    ensures i <= |slots| && (i < |slots| ==> slots[i] == t) && (i == |slots| <==> t !in slots)
  {
    i := 0;
    while i < |slots| && slots[i] != t
      invariant i <= |slots| && t !in slots[..i]
    {
      i := i + 1;
    }
  }

  lemma DistinctParts(a: seq<int>, b: seq<int>, t: int)
    requires Distinct(a + b)
    ensures Distinct(a) && Distinct(b) && !(t in a && t in b)
  {
    var s := a + b;
    assert forall k :: 0 <= k < |a| ==> s[k] == a[k];
    assert forall k :: 0 <= k < |b| ==> s[|a| + k] == b[k];
  }

  lemma HighIsAbove(high: seq<int>, low: seq<int>, i: nat, t: int)
    requires i < |high| && high[i] == t && t != NONE
    ensures forall u :: u in low && u != NONE ==> Above(Threads(high) + Threads(low), t, u)
  {
    ThreadsIn(high, t);
    forall u | u in low && u != NONE ensures Above(Threads(high) + Threads(low), t, u) {
      ThreadsIn(low, u);
      RowsAbove(Threads(high), Threads(low), t, u);
    }
  }

  // The upper row has the higher priorities.
  lemma RowsAbove(high: seq<int>, low: seq<int>, t: int, u: int)
    requires t in high && u in low
    ensures Above(high + low, t, u)
  {
    var i :| 0 <= i < |high| && high[i] == t;
    var j :| 0 <= j < |low| && low[j] == u;
    assert (high + low)[i] == t && (high + low)[|high| + j] == u;
  }

  // A new slot in the upper row.
  lemma Inserted(high: seq<int>, low: seq<int>, i: nat, t: int)
    requires i <= |high| && t != NONE
    ensures var order := Threads(high) + Threads(low);
      var k := |Threads(high[..i])|;
      k <= |order| && Threads(high[..i] + [t] + high[i..]) + Threads(low) == order[..k] + [t] + order[k..]
  {
    var a, b, l := Threads(high[..i]), Threads(high[i..]), Threads(low);
    assert high == high[..i] + high[i..];
    ThreadsJoin(high[..i], high[i..]);
    ThreadsJoin(high[..i] + [t], high[i..]);
    ThreadsJoin(high[..i], [t]);
    assert Threads([t]) == [t];
    Splice(a, b, l, t);
  }

  lemma Splice(a: seq<int>, b: seq<int>, l: seq<int>, t: int)
    ensures a + [t] + b + l == (a + b + l)[..|a|] + [t] + (a + b + l)[|a|..]
  {
    assert (a + b + l)[..|a|] == a && (a + b + l)[|a|..] == b + l;
  }

  lemma InsertedDistinct(order: seq<int>, k: nat, t: int)
    requires k <= |order| && Distinct(order) && t !in order
    ensures var r := order[..k] + [t] + order[k..];
            Distinct(r) && forall x :: x in r <==> x in order || x == t
  {
    var r := order[..k] + [t] + order[k..];
    assert forall i :: 0 <= i < |r| ==> r[i] == if i < k then order[i] else if i == k then t else order[i - 1];
    assert order == order[..k] + order[k..];
  }

  // Filling a slot behind all full ones.
  lemma FilledSlot(low: seq<int>, i: nat, t: int)
    requires i < |low| && t != NONE && forall j :: i <= j < |low| ==> low[j] == NONE
    ensures Threads(low[i := t]) == Threads(low) + [t]
  {
    ThreadsSplit(low, i);
    ThreadsNone(low[i + 1..]);
    assert Threads([t]) == [t] && Threads([NONE]) == [];
    assert low[i := t] == low[i := t];
  }
}
