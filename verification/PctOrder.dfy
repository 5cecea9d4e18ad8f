// Thread priorities as the scheduler lays them out: slots that hold a thread id
// or -1, in order of priority (`schedule.cc`).

module PctOrder {
  import opened Sequences

  const NONE: int := -1

  // The threads in a row of slots.
  function Threads(slots: seq<int>): (r: seq<int>)
    ensures |r| <= |slots|
  {
    if slots == [] then []
    else if slots[0] == NONE then Threads(slots[1..])
    else [slots[0]] + Threads(slots[1..])
  }

  function Without(order: seq<int>, t: int): (r: seq<int>)
    ensures |r| <= |order|
  {
    if order == [] then []
    else if order[0] == t then Without(order[1..], t)
    else [order[0]] + Without(order[1..], t)
  }

  lemma {:induction false} ThreadsIn(slots: seq<int>, t: int)
    ensures t in Threads(slots) <==> t in slots && t != NONE
  {
    if slots != [] {
      ThreadsIn(slots[1..], t);
      assert slots == [slots[0]] + slots[1..];
    }
  }

  lemma PrefixJoin(x: int, a: seq<int>, b: seq<int>)
    ensures [x] + (a + b) == [x] + a + b
  {
  }

  lemma {:induction false} ThreadsJoin(a: seq<int>, b: seq<int>)
    ensures Threads(a + b) == Threads(a) + Threads(b)
  {
    if a == [] {
      assert a + b == b;
    } else {
      var c := a + b;
      assert c[0] == a[0] && c[1..] == a[1..] + b;
      ThreadsJoin(a[1..], b);
      PrefixJoin(a[0], Threads(a[1..]), Threads(b));
    }
  }

  lemma ThreadsSplit(slots: seq<int>, i: nat)
    requires i < |slots|
    ensures Threads(slots) == Threads(slots[..i]) + Threads([slots[i]]) + Threads(slots[i + 1..])
    ensures forall x {:trigger slots[i := x]} ::
      Threads(slots[i := x]) == Threads(slots[..i]) + Threads([x]) + Threads(slots[i + 1..])
  {
    forall x ensures Threads(slots[i := x]) == Threads(slots[..i]) + Threads([x]) + Threads(slots[i + 1..]) {
      assert slots[i := x] == slots[..i] + [x] + slots[i + 1..];
      ThreadsJoin(slots[..i] + [x], slots[i + 1..]);
      ThreadsJoin(slots[..i], [x]);
    }
    assert slots[i := slots[i]] == slots;
  }

  lemma {:induction false} ThreadsNone(slots: seq<int>)
    requires forall i :: 0 <= i < |slots| ==> slots[i] == NONE
    ensures Threads(slots) == []
  {
    if slots != [] {
      ThreadsNone(slots[1..]);
    }
  }

  lemma {:induction false} WithoutJoin(a: seq<int>, b: seq<int>, t: int)
    ensures Without(a + b, t) == Without(a, t) + Without(b, t)
  {
    if a == [] {
      assert a + b == b;
    } else {
      var c := a + b;
      assert c[0] == a[0] && c[1..] == a[1..] + b;
      WithoutJoin(a[1..], b, t);
      PrefixJoin(a[0], Without(a[1..], t), Without(b, t));
    }
  }

  lemma {:induction false} WithoutAbsent(order: seq<int>, t: int)
    requires t !in order
    ensures Without(order, t) == order
  {
    if order != [] {
      WithoutAbsent(order[1..], t);
    }
  }

  // Emptying the one slot of a thread takes it out of the order.
  lemma EmptiedSlot(slots: seq<int>, i: nat)
    requires i < |slots| && slots[i] != NONE && Distinct(Threads(slots))
    ensures Threads(slots[i := NONE]) == Without(Threads(slots), slots[i])
  {
    var t, a, b := slots[i], Threads(slots[..i]), Threads(slots[i + 1..]);
    ThreadsSplit(slots, i);
    assert Threads([t]) == [t] && Threads([NONE]) == [];
    DistinctAround(a, t, b);
    WithoutJoin(a + [t], b, t);
    WithoutJoin(a, [t], t);
    WithoutAbsent(a, t);
    WithoutAbsent(b, t);
  }

  lemma DistinctAround(a: seq<int>, t: int, b: seq<int>)
    requires Distinct(a + [t] + b)
    ensures t !in a && t !in b && Distinct(a) && Distinct(b)
  {
    var s := a + [t] + b;
    assert s[|a|] == t;
    assert forall k :: 0 <= k < |a| ==> s[k] == a[k];
    assert forall k :: 0 <= k < |b| ==> s[|a| + 1 + k] == b[k];
  }

  lemma {:induction false} WithoutIn(order: seq<int>, t: int, x: int)
    ensures x in Without(order, t) <==> x in order && x != t
  {
    if order != [] {
      WithoutIn(order[1..], t, x);
      assert order == [order[0]] + order[1..];
    }
  }

  lemma {:induction false} WithoutDistinct(order: seq<int>, t: int)
    requires Distinct(order)
    ensures Distinct(Without(order, t))
  {
    if order != [] {
      var rest := Without(order[1..], t);
      WithoutDistinct(order[1..], t);
      WithoutIn(order[1..], t, order[0]);
      assert order[0] !in order[1..];
    }
  }

  // `a` has a higher priority than `b`.
  predicate Above(order: seq<int>, a: int, b: int) {
    exists i, j :: 0 <= i < j < |order| && order[i] == a && order[j] == b
  }

  // Moving a thread to the end leaves the others as they were.
  lemma {:induction false} WithoutKeepsOthers(order: seq<int>, t: int, a: int, b: int)
    requires a != t && b != t
    ensures Above(Without(order, t), a, b) <==> Above(order, a, b)
  {
    if order != [] {
      var rest := order[1..];
      WithoutKeepsOthers(rest, t, a, b);
      WithoutIn(rest, t, b);
      AboveStep(order, a, b);
      if order[0] != t {
        var w := Without(order, t);
        assert w[0] == order[0] && w[1..] == Without(rest, t);
        AboveStep(w, a, b);
      }
    }
  }

  lemma AboveStep(order: seq<int>, a: int, b: int)
    requires order != []
    ensures Above(order, a, b) <==> (order[0] == a && b in order[1..]) || Above(order[1..], a, b)
  {
    var rest := order[1..];
    assert forall k :: 0 <= k < |rest| ==> rest[k] == order[k + 1];
    if Above(order, a, b) {
      var i, j :| 0 <= i < j < |order| && order[i] == a && order[j] == b;
      assert rest[j - 1] == b;
      if i > 0 {
        assert rest[i - 1] == a;
      }
    }
    if order[0] == a && b in rest {
      var j :| 0 <= j < |rest| && rest[j] == b;
      assert order[j + 1] == b;
    }
    if Above(rest, a, b) {
      var i, j :| 0 <= i < j < |rest| && rest[i] == a && rest[j] == b;
      assert order[i + 1] == a && order[j + 1] == b;
    }
  }
}
