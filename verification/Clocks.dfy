// Vector clocks: `clockvector.cc`.
//
// A clock is a list of per-thread sequence numbers; a thread past its end has
// clock 0, as `getClock` answers.

module Clocks {
  import opened Options

  // The identity of an action: its thread and its sequence number.  The engine
  // hands out sequence numbers from one global counter that starts at 1.
  datatype Stamp = Stamp(tid: nat, num: nat)

  type Clock = seq<nat>

  function At(c: Clock, t: nat): nat {
    if t < |c| then c[t] else 0
  }

  function Max(a: nat, b: nat): nat {
    if a >= b then a else b
  }

  ghost predicate Leq(c: Clock, d: Clock) {
    forall t: nat :: At(c, t) <= At(d, t)
  }

  // The pointwise maximum, as long as the longer argument.
  function Join(c: Clock, d: Clock): (r: Clock)
    ensures forall t: nat :: At(r, t) == Max(At(c, t), At(d, t))
  {
    seq(Max(|c|, |d|), i requires 0 <= i => Max(At(c, i), At(d, i)))
  }

  // The clock of a fresh action: its parent's clock with its own entry set.
  function Stamped(parent: Clock, s: Stamp): (r: Clock)
    ensures forall t: nat :: At(r, t) == if t == s.tid then s.num else At(parent, t)
  {
    seq(Max(|parent|, s.tid + 1), i requires 0 <= i => if i == s.tid then s.num else At(parent, i))
  }

  // `act <= cv[act->tid]`, guarded by the length of the vector.
  predicate SynchronizedSince(c: Clock, s: Stamp) {
    s.tid < |c| && s.num <= c[s.tid]
  }

  lemma JoinIsLeastUpperBound(c: Clock, d: Clock, e: Clock)
    ensures Leq(c, Join(c, d)) && Leq(d, Join(c, d))
    ensures Leq(c, e) && Leq(d, e) <==> Leq(Join(c, d), e)
  {
    assert forall t: nat :: At(c, t) <= At(Join(c, d), t) && At(d, t) <= At(Join(c, d), t);
    if Leq(Join(c, d), e) {
      forall t: nat ensures At(c, t) <= At(e, t) && At(d, t) <= At(e, t) {
        assert At(Join(c, d), t) <= At(e, t);
      }
    }
  }

  // `merge`: raise each entry of `mine` to the one in `theirs`, extending it with
  // zeros first if it is shorter; reports whether any entry grew.
  method Merge(mine: Clock, theirs: Clock) returns (merged: Clock, changed: bool)
    ensures merged == Join(mine, theirs)
    ensures changed <==> !Leq(theirs, mine)
  {
    merged, changed := mine, false;
    if |theirs| > |merged| {
      merged := merged + seq(|theirs| - |merged|, i => 0);
    }
    var i := 0;
    while i < |theirs|
      invariant i <= |theirs| <= |merged| == Max(|mine|, |theirs|)
      invariant forall k :: 0 <= k < i ==> merged[k] == Max(At(mine, k), At(theirs, k))
      invariant forall k :: i <= k < |merged| ==> merged[k] == At(mine, k)
      invariant changed <==> exists k :: 0 <= k < i && At(theirs, k) > At(mine, k)
    {
      if theirs[i] > merged[i] {
        merged := merged[i := theirs[i]];
        changed := true;
      }
      i := i + 1;
    }
    assert merged == Join(mine, theirs);
  }

  // The clock-vector constructor, from an optional parent and an optional action.
  method NewClock(parent: Option<Clock>, act: Option<Stamp>) returns (c: Clock)
    ensures c ==
      var inherited := if parent.None? then [] else parent.value;
      if act.None? then inherited else Stamped(inherited, act.value)
  {
    var n := if act.None? then 0 else act.value.tid + 1;
    if parent.Some? && |parent.value| > n {
      n := |parent.value|;
    }
    c := seq(n, i => 0);
    if parent.Some? {
      c := parent.value + c[|parent.value|..];
    }
    if act.Some? {
      c := c[act.value.tid := act.value.num];
    }
  }
}
