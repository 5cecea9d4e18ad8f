// Open addressing on a ring of slots: what keeps every key findable from its
// home slot (`hashtable.h`).

module HashSlots {
  // A slot is empty when both fields are 0.
  datatype Slot = Slot(key: nat, val: nat)

  const EMPTY := Slot(0, 0)

  // `hash_function(key) & capacitymask`
  function Home(hash: nat -> nat, key: nat, n: nat): (i: nat)
    requires n > 0
    ensures i < n
  {
    hash(key) % n
  }

  // `(i + 1) & capacitymask`
  function Next(i: nat, n: nat): (j: nat)
    requires i < n
    ensures j < n
  {
    if i + 1 == n then 0 else i + 1
  }

  // `p` is passed on the way round from `a` to `b`, counting `a` but not `b`.
  predicate Passed(a: nat, p: nat, b: nat) {
    if a <= b then a <= p < b else a <= p || p < b
  }

  predicate Full(t: seq<Slot>, i: nat) {
    i < |t| && t[i].key != 0
  }

  ghost predicate NoKeyTwice(t: seq<Slot>) {
    forall i: nat, j: nat {:trigger Full(t, i), Full(t, j)} :: Full(t, i) && Full(t, j) && t[i].key == t[j].key ==>
      i == j
  }

  // Every key can be reached from its home through full slots.
  ghost predicate Reachable(t: seq<Slot>, hash: nat -> nat) {
    forall i: nat, p: nat {:trigger Full(t, i), Full(t, p)} ::
      Full(t, i) && p < |t| && Passed(Home(hash, t[i].key, |t|), p, i) ==> Full(t, p)
  }

  ghost predicate Probeable(t: seq<Slot>, hash: nat -> nat) {
    && t != [] && NoKeyTwice(t) && Reachable(t, hash)
    && forall i: nat {:trigger Full(t, i)} :: i < |t| && !Full(t, i) ==> t[i] == EMPTY
  }

  ghost predicate HasKey(t: seq<Slot>, key: nat) {
    exists i: nat {:trigger Full(t, i)} :: Full(t, i) && t[i].key == key
  }

  ghost predicate HasPair(t: seq<Slot>, key: nat, val: nat) {
    exists i: nat {:trigger Full(t, i)} :: Full(t, i) && t[i] == Slot(key, val)
  }

  // ---- Searching ----

  // The slots from the home of `key` to `i` are full and hold other keys.
  ghost predicate Probed(t: seq<Slot>, hash: nat -> nat, key: nat, i: nat) {
    i < |t| && forall p: nat {:trigger Full(t, p)} :: p < |t| && Passed(Home(hash, key, |t|), p, i) ==>
      Full(t, p) && t[p].key != key
  }

  lemma ProbedNext(t: seq<Slot>, hash: nat -> nat, key: nat, i: nat)
    requires Probed(t, hash, key, i) && Full(t, i) && t[i].key != key && Next(i, |t|) != Home(hash, key, |t|)
    ensures Probed(t, hash, key, Next(i, |t|))
  {
  }

  // A full round meets every slot, so the next slot is home only when all are
  // full.
  lemma ProbeEnds(t: seq<Slot>, hash: nat -> nat, key: nat, i: nat, e: nat)
    requires Probed(t, hash, key, i) && Full(t, i) && e < |t| && !Full(t, e)
    ensures Next(i, |t|) != Home(hash, key, |t|)
    ensures !Passed(Home(hash, key, |t|), e, Next(i, |t|))
  {
  }

  // An empty slot on the way means the key is not in the table.
  lemma ProbeMisses(t: seq<Slot>, hash: nat -> nat, key: nat, i: nat)
    requires Probeable(t, hash) && Probed(t, hash, key, i) && !Full(t, i)
    ensures !HasKey(t, key)
  {
    forall j: nat | Full(t, j) ensures t[j].key != key {
      assert Passed(Home(hash, key, |t|), j, i) || j == i || Passed(Home(hash, key, |t|), i, j);
    }
  }

  // And is the place to put it.
  lemma PlaceThere(t: seq<Slot>, hash: nat -> nat, key: nat, val: nat, i: nat)
    requires Probeable(t, hash) && Probed(t, hash, key, i) && !Full(t, i) && key != 0
    ensures Probeable(t[i := Slot(key, val)], hash)
    ensures forall k, v {:trigger HasPair(t[i := Slot(key, val)], k, v)} ::
      HasPair(t[i := Slot(key, val)], k, v) <==> HasPair(t, k, v) || (k == key && v == val)
  {
    ProbeMisses(t, hash, key, i);
    var t' := t[i := Slot(key, val)];
    forall j: nat ensures Full(t', j) <==> Full(t, j) || j == i {
    }
    PairsPlaced(t, i, key, val);
  }

  lemma PairsPlaced(t: seq<Slot>, i: nat, key: nat, val: nat)
    requires i < |t| && !Full(t, i) && key != 0
    ensures forall k, v {:trigger HasPair(t[i := Slot(key, val)], k, v)} ::
      HasPair(t[i := Slot(key, val)], k, v) <==> HasPair(t, k, v) || (k == key && v == val)
  {
    var t' := t[i := Slot(key, val)];
    forall k, v ensures HasPair(t', k, v) <==> HasPair(t, k, v) || (k == key && v == val) {
      if HasPair(t, k, v) {
        var j: nat :| Full(t, j) && t[j] == Slot(k, v);
        assert Full(t', j);
      }
      if HasPair(t', k, v) {
        var j: nat :| Full(t', j) && t'[j] == Slot(k, v);
        assert j != i ==> Full(t, j);
      }
      assert Full(t', i);
    }
  }

  // Overwriting the value of a key.
  lemma Overwrite(t: seq<Slot>, hash: nat -> nat, i: nat, val: nat)
    requires Probeable(t, hash) && Full(t, i)
    ensures Probeable(t[i := t[i].(val := val)], hash)
    ensures forall k, v {:trigger HasPair(t[i := t[i].(val := val)], k, v)} ::
      HasPair(t[i := t[i].(val := val)], k, v) <==> (k != t[i].key && HasPair(t, k, v)) || (k == t[i].key && v == val)
  {
    var t' := t[i := t[i].(val := val)];
    forall j: nat ensures Full(t', j) <==> Full(t, j) {
    }
    forall k, v ensures HasPair(t', k, v) <==> (k != t[i].key && HasPair(t, k, v)) || (k == t[i].key && v == val) {
      if HasPair(t, k, v) {
        var j: nat :| Full(t, j) && t[j] == Slot(k, v);
        assert Full(t', j);
      }
      assert Full(t', i);
      if HasPair(t', k, v) {
        var j: nat :| Full(t', j) && t'[j] == Slot(k, v);
        assert Full(t, j);
      }
    }
  }

  // ---- Backward-shift deletion ----

  // Keys are reachable if the hole counts as full.
  ghost predicate ReachableBut(t: seq<Slot>, hash: nat -> nat, hole: nat) {
    forall i: nat, p: nat {:trigger Full(t, i), Full(t, p)} ::
      Full(t, i) && p < |t| && p != hole && Passed(Home(hash, t[i].key, |t|), p, i) ==> Full(t, p)
  }

  // The slots strictly between the hole and `j` are full, and none of them holds
  // a key that is looked for through the hole.
  ghost predicate Settled(t: seq<Slot>, hash: nat -> nat, hole: nat, j: nat) {
    hole < |t| && forall q: nat {:trigger Full(t, q)} :: q < |t| && q != hole && Passed(hole, q, j) ==>
      Full(t, q) && !Passed(Home(hash, t[q].key, |t|), hole, q)
  }

  ghost predicate Shifting(t: seq<Slot>, hash: nat -> nat, hole: nat, j: nat) {
    && hole < |t| && j < |t| && t[hole] == EMPTY && NoKeyTwice(t)
    && ReachableBut(t, hash, hole) && Settled(t, hash, hole, j)
    && forall i: nat {:trigger Full(t, i)} :: i < |t| && !Full(t, i) ==> t[i] == EMPTY
  }

  // The code's test for a key that may stay at `j`.
  predicate Stays(index: nat, j: nat, home: nat) {
    (index <= j && index < home && home <= j) || (index > j && (index < home || home <= j))
  }

  lemma StaysIff(index: nat, j: nat, home: nat, n: nat)
    requires index < n && j < n && home < n && index != j
    ensures Stays(index, j, home) <==> !Passed(home, index, j)
  {
  }

  lemma ShiftingStarts(t: seq<Slot>, hash: nat -> nat, i: nat)
    requires Probeable(t, hash) && Full(t, i)
    ensures Shifting(t[i := EMPTY], hash, i, i)
  {
    var t' := t[i := EMPTY];
    forall j: nat ensures Full(t', j) <==> Full(t, j) && j != i {
    }
  }

  // A settled key is passed over.
  lemma ShiftingPasses(t: seq<Slot>, hash: nat -> nat, hole: nat, j: nat)
    requires Shifting(t, hash, hole, j) && j != hole && Full(t, j) && Stays(hole, j, Home(hash, t[j].key, |t|))
    requires Next(j, |t|) != hole
    ensures Shifting(t, hash, hole, Next(j, |t|))
  {
    StaysIff(hole, j, Home(hash, t[j].key, |t|), |t|);
  }

  // One that is not moves into the hole, and leaves a hole behind.
  lemma ShiftingMoves(t: seq<Slot>, hash: nat -> nat, hole: nat, j: nat)
    requires Shifting(t, hash, hole, j) && j != hole && Full(t, j) && !Stays(hole, j, Home(hash, t[j].key, |t|))
    ensures Shifting(t[hole := t[j]][j := EMPTY], hash, j, j)
  {
    StaysIff(hole, j, Home(hash, t[j].key, |t|), |t|);
    var t' := t[hole := t[j]][j := EMPTY];
    forall i: nat ensures Full(t', i) <==> (Full(t, i) && i != j) || i == hole {
    }
    forall i: nat, p: nat | Full(t', i) && p < |t| && p != j && Passed(Home(hash, t'[i].key, |t|), p, i)
      ensures Full(t', p) {
      if p != hole {
        if i == hole {
          assert Full(t, j) && Passed(Home(hash, t[j].key, |t|), p, j);
        } else {
          assert Full(t, i);
        }
        assert Full(t, p);
      }
    }
    assert NoKeyTwice(t') by {
      forall a: nat, b: nat | Full(t', a) && Full(t', b) && t'[a].key == t'[b].key ensures a == b {
        assert Full(t, if a == hole then j else a) && Full(t, if b == hole then j else b);
      }
    }
  }

  // At an empty slot nothing is looked for through the hole any more.
  lemma ShiftingEnds(t: seq<Slot>, hash: nat -> nat, hole: nat, j: nat)
    requires Shifting(t, hash, hole, j) && j != hole && !Full(t, j)
    ensures Probeable(t, hash)
  {
    forall i: nat | Full(t, i) ensures !Passed(Home(hash, t[i].key, |t|), hole, i) {
      if Passed(Home(hash, t[i].key, |t|), hole, i) {
        assert !Passed(Home(hash, t[i].key, |t|), j, i);
        assert Passed(hole, i, j);
      }
    }
  }

  lemma PairsMoved(t: seq<Slot>, hole: nat, j: nat, k: nat, v: nat)
    requires hole < |t| && t[hole] == EMPTY && Full(t, j) && j != hole
    ensures HasPair(t[hole := t[j]][j := EMPTY], k, v) <==> HasPair(t, k, v)
  {
    var t' := t[hole := t[j]][j := EMPTY];
    if HasPair(t, k, v) {
      var i: nat :| Full(t, i) && t[i] == Slot(k, v);
      assert Full(t', if i == j then hole else i);
    }
    if HasPair(t', k, v) {
      var i: nat :| Full(t', i) && t'[i] == Slot(k, v);
      assert Full(t, if i == hole then j else i);
    }
  }

  // ---- Counting ----

  function Count(t: seq<Slot>, n: nat): (c: nat)
    requires n <= |t|
    ensures c <= n
  {
    if n == 0 then 0 else Count(t, n - 1) + if Full(t, n - 1) then 1 else 0
  }

  lemma {:induction false} CountUpdate(t: seq<Slot>, i: nat, s: Slot, n: nat)
    requires i < |t| && n <= |t|
    ensures Count(t[i := s], n) == Count(t, n)
      + if i < n then (if s.key != 0 then 1 else 0) - (if Full(t, i) then 1 else 0) else 0
  {
    if n > 0 {
      CountUpdate(t, i, s, n - 1);
    }
  }

  lemma {:induction false} SomeSlotEmpty(t: seq<Slot>, n: nat) returns (e: nat)
    requires n <= |t| && Count(t, n) < n
    ensures e < n && !Full(t, e)
  {
    if Full(t, n - 1) {
      e := SomeSlotEmpty(t, n - 1);
    } else {
      e := n - 1;
    }
  }
}
