// The hash table every index of the engine is built on, as a finite map:
// `hashtable.h`.  Key 0 lives apart from the slots.

module HashTable {
  import opened Options
  import opened HashSlots

  class HashTable {
    const hash: nat -> nat
    const loadfactor: real
    var table: array<Slot>
    var zero: Option<nat>
    var capacity: nat
    var size: nat
    var threshold: nat
    ghost var contents: map<nat, nat>

    ghost predicate Valid()
      reads this, table
    {
      && table.Length == capacity && Sized(capacity, threshold, loadfactor)
      && Probeable(table[..], hash) && Count(table[..], capacity) < capacity
      && size == Count(table[..], capacity) + (if zero.Some? then 1 else 0)
      && Represents(table[..], zero, contents)
    }

    constructor (initialcapacity: nat, factor: real, hash: nat -> nat)
      requires Sized(initialcapacity, Threshold(initialcapacity, factor), factor)
      ensures Valid() && fresh(table) && contents == map[]
      ensures capacity == initialcapacity && loadfactor == factor && this.hash == hash
    {
      table := new Slot[initialcapacity](i => EMPTY);
      zero := None;
      loadfactor := factor;
      capacity := initialcapacity;
      threshold := Threshold(initialcapacity, factor);
      size := 0;
      this.hash := hash;
      contents := map[];
      new;
      CountEmpty(table[..], capacity);
    }

    // The probe loop of `put`, `get`, `contains` and `remove`: round the ring from
    // the key's home to the key or to an empty slot.  There always is one, so it
    // never comes round to where it began.
    method Probe(key: nat) returns (index: nat)
      requires Valid() && key != 0
      ensures index < capacity && Probed(table[..], hash, key, index)
      ensures !Full(table[..], index) || table[index].key == key
    {
      ghost var t := table[..];
      ghost var e := SomeSlotEmpty(t, capacity);
      index := Home(hash, key, capacity);
      while table[index].key != 0 && table[index].key != key
        invariant Probed(t, hash, key, index) && !Passed(Home(hash, key, capacity), e, index)
        decreases if index <= e then e - index else e + capacity - index
      {
        assert Full(t, index);
        ProbeEnds(t, hash, key, index, e);
        ProbedNext(t, hash, key, index);
        index := Next(index, capacity);
      }
    }

    method Get(key: nat) returns (val: nat)
      requires Valid()
      ensures val == if key in contents then contents[key] else 0
    {
      if key == 0 {
        val := if zero.Some? then zero.value else 0;
        return;
      }
      var index := Probe(key);
      ProbeTells(table[..], hash, key, index, zero, contents);
      val := if table[index].key == key then table[index].val else 0;
    }

    method Contains(key: nat) returns (found: bool)
      requires Valid()
      ensures found <==> key in contents
    {
      if key == 0 {
        found := zero.Some?;
        return;
      }
      var index := Probe(key);
      ProbeTells(table[..], hash, key, index, zero, contents);
      found := table[index].key == key;
    }

    method Put(key: nat, val: nat)
      requires Valid()
      modifies this, table
      ensures Valid() && (table == old(table) || fresh(table))
      ensures contents == old(contents)[key := val]
      // With too many keys before, the table has grown to twice its size.
      ensures capacity == if key != 0 && old(size) > old(threshold) then 2 * old(capacity) else old(capacity)
    {
      if key == 0 {
        size := if zero.None? then size + 1 else size;
        zero := Some(val);
        contents := contents[0 := val];
        return;
      }
      EnsureRoom();
      PutThere(key, val);
    }

    method EnsureRoom()
      requires Valid()
      modifies this`table, this`capacity, this`threshold
      ensures Valid() && (table == old(table) || fresh(table)) && contents == old(contents)
      ensures Count(table[..], capacity) + 1 < capacity
      ensures capacity == if size > old(threshold) then 2 * old(capacity) else old(capacity)
    {
      if size > threshold {
        DoubleIsSized(capacity, threshold, loadfactor);
        Resize(2 * capacity);
      }
    }

    // The rest of `put`, once there is room.
    method PutThere(key: nat, val: nat)
      requires Valid() && key != 0 && Count(table[..], capacity) + 1 < capacity
      modifies this`size, this`contents, table
      ensures Valid() && contents == old(contents)[key := val]
    {
      var index := Probe(key);
      ghost var t := table[..];
      if table[index].key == key {
        assert Full(t, index);
        Overwrite(t, hash, index, val);
        CountUpdate(t, index, t[index].(val := val), capacity);
        table[index] := table[index].(val := val);
        assert table[..] == t[index := t[index].(val := val)];
      } else {
        PlaceThere(t, hash, key, val, index);
        CountUpdate(t, index, Slot(key, val), capacity);
        ProbeMisses(t, hash, key, index);
        table[index] := Slot(key, val);
        size := size + 1;
        assert table[..] == t[index := Slot(key, val)];
      }
      contents := contents[key := val];
    }

    method Remove(key: nat) returns (val: nat)
      requires Valid()
      modifies this, table
      ensures Valid() && table == old(table)
      ensures val == if key in old(contents) then old(contents)[key] else 0
      ensures contents == old(contents) - {key}
    {
      if key == 0 {
        val := RemoveZero();
        return;
      }
      var index := Probe(key);
      ProbeTells(table[..], hash, key, index, zero, contents);
      val := 0;
      if table[index].key == key {
        val := table[index].val;
        ShiftBack(index);
        size := size - 1;
        contents := contents - {key};
      }
    }

    // Key 0 has a place of its own.
    method RemoveZero() returns (val: nat)
      requires Valid()
      modifies this`size, this`zero, this`contents
      ensures Valid()
      ensures val == if 0 in old(contents) then old(contents)[0] else 0
      ensures contents == old(contents) - {0}
    {
      val := if zero.Some? then zero.value else 0;
      size := if zero.Some? then size - 1 else size;
      zero := None;
      contents := contents - {0};
    }

    // Empties slot `at`, and keeps every other key reachable by moving keys back
    // into the hole until an empty slot follows it.
    method ShiftBack(at: nat)
      requires table.Length == capacity && Probeable(table[..], hash) && Full(table[..], at)
      requires Count(table[..], capacity) < capacity
      modifies table
      ensures Probeable(table[..], hash)
      ensures Count(table[..], capacity) == old(Count(table[..], capacity)) - 1
      ensures var key := old(table[at].key);
        forall k, v {:trigger HasPair(table[..], k, v)} :: HasPair(table[..], k, v) <==>
          k != key && old(HasPair(table[..], k, v))
    {
      ghost var was := table[..];
      ghost var e := SomeSlotEmpty(was, capacity);
      ShiftingStarts(was, hash, at);
      PairsEmptied(was, at);
      CountUpdate(was, at, EMPTY, capacity);
      table[at] := EMPTY;
      assert table[..] == was[at := EMPTY];
      CloseHole(at, e);
    }

    // Runs on to the empty slot `e` at the latest.
    method CloseHole(at: nat, ghost e: nat)
      requires table.Length == capacity && Shifting(table[..], hash, at, at)
      requires e < capacity && e != at && !Full(table[..], e)
      modifies table
      ensures Probeable(table[..], hash) && SamePairs(table[..], old(table[..]))
      ensures Count(table[..], capacity) == old(Count(table[..], capacity))
    {
      var index: nat, j: nat := at, Next(at, capacity);
      while table[j].key != 0
        invariant index < capacity && j < capacity && index != j
        invariant Shifting(table[..], hash, index, j)
        invariant !Full(table[..], e) && e != index && !Passed(index, e, j)
        invariant Count(table[..], capacity) == old(Count(table[..], capacity))
        invariant SamePairs(table[..], old(table[..]))
        decreases if j <= e then e - j else e + capacity - j
      {
        assert Full(table[..], j);
        if Stays(index, j, Home(hash, table[j].key, capacity)) {
          ShiftingPasses(table[..], hash, index, j);
        } else {
          MoveBack(index, j);
          index := j;
        }
        j := Next(j, capacity);
      }
      ShiftingEnds(table[..], hash, index, j);
    }

    // Moves the key at `j` into the hole.
    method MoveBack(hole: nat, j: nat)
      requires table.Length == capacity && Shifting(table[..], hash, hole, j) && j != hole && Full(table[..], j)
      requires !Stays(hole, j, Home(hash, table[j].key, capacity))
      modifies table
      ensures Shifting(table[..], hash, j, j) && SamePairs(table[..], old(table[..]))
      ensures Count(table[..], capacity) == old(Count(table[..], capacity))
      ensures forall i {:trigger table[i]} :: 0 <= i < capacity && i != hole && i != j ==> table[i] == old(table[i])
    {
      ghost var t := table[..];
      ShiftingMoves(t, hash, hole, j);
      forall k, v ensures HasPair(t[hole := t[j]][j := EMPTY], k, v) <==> HasPair(t, k, v) {
        PairsMoved(t, hole, j, k, v);
      }
      CountUpdate(t, hole, t[j], capacity);
      CountUpdate(t[hole := t[j]], j, EMPTY, capacity);
      table[hole] := table[j];
      table[j] := EMPTY;
      assert table[..] == t[hole := t[j]][j := EMPTY];
    }

    method Resize(newsize: nat)
      requires Valid() && capacity < newsize && Sized(newsize, Threshold(newsize, loadfactor), loadfactor)
      modifies this`table, this`capacity, this`threshold
      ensures Valid() && fresh(table) && capacity == newsize && contents == old(contents)
      ensures Count(table[..], capacity) == old(Count(table[..], capacity))
    {
      var oldtable, oldcapacity := table, capacity;
      var newtable := new Slot[newsize](i => EMPTY);
      ghost var was := oldtable[..];
      CountEmpty(newtable[..], newsize);
      var bin := 0;
      while bin < oldcapacity
        invariant bin <= oldcapacity && fresh(newtable) && was == oldtable[..]
        invariant Copied(was, bin, newtable[..], hash)
        invariant Count(newtable[..], newsize) == Count(was, bin)
      {
        if oldtable[bin].key != 0 {
          assert Full(was, bin);
          Reinsert(newtable, was, bin, oldtable[bin]);
        } else {
          NotCopied(was, bin, newtable[..], hash);
        }
        bin := bin + 1;
      }
      table := newtable;
      capacity := newsize;
      threshold := Threshold(newsize, loadfactor);
      CopiedAll(was, table[..], hash);
    }

    // One bin of the old table, probed into the new.
    method Reinsert(newtable: array<Slot>, ghost was: seq<Slot>, bin: nat, slot: Slot)
      requires Copied(was, bin, newtable[..], hash) && NoKeyTwice(was) && Full(was, bin) && slot == was[bin]
      requires Count(newtable[..], newtable.Length) < newtable.Length
      modifies newtable
      ensures Copied(was, bin + 1, newtable[..], hash)
      ensures Count(newtable[..], newtable.Length) == old(Count(newtable[..], newtable.Length)) + 1
    {
      ghost var t := newtable[..];
      ghost var e := SomeSlotEmpty(t, |t|);
      var index: nat := Home(hash, slot.key, newtable.Length);
      while newtable[index].key != 0
        invariant newtable[..] == t && index < |t|
        invariant Probed(t, hash, slot.key, index) && !Passed(Home(hash, slot.key, |t|), e, index)
        decreases if index <= e then e - index else e + |t| - index
      {
        NotYetCopied(was, bin, t, hash, index);
        ProbeEnds(t, hash, slot.key, index, e);
        ProbedNext(t, hash, slot.key, index);
        index := Next(index, newtable.Length);
      }
      PlaceThere(t, hash, slot.key, slot.val, index);
      CountUpdate(t, index, slot, |t|);
      newtable[index] := slot;
      assert newtable[..] == t[index := slot];
      CopiedOne(was, bin, t, newtable[..], hash);
    }
  }

  // `n * x`, by addition.
  function Times(n: nat, x: real): real {
    if n == 0 then 0.0 else x + Times(n - 1, x)
  }

  lemma {:induction false} TimesIsProduct(n: nat, x: real)
    ensures Times(n, x) == n as real * x
  {
    if n > 0 {
      TimesIsProduct(n - 1, x);
      assert n as real * x == (n - 1) as real * x + x;
    }
  }

  lemma {:induction false} TimesAdd(m: nat, n: nat, x: real)
    ensures Times(m + n, x) == Times(m, x) + Times(n, x)
  {
    if m > 0 {
      TimesAdd(m - 1, n, x);
    }
  }

  function Threshold(capacity: nat, loadfactor: real): int {
    Times(capacity, loadfactor).Floor
  }

  // The table may grow to one entry above the threshold and still has room.
  predicate Sized(capacity: nat, threshold: int, loadfactor: real) {
    0.0 < loadfactor < 1.0 && threshold == Threshold(capacity, loadfactor) && 0 <= threshold && threshold + 1 < capacity
  }

  lemma DoubleIsSized(capacity: nat, threshold: nat, loadfactor: real)
    requires Sized(capacity, threshold, loadfactor)
    ensures Sized(2 * capacity, Threshold(2 * capacity, loadfactor), loadfactor)
  {
    TimesAdd(capacity, capacity, loadfactor);
    var x := Times(capacity, loadfactor);
    assert x < (threshold + 1) as real;
  }

  ghost predicate SamePairs(t: seq<Slot>, u: seq<Slot>) {
    forall k, v {:trigger HasPair(t, k, v)} :: HasPair(t, k, v) <==> HasPair(u, k, v)
  }

  // The map a table stands for.
  ghost predicate Represents(t: seq<Slot>, zero: Option<nat>, m: map<nat, nat>) {
    && (0 in m <==> zero.Some?) && (zero.Some? ==> m[0] == zero.value)
    && (forall k {:trigger k in m} :: k in m && k != 0 ==> HasPair(t, k, m[k]))
    && (forall k, v {:trigger HasPair(t, k, v)} :: HasPair(t, k, v) ==> k != 0 && k in m && m[k] == v)
  }

  lemma ProbeTells(t: seq<Slot>, hash: nat -> nat, key: nat, i: nat, zero: Option<nat>, m: map<nat, nat>)
    requires Probeable(t, hash) && Represents(t, zero, m) && key != 0
    requires Probed(t, hash, key, i) && (!Full(t, i) || t[i].key == key)
    ensures if Full(t, i) then key in m && m[key] == t[i].val else key !in m
  {
    if Full(t, i) {
      assert HasPair(t, key, t[i].val);
    } else {
      ProbeMisses(t, hash, key, i);
    }
  }

  lemma PairsEmptied(t: seq<Slot>, i: nat)
    requires NoKeyTwice(t) && Full(t, i)
    ensures forall k, v {:trigger HasPair(t[i := EMPTY], k, v)} ::
      HasPair(t[i := EMPTY], k, v) <==> k != t[i].key && HasPair(t, k, v)
  {
    var t' := t[i := EMPTY];
    forall k, v ensures HasPair(t', k, v) <==> k != t[i].key && HasPair(t, k, v) {
      if HasPair(t', k, v) {
        var j: nat :| Full(t', j) && t'[j] == Slot(k, v);
        assert Full(t, j);
      }
      if k != t[i].key && HasPair(t, k, v) {
        var j: nat :| Full(t, j) && t[j] == Slot(k, v);
        assert Full(t', j);
      }
    }
  }

  lemma {:induction false} CountEmpty(t: seq<Slot>, n: nat)
    requires n <= |t| && forall i :: 0 <= i < |t| ==> t[i] == EMPTY
    ensures Count(t, n) == 0
  {
    if n > 0 {
      CountEmpty(t, n - 1);
    }
  }

  // The first `bin` slots of `was` have been moved to `t`.
  ghost predicate Copied(was: seq<Slot>, bin: nat, t: seq<Slot>, hash: nat -> nat) {
    && bin <= |was| && Probeable(t, hash)
    && forall k, v {:trigger HasPair(t, k, v)} :: HasPair(t, k, v) <==> HasPair(was[..bin], k, v)
  }

  // No key of the new table is the next to be moved.
  lemma NotYetCopied(was: seq<Slot>, bin: nat, t: seq<Slot>, hash: nat -> nat, i: nat)
    requires Copied(was, bin, t, hash) && NoKeyTwice(was) && Full(was, bin) && Full(t, i)
    ensures t[i].key != was[bin].key
  {
    assert HasPair(t, t[i].key, t[i].val);
    var j: nat :| Full(was[..bin], j) && was[..bin][j] == t[i];
    assert Full(was, j);
  }

  lemma PairsOfNext(was: seq<Slot>, bin: nat, k: nat, v: nat)
    requires bin < |was|
    ensures HasPair(was[..bin + 1], k, v) <==> HasPair(was[..bin], k, v) || (Full(was, bin) && was[bin] == Slot(k, v))
  {
    if HasPair(was[..bin], k, v) {
      var j: nat :| Full(was[..bin], j) && was[..bin][j] == Slot(k, v);
      assert Full(was[..bin + 1], j);
    }
    if HasPair(was[..bin + 1], k, v) {
      var j: nat :| Full(was[..bin + 1], j) && was[..bin + 1][j] == Slot(k, v);
      assert j < bin ==> Full(was[..bin], j);
    }
    if Full(was, bin) {
      assert Full(was[..bin + 1], bin);
    }
  }

  lemma CopiedOne(was: seq<Slot>, bin: nat, t: seq<Slot>, t': seq<Slot>, hash: nat -> nat)
    requires Copied(was, bin, t, hash) && Full(was, bin) && Probeable(t', hash)
    requires forall k, v {:trigger HasPair(t', k, v)} :: HasPair(t', k, v) <==>
      HasPair(t, k, v) || Slot(k, v) == was[bin]
    ensures Copied(was, bin + 1, t', hash)
  {
    forall k, v ensures HasPair(t', k, v) <==> HasPair(was[..bin + 1], k, v) {
      PairsOfNext(was, bin, k, v);
      assert HasPair(t, k, v) <==> HasPair(was[..bin], k, v);
    }
  }

  lemma NotCopied(was: seq<Slot>, bin: nat, t: seq<Slot>, hash: nat -> nat)
    requires Copied(was, bin, t, hash) && bin < |was| && !Full(was, bin)
    ensures Copied(was, bin + 1, t, hash)
  {
    forall k, v ensures HasPair(t, k, v) <==> HasPair(was[..bin + 1], k, v) {
      PairsOfNext(was, bin, k, v);
      assert HasPair(t, k, v) <==> HasPair(was[..bin], k, v);
    }
  }

  lemma CopiedAll(was: seq<Slot>, t: seq<Slot>, hash: nat -> nat)
    requires Copied(was, |was|, t, hash)
    ensures forall k, v {:trigger HasPair(t, k, v)} :: HasPair(t, k, v) <==> HasPair(was, k, v)
  {
    assert was[..|was|] == was;
  }
}
