// The list of actions in clock order, with a trie to find where an action belongs:
// `actionlist.cc`.

module ActionList {
  import opened Options
  import opened Sequences
  import opened ActionTrie
  import opened LinkedCells

  // ---- What the list is, as a sequence ----

  ghost predicate Sorted(v: seq<Act>) {
    forall i, j :: 0 <= i < j < |v| ==> v[i].num <= v[j].num
  }

  // Behind everything with the same or a smaller number.
  function StableInsert(v: seq<Act>, a: Act): (r: seq<Act>)
    ensures |r| == |v| + 1
  {
    if v == [] then [a]
    else if v[0].num <= a.num then [v[0]] + StableInsert(v[1..], a)
    else [a] + v
  }

  // Without the last occurrence of `a`.
  function RemoveLast(v: seq<Act>, a: Act): (r: seq<Act>)
    ensures |r| <= |v|
  {
    if v == [] then []
    else
      var n := |v| - 1;
      if v[n] == a then v[..n] else RemoveLast(v[..n], a) + [v[n]]
  }

  // The actions of one number, in order.
  function Numbered(v: seq<Act>, num: nat): (r: seq<Act>)
    ensures |r| <= |v|
  {
    if v == [] then []
    else (if v[0].num == num then [v[0]] else []) + Numbered(v[1..], num)
  }

  lemma {:induction false} InsertSplit(v: seq<Act>, a: Act, p: nat)
    requires p <= |v| && (forall i :: 0 <= i < p ==> v[i].num <= a.num)
      && (forall i :: p <= i < |v| ==> v[i].num > a.num)
    ensures StableInsert(v, a) == v[..p] + [a] + v[p..]
    decreases |v|
  {
    if p > 0 {
      InsertSplit(v[1..], a, p - 1);
      assert v[1..][..p - 1] == v[1..p] && v[1..][p - 1..] == v[p..];
      assert [v[0]] + (v[1..p] + [a] + v[p..]) == v[..p] + [a] + v[p..];
    } else if v != [] {
      assert v[0].num > a.num;
    }
  }

  lemma {:induction false} RemoveSplit(v: seq<Act>, a: Act, p: nat)
    requires p < |v| && v[p] == a && forall i :: p < i < |v| ==> v[i] != a
    ensures RemoveLast(v, a) == RemoveAt(v, p)
    decreases |v|
  {
    var n := |v| - 1;
    if p < n {
      RemoveSplit(v[..n], a, p);
      assert RemoveAt(v[..n], p) + [v[n]] == RemoveAt(v, p);
    } else {
      assert RemoveAt(v, p) == v[..n];
    }
  }

  lemma {:induction false} RemoveAbsent(v: seq<Act>, a: Act)
    requires a !in v
    ensures RemoveLast(v, a) == v
  {
    if v != [] {
      RemoveAbsent(v[..|v| - 1], a);
    }
  }

  lemma {:induction false} InsertMembers(v: seq<Act>, a: Act)
    ensures multiset(StableInsert(v, a)) == multiset(v) + multiset{a}
  {
    if v != [] {
      InsertMembers(v[1..], a);
      assert v == [v[0]] + v[1..];
    }
  }

  lemma {:induction false} InsertSorted(v: seq<Act>, a: Act)
    requires Sorted(v)
    ensures Sorted(StableInsert(v, a))
  {
    if v != [] && v[0].num <= a.num {
      var r := StableInsert(v[1..], a);
      InsertSorted(v[1..], a);
      InsertMembers(v[1..], a);
      forall x | x in r ensures v[0].num <= x.num {
        assert x in multiset(r);
        assert x in v[1..] || x == a;
      }
    }
  }

  // Insertion is stable: among actions of one number, the new one comes last.
  lemma Regrouped(a: seq<Act>, b: seq<Act>, c: seq<Act>)
    ensures a + (b + c) == a + b + c
  {
  }

  lemma {:induction false} InsertStable(v: seq<Act>, a: Act, num: nat)
    requires Sorted(v)
    ensures Numbered(StableInsert(v, a), num) == Numbered(v, num) + if a.num == num then [a] else []
  {
    var mine := if a.num == num then [a] else [];
    if v == [] {
      assert StableInsert(v, a) == [a] && [a][1..] == [];
    } else if v[0].num <= a.num {
      InsertStable(v[1..], a, num);
      NumberedFirst(v[0], StableInsert(v[1..], a), num);
      Regrouped(if v[0].num == num then [v[0]] else [], Numbered(v[1..], num), mine);
    } else {
      NumberedFirst(a, v, num);
      if a.num == num {
        AboveHasNone(v, num);
      }
    }
  }

  lemma NumberedFirst(x: Act, v: seq<Act>, num: nat)
    ensures Numbered([x] + v, num) == (if x.num == num then [x] else []) + Numbered(v, num)
  {
    assert ([x] + v)[1..] == v;
  }

  // A run of insertions is a stable sort.
  function InsertAll(acts: seq<Act>): (r: seq<Act>)
    ensures |r| == |acts|
  {
    if acts == [] then [] else StableInsert(InsertAll(acts[..|acts| - 1]), acts[|acts| - 1])
  }

  lemma {:induction false} InsertAllIsStableSort(acts: seq<Act>, num: nat)
    ensures Sorted(InsertAll(acts)) && Numbered(InsertAll(acts), num) == Numbered(acts, num)
  {
    if acts != [] {
      var n := |acts| - 1;
      InsertAllIsStableSort(acts[..n], num);
      InsertSorted(InsertAll(acts[..n]), acts[n]);
      InsertStable(InsertAll(acts[..n]), acts[n], num);
      NumberedLast(acts[..n], acts[n], num);
      assert acts == acts[..n] + [acts[n]];
    }
  }

  lemma {:induction false} NumberedLast(v: seq<Act>, x: Act, num: nat)
    ensures Numbered(v + [x], num) == Numbered(v, num) + if x.num == num then [x] else []
  {
    var mine := if x.num == num then [x] else [];
    if v == [] {
      assert v + [x] == [x] + [];
      NumberedFirst(x, [], num);
    } else {
      NumberedLast(v[1..], x, num);
      NumberedFirst(v[0], v[1..] + [x], num);
      assert [v[0]] + (v[1..] + [x]) == v + [x];
      var first := if v[0].num == num then [v[0]] else [];
      assert first + (Numbered(v[1..], num) + mine) == first + Numbered(v[1..], num) + mine;
    }
  }

  lemma {:induction false} AboveHasNone(v: seq<Act>, num: nat)
    requires forall i :: 0 <= i < |v| ==> v[i].num > num
    ensures Numbered(v, num) == []
  {
    if v != [] {
      AboveHasNone(v[1..], num);
    }
  }

  // ---- The list ----

  class ActionList {
    var trie: Trie
    // The leaves: the last cell of each clock.
    var leaf: map<nat, nat>
    var cells: Cells
    var head: nat
    var tail: nat
    var size: nat
    // Allocation: cells have names below this one.
    var unused: nat
    ghost var order: seq<nat>

    ghost predicate Valid()
      reads this
    {
      && TrieOk(trie) && leaf.Keys == trie.keys
      && Linked(cells, order) && head == At(order, 0) && tail == At(order, |order| - 1) && size == |order|
      && unused > 0 && (forall x {:trigger x in cells} :: x in cells ==> x < unused)
      && LeavesOk(leaf, order, Values(cells, order))
    }

    // The actions, first to last.
    ghost function List(): seq<Act>
      requires Valid()
      reads this
    {
      Values(cells, order)
    }

    constructor ()
      ensures Valid() && List() == []
    {
      trie := Trie({}, {}, map[Node(LEVELS, 0) := 0]);
      leaf, cells, head, tail, size, unused, order := map[], map[], 0, 0, 0, 1, [];
      new;
      EmptyTrie();
    }

    method AddAction(act: Act)
      requires Valid() && Prefix(act.num, LEVELS) == 0
      modifies this
      ensures Valid() && List() == StableInsert(old(List()), act) && size == old(size) + 1
    {
      var grown, before, p := Locate(act.num);
      LeavesInsert(leaf, order, Values(cells, order), p, unused, act);
      InsertSplit(Values(cells, order), act, p);
      InsertCell(before, act, p);
      PlaceLeaf(grown, act.num);
      size := size + 1;
    }

    method InsertCell(before: nat, act: Act, ghost p: nat)
      requires Linked(cells, order) && p <= |order| && before == At(order, p - 1)
      requires head == At(order, 0) && tail == At(order, |order| - 1)
      requires unused > 0 && forall x {:trigger x in cells} :: x in cells ==> x < unused
      requires LeavesOk(leaf[act.num := unused], InsertAt(order, p, unused),
        Values(cells, order)[..p] + [act] + Values(cells, order)[p..])
      modifies this`leaf, this`cells, this`head, this`tail, this`unused, this`order
      ensures Linked(cells, order) && head == At(order, 0) && tail == At(order, |order| - 1)
        && |order| == |old(order)| + 1
      ensures unused > 0 && forall x {:trigger x in cells} :: x in cells ==> x < unused
      ensures leaf.Keys == old(leaf).Keys + {act.num} && LeavesOk(leaf, order, Values(cells, order))
      ensures Values(cells, order) == old(Values(cells, order))[..p] + [act] + old(Values(cells, order))[p..]
    {
      leaf := leaf[act.num := unused];
      InsertAfter(before, act, p);
    }

    method PlaceLeaf(grown: Trie, clock: nat)
      requires Prefix(clock, LEVELS) == 0
      requires ShapeBut(grown, clock, 1) && CountsBut(grown, Node(0, 0)) && PathNode(clock, 1) in grown.count
      modifies this`trie
      ensures TrieOk(trie) && trie.keys == grown.keys + {clock}
    {
      WithLeafOk(grown, clock);
      trie := WithLeaf(grown, clock);
    }

    // The cell to insert behind, and the trie with all nodes on the way there.
    method Locate(clock: nat) returns (grown: Trie, before: nat, ghost p: nat)
      requires Valid() && Prefix(clock, LEVELS) == 0
      ensures grown.keys == trie.keys && ShapeBut(grown, clock, 1) && CountsBut(grown, Node(0, 0))
        && PathNode(clock, 1) in grown.count
      ensures p <= |order| && before == At(order, p - 1)
      ensures var v := Values(cells, order);
        (forall i :: 0 <= i < p ==> v[i].num <= clock) && (forall i :: p <= i < |v| ==> v[i].num > clock)
    {
      grown := GrowPath(clock);
      var prev: Option<nat>;
      if clock in leaf {
        prev := Some(clock);
      } else {
        prev := FindPrev(grown, clock, 1);
      }
      assert forall k {:trigger k in leaf} :: k in leaf ==> k in trie.keys;
      p := InsertPlace(leaf, order, Values(cells, order), clock, prev);
      before := if prev.Some? then leaf[prev.value] else 0;
    }

    // The nodes on the way to the leaf of `clock`.
    method GrowPath(clock: nat) returns (t: Trie)
      requires TrieOk(trie) && Prefix(clock, LEVELS) == 0
      ensures t.keys == trie.keys && ShapeBut(t, clock, 1) && CountsBut(t, Node(0, 0)) && PathNode(clock, 1) in t.count
    {
      t := trie;
      var level := LEVELS - 1;
      ShapeForPath(t, clock);
      while level > 0
        invariant 0 <= level < LEVELS && t.keys == trie.keys && ShapeBut(t, clock, level + 1)
          && CountsBut(t, Node(0, 0))
        invariant PathNode(clock, level + 1) in t.count
      {
        PathNodeShape(t, clock, level);
        PathNodeCounts(t, clock, level);
        t := WithPathNode(t, clock, level);
        level := level - 1;
      }
    }

    // Links a new cell behind `before`, or in front if that is null.
    method InsertAfter(before: nat, act: Act, ghost p: nat)
      requires Linked(cells, order) && p <= |order| && before == At(order, p - 1)
      requires head == At(order, 0) && tail == At(order, |order| - 1)
      requires unused > 0 && forall x {:trigger x in cells} :: x in cells ==> x < unused
      modifies this`cells, this`head, this`tail, this`unused, this`order
      ensures Linked(cells, order) && order == InsertAt(old(order), p, old(unused))
      ensures Values(cells, order) == old(Values(cells, order))[..p] + [act] + old(Values(cells, order))[p..]
      ensures head == At(order, 0) && tail == At(order, |order| - 1)
      ensures unused > 0 && forall x {:trigger x in cells} :: x in cells ==> x < unused
    {
      var x := unused;
      SplicedValues(cells, order, p, x, act);
      assert p > 0 ==> CellOk(cells, order, p - 1);
      assert p < |order| ==> CellOk(cells, order, p);
      var after := if before != 0 then cells[before].next else head;
      assert after == At(order, p);
      if after == 0 {
        tail := x;
      }
      if before == 0 {
        head := x;
      }
      cells := Spliced(cells, before, x, act, after);
      order := InsertAt(order, p, x);
      unused := unused + 1;
    }

    // `isEmpty`: no children at the root.
    method IsEmpty() returns (empty: bool)
      requires Valid()
      ensures empty <==> List() == []
    {
      EmptyIffNoChildren(trie);
      empty := trie.count[Node(LEVELS, 0)] == 0;
      if List() != [] {
        assert List()[0].num in leaf;
      }
      if c :| c in leaf {
        assert LeafOk(leaf, order, List(), c);
      }
    }

    // Whether every node on the way to the leaf of `clock` is there.
    method HasPath(clock: nat) returns (found: bool)
      requires TrieOk(trie) && Prefix(clock, LEVELS) == 0
      ensures found <==> clock in trie.keys
    {
      var level := LEVELS;
      while level > 0
        invariant 0 <= level <= LEVELS
        invariant level == 0 ==> clock in trie.keys
      {
        level := level - 1;
        if !Has(trie, level, Prefix(clock, level)) {
          var n := PathNode(clock, level);
          assert !Occupied(trie, n.level, n.prefix);
          return false;
        }
      }
      found := true;
    }

    // Takes out the last occurrence of `act`, if there is one.
    method RemoveAction(act: Act)
      requires Valid() && Prefix(act.num, LEVELS) == 0
      modifies this
      ensures Valid() && List() == RemoveLast(old(List()), act) && size == |List()|
    {
      var clock := act.num;
      var found := HasPath(clock);
      if !found {
        forall i: nat | i < |List()| ensures List()[i] != act {
          assert List()[i].num in leaf;
        }
        RemoveAbsent(List(), act);
        return;
      }
      var x, isFirst, p := FindAct(act);
      if x == 0 {
        RemoveAbsent(List(), act);
        return;
      }
      RemoveSplit(List(), act, p);
      RemoveCell(x, isFirst, p);
    }

    // From the last cell of the clock backwards, the cell that holds `act`, or 0.
    method FindAct(act: Act) returns (x: nat, isFirst: bool, ghost p: nat)
      requires Valid() && act.num in leaf
      ensures x == 0 ==> act !in List()
      ensures x != 0 ==> p < |order| && order[p] == x && List()[p] == act && forall i :: p < i < |order| ==>
        List()[i] != act
      ensures x != 0 ==> (isFirst <==> x == leaf[act.num])
    {
      ghost var v := List();
      assert LeafOk(leaf, order, v, act.num);
      ghost var last: nat :| last < |order| && order[last] == leaf[act.num] && v[last].num == act.num
        && forall j :: last < j < |v| ==> v[j].num > act.num;
      x, isFirst, p := WalkBack(leaf[act.num], act, last);
    }

    // The loop over the cells of one clock.
    method WalkBack(from: nat, act: Act, ghost last: nat) returns (x: nat, isFirst: bool, ghost p: nat)
      requires Linked(cells, order) && Sorted(Values(cells, order)) && last < |order| && order[last] == from
      requires Values(cells, order)[last].num == act.num
      requires forall i :: last < i < |order| ==> Values(cells, order)[i] != act
      ensures x == 0 ==> act !in Values(cells, order)
      ensures x != 0 ==> p < |order| && order[p] == x && Values(cells, order)[p] == act && (isFirst <==> x == from)
      ensures x != 0 ==> forall i :: p < i < |order| ==> Values(cells, order)[i] != act
    {
      ghost var v := Values(cells, order);
      p := last;
      x, isFirst := from, true;
      while true
        invariant p <= last < |order| && order[p] == x && v[p].num == act.num && (isFirst <==> p == last)
        invariant forall i :: p < i < |order| ==> v[i] != act
        decreases p
      {
        assert CellOk(cells, order, p) && cells[x].val == v[p];
        if cells[x].val == act {
          return;
        }
        assert p > 0 ==> CellOk(cells, order, p - 1);
        x, isFirst := cells[x].prev, false;
        if x == 0 {
          return;
        }
        p := p - 1;
        assert CellOk(cells, order, p) && cells[x].val == v[p];
        if cells[x].val.num != act.num {
          x := 0;
          return;
        }
      }
    }

    // Unlinks the cell at place `p`.  If it was its clock's leaf, the leaf moves
    // back one cell, or goes, and empty nodes with it.
    method RemoveCell(x: nat, isLeaf: bool, ghost p: nat)
      requires Valid() && p < |order| && order[p] == x
        && (isLeaf <==> leaf.Keys >= {List()[p].num} && x == leaf[List()[p].num])
      modifies this
      ensures Valid() && List() == RemoveAt(old(List()), p) && size == old(size) - 1
    {
      ghost var v := List();
      assert CellOk(cells, order, p);
      var clock, before := cells[x].val.num, cells[x].prev;
      assert p > 0 ==> CellOk(cells, order, p - 1);
      var inList := before != 0 && cells[before].val.num == clock;
      LeavesRemove(leaf, order, v, p);
      if isLeaf {
        if inList {
          leaf := leaf[clock := before];
        } else {
          WithoutLeaf(trie, trie.(keys := trie.keys - {clock}), clock);
          var t := DecrementCount(trie.(keys := trie.keys - {clock}), clock, 1);
          trie, leaf := t, leaf - {clock};
        }
      }
      assert leaf == LeavesWithout(old(leaf), order, v, p);
      UnlinkCell(x, p);
      size := size - 1;
    }

    method UnlinkCell(x: nat, ghost p: nat)
      requires Linked(cells, order) && p < |order| && order[p] == x
      requires head == At(order, 0) && tail == At(order, |order| - 1)
      modifies this`cells, this`head, this`tail, this`order
      ensures Linked(cells, order) && order == RemoveAt(old(order), p)
      ensures Values(cells, order) == RemoveAt(old(Values(cells, order)), p)
      ensures head == At(order, 0) && tail == At(order, |order| - 1)
      ensures cells.Keys <= old(cells).Keys
    {
      UnlinkedValues(cells, order, p);
      EndsRemove(order, p);
      assert CellOk(cells, order, p);
      assert p > 0 ==> CellOk(cells, order, p - 1);
      assert p + 1 < |order| ==> CellOk(cells, order, p + 1);
      var before, after := cells[x].prev, cells[x].next;
      if before == 0 {
        head := after;
      }
      if after == 0 {
        tail := before;
      }
      cells := Unlinked(cells, x);
      order := RemoveAt(order, p);
    }
  }

  // Each leaf is the last cell of its clock, and every clock in the list has one.
  ghost predicate LeavesOk(leaf: map<nat, nat>, order: seq<nat>, v: seq<Act>) {
    && |v| == |order| && Sorted(v)
    && (forall i: nat {:trigger v[i]} :: i < |v| ==> v[i].num in leaf)
    && (forall c: nat {:trigger LeafOk(leaf, order, v, c)} :: c in leaf ==> LeafOk(leaf, order, v, c))
  }

  ghost predicate LeafOk(leaf: map<nat, nat>, order: seq<nat>, v: seq<Act>, c: nat)
    requires |v| == |order| && c in leaf
  {
    exists p: nat {:trigger order[p]} :: p < |order| && order[p] == leaf[c] && v[p].num == c
      && forall j :: p < j < |v| ==> v[j].num > c
  }

  lemma EmptyTrie()
    ensures TrieOk(Trie({}, {}, map[Node(LEVELS, 0) := 0]))
  {
    var t := Trie({}, {}, map[Node(LEVELS, 0) := 0]);
    NoChildren(t, Node(LEVELS, 0), WIDTH);
  }

  lemma ShapeForPath(t: Trie, clock: nat)
    requires Shaped(t)
    ensures ShapeBut(t, clock, LEVELS)
  {
  }

  // Where a new action goes: behind the last cell of the greatest clock that is
  // not above its own.
  lemma InsertPlace(leaf: map<nat, nat>, order: seq<nat>, v: seq<Act>, clock: nat, prev: Option<nat>) returns (p: nat)
    requires LeavesOk(leaf, order, v)
    requires prev.Some? ==> prev.value in leaf && prev.value <= clock
    requires forall k {:trigger k in leaf} :: k in leaf && k <= clock ==> prev.Some? && k <= prev.value
    ensures p <= |v| && (forall i :: 0 <= i < p ==> v[i].num <= clock)
      && (forall i :: p <= i < |v| ==> v[i].num > clock)
    ensures At(order, p - 1) == if prev.Some? then leaf[prev.value] else 0
  {
    if prev.None? {
      p := 0;
      forall i | 0 <= i < |v| ensures v[i].num > clock {
        assert v[i].num in leaf;
      }
    } else {
      assert LeafOk(leaf, order, v, prev.value);
      var q: nat :| q < |order| && order[q] == leaf[prev.value] && v[q].num == prev.value
        && forall j :: q < j < |v| ==> v[j].num > prev.value;
      p := q + 1;
      forall i | p <= i < |v| ensures v[i].num > clock {
        assert v[i].num in leaf;
      }
    }
  }

  lemma LeavesInsert(leaf: map<nat, nat>, order: seq<nat>, v: seq<Act>, p: nat, x: nat, act: Act)
    requires LeavesOk(leaf, order, v) && p <= |v|
    requires (forall i :: 0 <= i < p ==> v[i].num <= act.num) && (forall i :: p <= i < |v| ==> v[i].num > act.num)
    ensures LeavesOk(leaf[act.num := x], InsertAt(order, p, x), v[..p] + [act] + v[p..])
  {
    var leaf', order', v' := leaf[act.num := x], InsertAt(order, p, x), v[..p] + [act] + v[p..];
    assert forall i :: 0 <= i < |v'| ==> v'[i] == if i < p then v[i] else if i == p then act else v[i - 1];
    assert forall i :: 0 <= i < |order'| ==> order'[i] == if i < p then order[i] else if i == p then x
      else order[i - 1];
    forall c: nat | c in leaf' ensures LeafOk(leaf', order', v', c) {
      if c == act.num {
        assert order'[p] == leaf'[c];
      } else {
        assert LeafOk(leaf, order, v, c);
        LeafMovesOn(leaf, leaf', order, v, p, x, act, c);
      }
    }
  }

  // Another clock's last cell is where it was, or one further on.
  lemma LeafMovesOn(leaf: map<nat, nat>, leaf': map<nat, nat>, order: seq<nat>, v: seq<Act>, p: nat, x: nat,
    act: Act, c: nat)
    requires p <= |v| == |order| && c != act.num && c in leaf && LeafOk(leaf, order, v, c)
      && leaf' == leaf[act.num := x]
    requires (forall i :: 0 <= i < p ==> v[i].num <= act.num) && (forall i :: p <= i < |v| ==> v[i].num > act.num)
    ensures LeafOk(leaf', InsertAt(order, p, x), v[..p] + [act] + v[p..], c)
  {
    var order', v' := InsertAt(order, p, x), v[..p] + [act] + v[p..];
    var q: nat :| q < |order| && order[q] == leaf[c] && v[q].num == c && forall j :: q < j < |v| ==> v[j].num > c;
    assert forall i :: 0 <= i < |v'| ==> v'[i] == if i < p then v[i] else if i == p then act else v[i - 1];
    assert order'[if q < p then q else q + 1] == leaf'[c];
  }

  // The leaves after place `p` is taken out.
  ghost function LeavesWithout(leaf: map<nat, nat>, order: seq<nat>, v: seq<Act>, p: nat): map<nat, nat>
    requires p < |v| == |order|
  {
    var c := v[p].num;
    if c !in leaf || leaf[c] != order[p] then leaf
    else if p > 0 && v[p - 1].num == c then leaf[c := order[p - 1]]
    else leaf - {c}
  }

  lemma EndsRemove(order: seq<nat>, p: nat)
    requires p < |order|
    ensures var r := RemoveAt(order, p);
      && At(r, 0) == (if p == 0 then At(order, 1) else At(order, 0))
      && At(r, |r| - 1) == if p + 1 == |order| then At(order, p - 1) else At(order, |order| - 1)
  {
  }

  lemma LeavesRemove(leaf: map<nat, nat>, order: seq<nat>, v: seq<Act>, p: nat)
    requires LeavesOk(leaf, order, v) && Distinct(order) && p < |v|
    ensures LeavesOk(LeavesWithout(leaf, order, v, p), RemoveAt(order, p), RemoveAt(v, p))
  {
    var leaf', order', v' := LeavesWithout(leaf, order, v, p), RemoveAt(order, p), RemoveAt(v, p);
    Shifted(order, p);
    Shifted(v, p);
    forall i: nat | i < |v'| ensures v'[i].num in leaf' {
      var k := if i < p then i else i + 1;
      assert v[k].num in leaf;
      if v[k].num !in leaf' {
        LoneNumber(leaf, order, v, p, k);
      }
    }
    forall d: nat | d in leaf' ensures LeafOk(leaf', order', v', d) {
      LeafMoves(leaf, order, v, p, d);
    }
  }

  lemma Shifted<T>(s: seq<T>, p: nat)
    requires p < |s|
    ensures var r := RemoveAt(s, p);
      |r| == |s| - 1 && forall i {:trigger r[i]} :: 0 <= i < |r| ==> r[i] == s[if i < p then i else i + 1]
  {
  }

  // A clock that loses its leaf had no other cell.
  lemma LoneNumber(leaf: map<nat, nat>, order: seq<nat>, v: seq<Act>, p: nat, k: nat)
    requires LeavesOk(leaf, order, v) && Distinct(order) && p < |v| && k < |v| && v[k].num == v[p].num
      && v[p].num in leaf
    requires leaf[v[p].num] == order[p] && !(p > 0 && v[p - 1].num == v[p].num)
    ensures k == p
  {
    assert LeafOk(leaf, order, v, v[p].num);
  }

  // The last cell of a clock stays last when another cell goes.
  lemma OtherLeafMoves(leaf': map<nat, nat>, order: seq<nat>, v: seq<Act>, p: nat, d: nat, q: nat)
    requires p < |v| == |order| && q < |order| && q != p && d in leaf' && leaf'[d] == order[q] && v[q].num == d
    requires forall j :: q < j < |v| ==> v[j].num > d
    ensures LeafOk(leaf', RemoveAt(order, p), RemoveAt(v, p), d)
  {
    Shifted(order, p);
    Shifted(v, p);
    var q' := if q < p then q else q - 1;
    assert RemoveAt(order, p)[q'] == leaf'[d];
  }

  lemma LeafMoves(leaf: map<nat, nat>, order: seq<nat>, v: seq<Act>, p: nat, d: nat)
    requires LeavesOk(leaf, order, v) && Distinct(order) && p < |v| && d in LeavesWithout(leaf, order, v, p)
    ensures LeafOk(LeavesWithout(leaf, order, v, p), RemoveAt(order, p), RemoveAt(v, p), d)
  {
    var leaf', order', v' := LeavesWithout(leaf, order, v, p), RemoveAt(order, p), RemoveAt(v, p);
    Shifted(order, p);
    Shifted(v, p);
    assert v[p].num in leaf;
    assert LeafOk(leaf, order, v, d);
    var q: nat :| q < |order| && order[q] == leaf[d] && v[q].num == d && forall j :: q < j < |v| ==> v[j].num > d;
    if q == p {
      assert order'[p - 1] == leaf'[d];
    } else {
      OtherLeafMoves(leaf', order, v, p, d, q);
    }
  }
}
