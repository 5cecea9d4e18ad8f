// A doubly linked list in a table of cells (`sllnode`), and what splicing and
// unlinking do to it.

module LinkedCells {
  import opened Sequences

  // An action: its sequence number and its identity.
  datatype Act = Act(num: nat, id: nat)

  // Cells are named by positive numbers; 0 is the null pointer.
  datatype Cell = Cell(val: Act, prev: nat, next: nat)

  type Cells = map<nat, Cell>

  function At(order: seq<nat>, i: int): nat {
    if 0 <= i < |order| then order[i] else 0
  }

  ghost predicate CellOk(cells: Cells, order: seq<nat>, i: nat)
    requires i < |order|
  {
    && order[i] > 0 && order[i] in cells
    && cells[order[i]].prev == At(order, i - 1) && cells[order[i]].next == At(order, i + 1)
  }

  // Read forward from the first cell or backward from the last, the cells come
  // in this order.
  ghost predicate Linked(cells: Cells, order: seq<nat>) {
    && Distinct(order)
    && (forall i: nat {:trigger CellOk(cells, order, i)} :: i < |order| ==> CellOk(cells, order, i))
    && forall x {:trigger x in cells} :: x in cells ==> x in order
  }

  // A new cell between `before` and `after`, either of which may be null.
  function Spliced(cells: Cells, before: nat, x: nat, val: Act, after: nat): Cells
    requires (before != 0 ==> before in cells) && (after != 0 ==> after in cells)
  {
    var c := cells[x := Cell(val, before, after)];
    var c1 := if before != 0 then c[before := c[before].(next := x)] else c;
    if after != 0 then c1[after := c1[after].(prev := x)] else c1
  }

  function InsertAt(order: seq<nat>, p: nat, x: nat): seq<nat>
    requires p <= |order|
  {
    order[..p] + [x] + order[p..]
  }

  lemma InsertDistinct(order: seq<nat>, p: nat, x: nat)
    requires Distinct(order) && p <= |order| && x !in order
    ensures Distinct(InsertAt(order, p, x))
  {
    var order' := InsertAt(order, p, x);
    assert forall j :: 0 <= j < |order'| ==> order'[j] == if j < p then order[j] else if j == p then x
      else order[j - 1];
  }

  lemma RemoveDistinct(order: seq<nat>, p: nat)
    requires Distinct(order) && p < |order|
    ensures Distinct(RemoveAt(order, p)) && order[p] !in RemoveAt(order, p)
  {
    var order' := RemoveAt(order, p);
    assert forall j :: 0 <= j < |order'| ==> order'[j] == if j < p then order[j] else order[j + 1];
  }

  lemma SplicedLinked(cells: Cells, order: seq<nat>, p: nat, x: nat, val: Act)
    requires Linked(cells, order) && p <= |order| && x > 0 && x !in cells
    ensures var before, after := At(order, p - 1), At(order, p);
      && (before != 0 ==> before in cells) && (after != 0 ==> after in cells)
      && Linked(Spliced(cells, before, x, val, after), InsertAt(order, p, x))
  {
    var before, after := At(order, p - 1), At(order, p);
    assert p > 0 ==> CellOk(cells, order, p - 1);
    assert p < |order| ==> CellOk(cells, order, p);
    var cells', order' := Spliced(cells, before, x, val, after), InsertAt(order, p, x);
    forall j: nat | j < |order| ensures order[j] != x {
      assert CellOk(cells, order, j);
    }
    InsertDistinct(order, p, x);
    forall i: nat | i < |order'| ensures CellOk(cells', order', i) {
      SplicedCell(cells, order, p, x, val, i);
    }
    forall y | y in cells' ensures y in order' {
      if y == x {
        assert order'[p] == x;
      } else {
        assert y in cells && y in order;
        var k :| 0 <= k < |order| && order[k] == y;
        assert order'[if k < p then k else k + 1] == y;
      }
    }
  }

  lemma SplicedCell(cells: Cells, order: seq<nat>, p: nat, x: nat, val: Act, i: nat)
    requires Linked(cells, order) && p <= |order| && x > 0 && x !in cells && i <= |order|
    ensures var before, after := At(order, p - 1), At(order, p);
      && (before != 0 ==> before in cells) && (after != 0 ==> after in cells)
      && CellOk(Spliced(cells, before, x, val, after), InsertAt(order, p, x), i)
  {
    assert p > 0 ==> CellOk(cells, order, p - 1);
    assert p < |order| ==> CellOk(cells, order, p);
    if i != p {
      assert CellOk(cells, order, if i < p then i else i - 1);
    }
  }

  function Unlinked(cells: Cells, x: nat): Cells
    requires x in cells
    requires (cells[x].prev != 0 ==> cells[x].prev in cells) && (cells[x].next != 0 ==> cells[x].next in cells)
  {
    var before, after := cells[x].prev, cells[x].next;
    var c := if before != 0 then cells[before := cells[before].(next := after)] else cells;
    var c1 := if after != 0 then c[after := c[after].(prev := before)] else c;
    c1 - {x}
  }

  function RemoveAt<T>(s: seq<T>, p: nat): (r: seq<T>)
    requires p < |s|
  {
    s[..p] + s[p + 1..]
  }

  lemma UnlinkedCell(cells: Cells, order: seq<nat>, p: nat, i: nat)
    requires Linked(cells, order) && p < |order| && i + 1 < |order|
    ensures var x := order[p];
      && x in cells && (cells[x].prev != 0 ==> cells[x].prev in cells)
        && (cells[x].next != 0 ==> cells[x].next in cells)
      && CellOk(Unlinked(cells, x), RemoveAt(order, p), i)
  {
    assert CellOk(cells, order, p);
    assert p > 0 ==> CellOk(cells, order, p - 1);
    assert p + 1 < |order| ==> CellOk(cells, order, p + 1);
    assert CellOk(cells, order, if i < p then i else i + 1);
  }

  lemma UnlinkedLinked(cells: Cells, order: seq<nat>, p: nat)
    requires Linked(cells, order) && p < |order|
    ensures var x := order[p];
      && x in cells && (cells[x].prev != 0 ==> cells[x].prev in cells)
        && (cells[x].next != 0 ==> cells[x].next in cells)
      && Linked(Unlinked(cells, x), RemoveAt(order, p))
  {
    assert CellOk(cells, order, p);
    assert p > 0 ==> CellOk(cells, order, p - 1);
    assert p + 1 < |order| ==> CellOk(cells, order, p + 1);
    var cells', order' := Unlinked(cells, order[p]), RemoveAt(order, p);
    RemoveDistinct(order, p);
    forall i: nat | i < |order'| ensures CellOk(cells', order', i) {
      UnlinkedCell(cells, order, p, i);
    }
    forall y | y in cells' ensures y in order' {
      assert y in cells && y in order;
      var k :| 0 <= k < |order| && order[k] == y;
      assert order'[if k < p then k else k - 1] == y;
    }
  }

  // ---- The values, in order ----

  ghost function Values(cells: Cells, order: seq<nat>): (r: seq<Act>)
    requires Linked(cells, order)
    ensures |r| == |order| && forall i: nat {:trigger r[i]} :: i < |r| ==>
      CellOk(cells, order, i) && r[i] == cells[order[i]].val
  {
    seq(|order|, i requires 0 <= i < |order| => (assert CellOk(cells, order, i); cells[order[i]].val))
  }

  lemma SplicedValue(cells: Cells, order: seq<nat>, p: nat, x: nat, val: Act, i: nat)
    requires Linked(cells, order) && p <= |order| && x > 0 && x !in cells && i <= |order|
    ensures var before, after := At(order, p - 1), At(order, p);
      && (before != 0 ==> before in cells) && (after != 0 ==> after in cells)
      && var y := InsertAt(order, p, x)[i];
      && y in Spliced(cells, before, x, val, after)
      && Spliced(cells, before, x, val, after)[y].val ==
           if i < p then Values(cells, order)[i] else if i == p then val else Values(cells, order)[i - 1]
  {
    assert p > 0 ==> CellOk(cells, order, p - 1);
    assert p < |order| ==> CellOk(cells, order, p);
    if i != p {
      var k: nat := if i < p then i else i - 1;
      assert CellOk(cells, order, k) && Values(cells, order)[k] == cells[order[k]].val;
    }
  }

  lemma SplicedValues(cells: Cells, order: seq<nat>, p: nat, x: nat, val: Act)
    requires Linked(cells, order) && p <= |order| && x > 0 && x !in cells
    ensures var before, after := At(order, p - 1), At(order, p);
      && (before != 0 ==> before in cells) && (after != 0 ==> after in cells)
      && var cells', order' := Spliced(cells, before, x, val, after), InsertAt(order, p, x);
      && Linked(cells', order')
      && Values(cells', order') == Values(cells, order)[..p] + [val] + Values(cells, order)[p..]
  {
    SplicedLinked(cells, order, p, x, val);
    var cells', order' := Spliced(cells, At(order, p - 1), x, val, At(order, p)), InsertAt(order, p, x);
    var v := Values(cells, order);
    InsertedIndex(v, p, val);
    forall i: nat | i < |order'| ensures order'[i] in cells' && cells'[order'[i]].val == (v[..p] + [val] + v[p..])[i] {
      SplicedValue(cells, order, p, x, val, i);
    }
    ValuesAre(cells', order', v[..p] + [val] + v[p..]);
  }

  lemma InsertedIndex(v: seq<Act>, p: nat, val: Act)
    requires p <= |v|
    ensures var w := v[..p] + [val] + v[p..];
      |w| == |v| + 1 && forall i {:trigger w[i]} :: 0 <= i < |w| ==> w[i] == if i < p then v[i]
        else if i == p then val else v[i - 1]
  {
  }

  lemma ValuesAre(cells: Cells, order: seq<nat>, w: seq<Act>)
    requires Linked(cells, order) && |w| == |order|
    requires forall i: nat {:trigger order[i]} :: i < |order| ==> order[i] in cells && cells[order[i]].val == w[i]
    ensures Values(cells, order) == w
  {
    var v := Values(cells, order);
    forall i: nat | i < |v| ensures v[i] == w[i] {
      assert v[i] == cells[order[i]].val;
    }
  }

  lemma UnlinkedValues(cells: Cells, order: seq<nat>, p: nat)
    requires Linked(cells, order) && p < |order|
    ensures var x := order[p];
      && x in cells && (cells[x].prev != 0 ==> cells[x].prev in cells)
        && (cells[x].next != 0 ==> cells[x].next in cells)
      && Linked(Unlinked(cells, x), RemoveAt(order, p))
      && Values(Unlinked(cells, x), RemoveAt(order, p)) == RemoveAt(Values(cells, order), p)
  {
    UnlinkedLinked(cells, order, p);
    var cells', order' := Unlinked(cells, order[p]), RemoveAt(order, p);
    var v := Values(cells, order);
    forall i: nat | i < |order'| ensures order'[i] in cells' && cells'[order'[i]].val == RemoveAt(v, p)[i] {
      UnlinkedValue(cells, order, p, i);
    }
    ValuesAre(cells', order', RemoveAt(v, p));
  }

  lemma UnlinkedValue(cells: Cells, order: seq<nat>, p: nat, i: nat)
    requires Linked(cells, order) && p < |order| && i < |RemoveAt(order, p)| && order[p] in cells
    requires cells[order[p]].prev != 0 ==> cells[order[p]].prev in cells
    requires cells[order[p]].next != 0 ==> cells[order[p]].next in cells
    ensures var x := RemoveAt(order, p)[i];
      x in Unlinked(cells, order[p]) && Unlinked(cells, order[p])[x].val == RemoveAt(Values(cells, order), p)[i]
  {
    var k: nat := if i < p then i else i + 1;
    var v := Values(cells, order);
    assert CellOk(cells, order, k) && v[k] == cells[order[k]].val;
    assert RemoveAt(order, p)[i] == order[k] != order[p] && RemoveAt(v, p)[i] == v[k];
    UnlinkedKeeps(cells, order[p], order[k]);
  }

  // The other cells keep their actions.
  lemma UnlinkedKeeps(cells: Cells, x: nat, y: nat)
    requires x in cells && y in cells && x != y
    requires cells[x].prev != 0 ==> cells[x].prev in cells
    requires cells[x].next != 0 ==> cells[x].next in cells
    ensures y in Unlinked(cells, x) && Unlinked(cells, x)[y].val == cells[y].val
  {
  }
}
