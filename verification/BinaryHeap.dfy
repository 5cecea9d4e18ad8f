// The binary heaps that the candidate queues keep in vectors, with the order on
// candidates: by score, then by id (`datastructs`).

module BinaryHeap {
  datatype Item = Item(score: real, cid: int)

  predicate Less(a: Item, b: Item) {
    a.score < b.score || (a.score == b.score && a.cid < b.cid)
  }

  // `b` belongs nearer the front than `a`: of a max-heap, or else of a min-heap.
  predicate Below(a: Item, b: Item, max: bool) {
    if max then Less(a, b) else Less(b, a)
  }

  function Parent(i: nat): nat
    requires i > 0
  {
    (i - 1) / 2
  }

  predicate PlaceOk(h: seq<Item>, i: nat, max: bool)
    requires 0 < i < |h|
  {
    !Below(h[Parent(i)], h[i], max)
  }

  predicate IsHeap(h: seq<Item>, max: bool) {
    forall i: nat {:trigger PlaceOk(h, i, max)} :: 0 < i < |h| ==> PlaceOk(h, i, max)
  }

  // Nothing comes before the front.
  lemma {:induction false} FrontIsFirst(h: seq<Item>, max: bool, i: nat)
    requires IsHeap(h, max) && i < |h|
    ensures !Below(h[0], h[i], max)
  {
    if i > 0 {
      FrontIsFirst(h, max, Parent(i));
      assert PlaceOk(h, i, max);
    }
  }

  function Swap(h: seq<Item>, i: nat, j: nat): (r: seq<Item>)
    requires i < |h| && j < |h|
    ensures |r| == |h|
  {
    h[i := h[j]][j := h[i]]
  }

  lemma SwapKeeps(h: seq<Item>, i: nat, j: nat)
    requires i < |h| && j < |h|
    ensures multiset(Swap(h, i, j)) == multiset(h)
  {
  }

  // Only place `i` may come before its parent, and what is below `i` fits under
  // that parent.
  predicate Rising(h: seq<Item>, i: nat, max: bool) {
    && i < |h|
    && (forall j: nat {:trigger PlaceOk(h, j, max)} :: 0 < j < |h| && j != i ==> PlaceOk(h, j, max))
    && (i > 0 ==> forall j: nat {:trigger h[j]} :: 0 < j < |h| && Parent(j) == i ==> !Below(h[Parent(i)], h[j], max))
  }

  lemma RiseStep(h: seq<Item>, i: nat, max: bool)
    requires Rising(h, i, max) && i > 0 && Below(h[Parent(i)], h[i], max)
    ensures Rising(Swap(h, i, Parent(i)), Parent(i), max)
  {
    var p, r := Parent(i), Swap(h, i, Parent(i));
    assert p > 0 ==> PlaceOk(h, p, max);
    forall j: nat | 0 < j < |r| && j != p ensures PlaceOk(r, j, max) {
      assert j != i ==> PlaceOk(h, j, max);
    }
    if p > 0 {
      forall j: nat | 0 < j < |r| && Parent(j) == p ensures !Below(r[Parent(p)], r[j], max) {
        assert j != i ==> PlaceOk(h, j, max);
      }
    }
  }

  // `push_back` and `push_heap`.
  method Push(h: seq<Item>, x: Item, max: bool) returns (r: seq<Item>)
    requires IsHeap(h, max)
    ensures IsHeap(r, max) && |r| == |h| + 1 && multiset(r) == multiset(h) + multiset{x}
  {
    r := h + [x];
    var i: nat := |h|;
    forall j: nat | 0 < j < |r| && j != i ensures PlaceOk(r, j, max) {
      assert PlaceOk(h, j, max);
    }
    while i > 0 && Below(r[Parent(i)], r[i], max)
      invariant |r| == |h| + 1 && Rising(r, i, max) && multiset(r) == multiset(h) + multiset{x}
    {
      RiseStep(r, i, max);
      SwapKeeps(r, i, Parent(i));
      r, i := Swap(r, i, Parent(i)), Parent(i);
    }
    forall j: nat | 0 < j < |r| ensures PlaceOk(r, j, max) {
    }
  }

  // Only what is below place `i` may come before it, and that fits under the
  // parent of `i`.
  predicate Sinking(h: seq<Item>, i: nat, max: bool) {
    && (forall j: nat {:trigger PlaceOk(h, j, max)} :: 0 < j < |h| && Parent(j) != i ==> PlaceOk(h, j, max))
    && (0 < i < |h| ==> forall j: nat {:trigger h[j]} :: 0 < j < |h| && Parent(j) == i ==>
      !Below(h[Parent(i)], h[j], max))
  }

  // The child of `i` that comes first.
  function FirstChild(h: seq<Item>, i: nat, max: bool): (c: nat)
    requires 2 * i + 1 < |h|
    ensures c < |h| && c > 0 && Parent(c) == i
    ensures forall j: nat {:trigger h[j]} :: 0 < j < |h| && Parent(j) == i ==> !Below(h[c], h[j], max)
  {
    var l := 2 * i + 1;
    if l + 1 < |h| && Below(h[l], h[l + 1], max) then l + 1 else l
  }

  lemma SinkStep(h: seq<Item>, i: nat, max: bool)
    requires Sinking(h, i, max) && 2 * i + 1 < |h| && Below(h[i], h[FirstChild(h, i, max)], max)
    ensures Sinking(Swap(h, i, FirstChild(h, i, max)), FirstChild(h, i, max), max)
  {
    var c := FirstChild(h, i, max);
    var r := Swap(h, i, c);
    forall j: nat | 0 < j < |r| && Parent(j) != c ensures PlaceOk(r, j, max) {
      if Parent(j) == i {
        assert !Below(h[c], h[j], max);
      } else if j != i {
        assert PlaceOk(h, j, max);
      }
    }
    forall j: nat | 0 < j < |r| && Parent(j) == c ensures !Below(r[Parent(c)], r[j], max) {
      assert PlaceOk(h, j, max);
    }
  }

  // `pop_heap` and `pop_back`.
  method Pop(h: seq<Item>, max: bool) returns (top: Item, r: seq<Item>)
    requires IsHeap(h, max) && h != []
    ensures IsHeap(r, max) && |r| + 1 == |h| && top == h[0] && multiset(h) == multiset(r) + multiset{top}
    ensures forall x :: x in h ==> !Below(top, x, max)
  {
    forall x | x in h ensures !Below(h[0], x, max) {
      var i :| 0 <= i < |h| && h[i] == x;
      FrontIsFirst(h, max, i);
    }
    top := h[0];
    if |h| == 1 {
      r := [];
      assert h == [top];
      return;
    }
    LastToFront(h, max);
    r := [h[|h| - 1]] + h[1..|h| - 1];
    r := SiftDown(r, max);
  }

  lemma LastToFront(h: seq<Item>, max: bool)
    requires IsHeap(h, max) && |h| > 1
    ensures var r := [h[|h| - 1]] + h[1..|h| - 1];
      Sinking(r, 0, max) && multiset(h) == multiset(r) + multiset{h[0]}
  {
    var last := |h| - 1;
    var r := [h[last]] + h[1..last];
    assert h == [h[0]] + h[1..last] + [h[last]];
    forall j: nat | 0 < j < |r| && Parent(j) != 0 ensures PlaceOk(r, j, max) {
      assert PlaceOk(h, j, max);
    }
  }

  method SiftDown(h: seq<Item>, max: bool) returns (r: seq<Item>)
    requires Sinking(h, 0, max)
    ensures IsHeap(r, max) && |r| == |h| && multiset(r) == multiset(h)
  {
    r := h;
    var i := 0;
    while 2 * i + 1 < |r| && Below(r[i], r[FirstChild(r, i, max)], max)
      invariant 0 <= i && |r| == |h| && Sinking(r, i, max) && multiset(r) == multiset(h)
      decreases |h| - i
    {
      var c := FirstChild(r, i, max);
      SinkStep(r, i, max);
      SwapKeeps(r, i, c);
      r, i := Swap(r, i, c), c;
    }
    forall j: nat | 0 < j < |r| ensures PlaceOk(r, j, max) {
      if Parent(j) == i {
        assert !Below(r[FirstChild(r, i, max)], r[j], max);
      }
    }
  }
}
