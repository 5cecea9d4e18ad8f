// The bitwise tries that hold free chunks by size: `insert_large_chunk` and
// `unlink_large_chunk` in `malloc.c`, with `do_check_tree` as their invariant.

module SizeTrie {
  import opened Arithmetic
  import opened TreeBinIndex

  datatype Chunk = Chunk(addr: nat, size: nat)

  // A node is a ring of the addresses of chunks of one size, in `fd` order from
  // the chunk that is linked into the tree.
  datatype Tree = Leaf | Node(size: nat, ring: seq<nat>, left: Tree, right: Tree)

  predicate Holds(t: Tree, c: Chunk) {
    t.Node? && ((c.size == t.size && c.addr in t.ring) || Holds(t.left, c) || Holds(t.right, c))
  }

  predicate NoSize(t: Tree, s: nat) {
    t.Node? ==> t.size != s && NoSize(t.left, s) && NoSize(t.right, s)
  }

  predicate RingOk(ring: seq<nat>) {
    ring != [] && forall i, j :: 0 <= i < j < |ring| ==> ring[i] != ring[j]
  }

  // The sizes of a subtree at depth `64 - k` lie within `2^k` of `lo`; its
  // children split that range in halves, and no size has two nodes.
  predicate InTrie(t: Tree, lo: nat, k: nat) {
    t.Node? ==>
      && RingOk(t.ring) && lo <= t.size < lo + Pow2(k)
      && NoSize(t.left, t.size) && NoSize(t.right, t.size)
      && if k == 0 then t.left.Leaf? && t.right.Leaf?
         else InTrie(t.left, lo, k - 1) && InTrie(t.right, lo + Pow2(k - 1), k - 1)
  }

  lemma {:induction false} TrieRange(t: Tree, lo: nat, k: nat, c: Chunk)
    requires InTrie(t, lo, k) && Holds(t, c)
    ensures lo <= c.size < lo + Pow2(k)
  {
    if k > 0 {
      if Holds(t.left, c) {
        TrieRange(t.left, lo, k - 1, c);
      } else if Holds(t.right, c) {
        TrieRange(t.right, lo + Pow2(k - 1), k - 1, c);
      }
    }
  }

  lemma {:induction false} OutsideRange(t: Tree, lo: nat, k: nat, s: nat)
    requires InTrie(t, lo, k) && (s < lo || s >= lo + Pow2(k))
    ensures NoSize(t, s)
  {
    if t.Node? && k > 0 {
      OutsideRange(t.left, lo, k - 1, s);
      OutsideRange(t.right, lo + Pow2(k - 1), k - 1, s);
    }
  }

  lemma {:induction false} NoSizeHolds(t: Tree, c: Chunk)
    requires NoSize(t, c.size)
    ensures !Holds(t, c)
  {
    if t.Node? {
      NoSizeHolds(t.left, c);
      NoSizeHolds(t.right, c);
    }
  }

  // ---- Following the bits of a size ----

  // `d << j`, before the bits beyond the word are dropped.
  function Scale(d: nat, j: nat): nat {
    if j == 0 then d else 2 * Scale(d, j - 1)
  }

  lemma {:induction false} ScaleAdd(d: nat, e: nat, j: nat)
    ensures Scale(d + e, j) == Scale(d, j) + Scale(e, j)
    ensures e > 0 ==> Scale(e, j) > 0
  {
    if j > 0 {
      ScaleAdd(d, e, j - 1);
    }
  }

  lemma {:induction false} ScalePow2(k: nat, j: nat)
    ensures Scale(Pow2(k), j) == Pow2(k + j)
  {
    if j > 0 {
      ScalePow2(k, j - 1);
    }
  }

  // The shifted size at a node: its top bit picks the child to go to.
  ghost predicate BitsAt(bits: nat, s: nat, lo: nat, k: nat) {
    k <= 64 && lo <= s < lo + Pow2(k) && bits == Scale(s - lo, 64 - k)
  }

  const SIGNBIT: nat := 0x8000_0000_0000_0000

  predicate TopBit(bits: nat) {
    bits >= SIGNBIT
  }

  function Shift(bits: nat): nat {
    2 * bits % WORD
  }

  lemma Pow2SixtyFour()
    ensures Pow2(64) == WORD && Pow2(63) == SIGNBIT
  {
    Pow2ThirtyNine();
    Pow2Times256(39);
    Pow2Times256(47);
    Pow2Times256(55);
  }

  // The top bit says which half of the range holds the size.
  lemma BitsStep(bits: nat, s: nat, lo: nat, k: nat)
    requires BitsAt(bits, s, lo, k) && k > 0
    ensures TopBit(bits) <==> s >= lo + Pow2(k - 1)
    ensures BitsAt(Shift(bits), s, if TopBit(bits) then lo + Pow2(k - 1) else lo, k - 1)
  {
    var d, h, j := s - lo, Pow2(k - 1), 64 - k;
    ScalePow2(k - 1, j);
    Pow2SixtyFour();
    if d >= h {
      ScaleAdd(h, d - h, j);
      ScaleAdd(d - h, 2 * h - d, j);
    } else {
      ScaleAdd(d, h - d, j);
    }
  }

  // ---- Insert ----

  // `X` goes behind the base of the ring of its size, or becomes a new leaf.
  function Insert(t: Tree, x: Chunk, bits: nat): Tree {
    if t.Leaf? then Node(x.size, [x.addr], Leaf, Leaf)
    else if t.size == x.size then t.(ring := RingWith(t.ring, x.addr))
    else if TopBit(bits) then t.(right := Insert(t.right, x, Shift(bits)))
    else t.(left := Insert(t.left, x, Shift(bits)))
  }

  function RingWith(ring: seq<nat>, a: nat): seq<nat> {
    if ring == [] then [a] else [ring[0], a] + ring[1..]
  }

  lemma RingWithOk(ring: seq<nat>, a: nat, b: nat)
    requires RingOk(ring) && a !in ring
    ensures RingOk(RingWith(ring, a))
    ensures b in RingWith(ring, a) <==> b in ring || b == a
  {
    assert ring == [ring[0]] + ring[1..];
    var r := RingWith(ring, a);
    assert forall i :: 2 <= i < |r| ==> r[i] == ring[i - 1];
  }

  lemma {:induction false} InsertNoSize(t: Tree, x: Chunk, bits: nat, s: nat)
    requires NoSize(t, s) && x.size != s
    ensures NoSize(Insert(t, x, bits), s)
  {
    if t.Node? {
      InsertNoSize(t.left, x, Shift(bits), s);
      InsertNoSize(t.right, x, Shift(bits), s);
    }
  }

  lemma {:induction false} InsertKeepsTrie(t: Tree, x: Chunk, bits: nat, lo: nat, k: nat)
    requires InTrie(t, lo, k) && BitsAt(bits, x.size, lo, k) && !Holds(t, x)
    ensures InTrie(Insert(t, x, bits), lo, k)
  {
    if t.Leaf? {
    } else if t.size == x.size {
      RingWithOk(t.ring, x.addr, x.addr);
    } else {
      BitsStep(bits, x.size, lo, k);
      if TopBit(bits) {
        InsertKeepsTrie(t.right, x, Shift(bits), lo + Pow2(k - 1), k - 1);
        InsertNoSize(t.right, x, Shift(bits), t.size);
      } else {
        InsertKeepsTrie(t.left, x, Shift(bits), lo, k - 1);
        InsertNoSize(t.left, x, Shift(bits), t.size);
      }
    }
  }

  lemma {:induction false} InsertHolds(t: Tree, x: Chunk, bits: nat, lo: nat, k: nat, c: Chunk)
    requires InTrie(t, lo, k) && BitsAt(bits, x.size, lo, k) && !Holds(t, x)
    ensures Holds(Insert(t, x, bits), c) <==> Holds(t, c) || c == x
  {
    if t.Leaf? {
    } else if t.size == x.size {
      RingWithOk(t.ring, x.addr, c.addr);
    } else {
      BitsStep(bits, x.size, lo, k);
      if TopBit(bits) {
        InsertHolds(t.right, x, Shift(bits), lo + Pow2(k - 1), k - 1, c);
      } else {
        InsertHolds(t.left, x, Shift(bits), lo, k - 1, c);
      }
    }
  }

  // ---- Unlink ----

  // The leaf reached by going right where possible and left otherwise.
  function LastLeaf(t: Tree): Tree
    requires t.Node?
  {
    if t.right.Node? then LastLeaf(t.right) else if t.left.Node? then LastLeaf(t.left) else t
  }

  // The tree without that leaf.
  function PopLeaf(t: Tree): Tree
    requires t.Node?
  {
    if t.right.Node? then t.(right := PopLeaf(t.right))
    else if t.left.Node? then t.(left := PopLeaf(t.left))
    else Leaf
  }

  lemma {:induction false} PopLeafNoSize(t: Tree, s: nat)
    requires t.Node? && NoSize(t, s)
    ensures NoSize(PopLeaf(t), s) && LastLeaf(t).Node? && LastLeaf(t).size != s
  {
    if t.right.Node? {
      PopLeafNoSize(t.right, s);
    } else if t.left.Node? {
      PopLeafNoSize(t.left, s);
    }
  }

  lemma {:induction false} PopLeafKeepsTrie(t: Tree, lo: nat, k: nat)
    requires t.Node? && InTrie(t, lo, k)
    ensures InTrie(PopLeaf(t), lo, k) && LastLeaf(t).Node? && NoSize(PopLeaf(t), LastLeaf(t).size)
    ensures RingOk(LastLeaf(t).ring) && lo <= LastLeaf(t).size < lo + Pow2(k)
  {
    if t.right.Node? {
      PopLeafKeepsTrie(t.right, lo + Pow2(k - 1), k - 1);
      PopLeafNoSize(t.right, t.size);
      OutsideRange(t.left, lo, k - 1, LastLeaf(t).size);
    } else if t.left.Node? {
      PopLeafKeepsTrie(t.left, lo, k - 1);
      PopLeafNoSize(t.left, t.size);
    }
  }

  lemma {:induction false} PopLeafHolds(t: Tree, c: Chunk)
    requires t.Node?
    ensures LastLeaf(t).Node?
    ensures Holds(t, c) <==> Holds(PopLeaf(t), c) || (c.size == LastLeaf(t).size && c.addr in LastLeaf(t).ring)
  {
    if t.right.Node? {
      PopLeafHolds(t.right, c);
    } else if t.left.Node? {
      PopLeafHolds(t.left, c);
    }
  }

  // What takes the place of a node whose only chunk goes: a leaf below it.
  function Replacement(left: Tree, right: Tree): Tree {
    if right.Node? then
      var leaf := LastLeaf(right);
      if leaf.Leaf? then Leaf else Node(leaf.size, leaf.ring, left, PopLeaf(right))
    else if left.Node? then
      var leaf := LastLeaf(left);
      if leaf.Leaf? then Leaf else Node(leaf.size, leaf.ring, PopLeaf(left), right)
    else Leaf
  }

  lemma ReplacementKeepsTrie(left: Tree, right: Tree, lo: nat, k: nat)
    requires k > 0 && InTrie(left, lo, k - 1) && InTrie(right, lo + Pow2(k - 1), k - 1)
    ensures InTrie(Replacement(left, right), lo, k)
  {
    if right.Node? {
      PopLeafKeepsTrie(right, lo + Pow2(k - 1), k - 1);
      OutsideRange(left, lo, k - 1, LastLeaf(right).size);
    } else if left.Node? {
      PopLeafKeepsTrie(left, lo, k - 1);
    }
  }

  lemma ReplacementHolds(left: Tree, right: Tree, c: Chunk)
    ensures Holds(Replacement(left, right), c) <==> Holds(left, c) || Holds(right, c)
  {
    if right.Node? {
      PopLeafHolds(right, c);
    } else if left.Node? {
      PopLeafHolds(left, c);
    }
  }

  lemma ReplacementNoSize(left: Tree, right: Tree, s: nat)
    requires NoSize(left, s) && NoSize(right, s)
    ensures NoSize(Replacement(left, right), s)
  {
    if right.Node? {
      PopLeafNoSize(right, s);
    } else if left.Node? {
      PopLeafNoSize(left, s);
    }
  }

  function IndexOf(ring: seq<nat>, a: nat): (i: nat)
    requires a in ring
    ensures i < |ring| && ring[i] == a
  {
    if ring[0] == a then 0 else 1 + IndexOf(ring[1..], a)
  }

  // The ring without `a`.  The base, if it is `a`, gives way to its `bk`.
  function RingWithout(ring: seq<nat>, a: nat): seq<nat>
    requires a in ring && |ring| > 1
  {
    var i, last := IndexOf(ring, a), |ring| - 1;
    if i == 0 then [ring[last]] + ring[1..last] else ring[..i] + ring[i + 1..]
  }

  lemma RingWithoutOk(ring: seq<nat>, a: nat, b: nat)
    requires a in ring && |ring| > 1 && RingOk(ring)
    ensures RingOk(RingWithout(ring, a))
    ensures b in RingWithout(ring, a) <==> b in ring && b != a
  {
    var i, last := IndexOf(ring, a), |ring| - 1;
    var r := RingWithout(ring, a);
    if i == 0 {
      assert forall j :: 1 <= j < |r| ==> r[j] == ring[j];
      assert r[0] == ring[last];
      if b in ring && b != a {
        var j :| 0 <= j < |ring| && ring[j] == b;
        assert j == last ==> r[0] == b;
        assert j < last ==> r[j] == b;
      }
    } else {
      assert forall j :: 0 <= j < |r| ==> r[j] == ring[if j < i then j else j + 1];
      if b in ring && b != a {
        var j :| 0 <= j < |ring| && ring[j] == b;
        assert r[if j < i then j else j - 1] == b;
      }
    }
  }

  function Unlink(t: Tree, x: Chunk, bits: nat): Tree {
    if t.Leaf? then t
    else if t.size == x.size then
      if x.addr !in t.ring then t
      else if |t.ring| > 1 then t.(ring := RingWithout(t.ring, x.addr))
      else Replacement(t.left, t.right)
    else if TopBit(bits) then t.(right := Unlink(t.right, x, Shift(bits)))
    else t.(left := Unlink(t.left, x, Shift(bits)))
  }

  lemma {:induction false} UnlinkNoSize(t: Tree, x: Chunk, bits: nat, s: nat)
    requires NoSize(t, s)
    ensures NoSize(Unlink(t, x, bits), s)
  {
    if t.Node? {
      ReplacementNoSize(t.left, t.right, s);
      UnlinkNoSize(t.left, x, Shift(bits), s);
      UnlinkNoSize(t.right, x, Shift(bits), s);
    }
  }

  lemma {:induction false} UnlinkKeepsTrie(t: Tree, x: Chunk, bits: nat, lo: nat, k: nat)
    requires InTrie(t, lo, k) && BitsAt(bits, x.size, lo, k)
    ensures InTrie(Unlink(t, x, bits), lo, k)
  {
    if t.Leaf? {
    } else if t.size == x.size {
      if x.addr in t.ring {
        if |t.ring| > 1 {
          RingWithoutOk(t.ring, x.addr, 0);
        } else if k > 0 {
          ReplacementKeepsTrie(t.left, t.right, lo, k);
        }
      }
    } else {
      BitsStep(bits, x.size, lo, k);
      if TopBit(bits) {
        UnlinkKeepsTrie(t.right, x, Shift(bits), lo + Pow2(k - 1), k - 1);
        UnlinkNoSize(t.right, x, Shift(bits), t.size);
      } else {
        UnlinkKeepsTrie(t.left, x, Shift(bits), lo, k - 1);
        UnlinkNoSize(t.left, x, Shift(bits), t.size);
      }
    }
  }

  // Exactly `x` goes.
  lemma {:induction false} UnlinkHolds(t: Tree, x: Chunk, bits: nat, lo: nat, k: nat, c: Chunk)
    requires InTrie(t, lo, k) && BitsAt(bits, x.size, lo, k)
    ensures Holds(Unlink(t, x, bits), c) <==> Holds(t, c) && c != x
  {
    if t.Leaf? {
    } else if t.size == x.size {
      NoSizeHolds(t.left, x);
      NoSizeHolds(t.right, x);
      if x.addr in t.ring {
        if |t.ring| > 1 {
          RingWithoutOk(t.ring, x.addr, c.addr);
        } else {
          assert t.ring == [x.addr];
          ReplacementHolds(t.left, t.right, c);
        }
      }
    } else {
      BitsStep(bits, x.size, lo, k);
      if TopBit(bits) {
        UnlinkHolds(t.right, x, Shift(bits), lo + Pow2(k - 1), k - 1, c);
        OutsideRange(t.left, lo, k - 1, x.size);
        NoSizeHolds(t.left, x);
      } else {
        UnlinkHolds(t.left, x, Shift(bits), lo, k - 1, c);
        OutsideRange(t.right, lo + Pow2(k - 1), k - 1, x.size);
        NoSizeHolds(t.right, x);
      }
    }
  }
}
