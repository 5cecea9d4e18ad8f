// The tree bins of the bundled allocator and the best-fit searches over them:
// `tmalloc_large` and `tmalloc_small` in `malloc.c`.

module TreeBins {
  import opened Options
  import opened Arithmetic
  import opened TreeBinIndex
  import opened SizeTrie

  const MINCHUNKSIZE: nat := 32

  // The range of sizes the trie of bin `i` is laid out over.
  function BinLo(i: nat): nat {
    if i == NTREEBINS - 1 then 0 else MinSizeForTreeIndex(i)
  }

  function BinBits(i: nat): nat {
    if i == NTREEBINS - 1 then 64 else i / 2 + 7
  }

  function LeftShiftForTreeIndex(i: nat): nat
    requires i < NTREEBINS
  {
    if i == NTREEBINS - 1 then 0 else 63 - (i / 2 + 6)
  }

  function StartBits(s: nat, i: nat): nat
    requires i < NTREEBINS
  {
    Scale(s, LeftShiftForTreeIndex(i)) % WORD
  }

  // Shifting a size of bin `i` drops the bits all of the bin's sizes share.
  lemma StartBitsAt(s: nat, i: nat)
    requires InBin(s, i) && s < WORD
    ensures BitsAt(StartBits(s, i), s, BinLo(i), BinBits(i))
  {
    Pow2SixtyFour();
    if i < NTREEBINS - 1 {
      var k := BinBits(i);
      var d := s - BinLo(i);
      BinRange(s, i);
      ScaledRange(d, k);
      ScaleAdd(BinLo(i), d, 64 - k);
      assert s == BinLo(i) + d && LeftShiftForTreeIndex(i) == 64 - k;
      DropHigh(Scale(BinLo(i), 64 - k), Scale(d, 64 - k));
    }
  }

  lemma DropHigh(x: nat, r: nat)
    requires (x == 2 * WORD || x == 3 * WORD) && r < WORD
    ensures (x + r) % WORD == r
  {
  }

  lemma BinRange(s: nat, i: nat)
    requires InBin(s, i) && i < NTREEBINS - 1
    ensures BinLo(i) <= s < BinLo(i) + Pow2(BinBits(i)) && BinBits(i) <= 64
    ensures var lo := Scale(BinLo(i), 64 - BinBits(i)); lo == 2 * WORD || lo == 3 * WORD
  {
    var h, k := i / 2, BinBits(i);
    MinSizes(h);
    ScaledMultiple(k, 0);
    ScaledMultiple(k, 1);
    if i % 2 == 0 {
      assert i == 2 * h;
    } else {
      assert i == 2 * h + 1;
    }
  }

  lemma ScaledRange(d: nat, k: nat)
    requires k <= 64 && d < Pow2(k)
    ensures Scale(d, 64 - k) < WORD
  {
    Pow2SixtyFour();
    ScalePow2(k, 64 - k);
    ScaleAdd(d, Pow2(k) - d, 64 - k);
  }

  // The common part of a bin's sizes, twice or three times the range's length.
  lemma ScaledMultiple(k: nat, odd: nat)
    requires k <= 64
    ensures Scale((2 + odd) * Pow2(k), 64 - k) == (2 + odd) * WORD
  {
    Pow2SixtyFour();
    ScalePow2(k, 64 - k);
    ScaleTimes(2 + odd, Pow2(k), 64 - k);
  }

  lemma {:induction false} ScaleTimes(m: nat, d: nat, j: nat)
    ensures Scale(m * d, j) == m * Scale(d, j)
  {
    if j > 0 {
      ScaleTimes(m, d, j - 1);
      assert m * (2 * Scale(d, j - 1)) == 2 * (m * Scale(d, j - 1));
    }
  }

  ghost predicate BinOk(t: Tree, i: nat) {
    InTrie(t, BinLo(i), BinBits(i)) && forall c {:trigger Holds(t, c)} :: Holds(t, c) ==>
      InBin(c.size, i) && c.size < WORD
  }

  // `chunksize - nb`, wrapping around.
  function Remainder(size: nat, nb: nat): nat
    requires size < WORD && 0 < nb < WORD
  {
    if size >= nb then size - nb else WORD + size - nb
  }

  // The best chunk seen, and what it would leave.
  predicate Best(v: Option<Chunk>, rsize: nat, nb: nat)
    requires 0 < nb < WORD
  {
    if v.None? then rsize == WORD - nb else nb <= v.value.size < WORD && rsize == v.value.size - nb
  }

  predicate NoWorse(v: Option<Chunk>, c: Chunk) {
    v.Some? && v.value.size <= c.size
  }

  // ---- Down to the smallest chunk of a subtree ----

  ghost predicate LeftToSee(c: Chunk, v: Option<Chunk>, t: Tree, lo: nat, k: nat) {
    NoWorse(v, c) || Holds(t, c) || (t.Node? && lo + Pow2(k) <= c.size)
  }

  function LeftmostChild(t: Tree): Tree
    requires t.Node?
  {
    if t.left.Node? then t.left else t.right
  }

  // The base of a node's ring.
  function Base(t: Tree): Chunk
    requires t.Node? && t.ring != []
  {
    Chunk(t.ring[0], t.size)
  }

  lemma LeftmostStep(c: Chunk, v: Option<Chunk>, t: Tree, lo: nat, k: nat)
    requires t.Node? && InTrie(t, lo, k) && v.Some? && v.value.size <= t.size
    requires LeftToSee(c, v, t, lo, k)
    ensures k == 0 ==> LeftmostChild(t).Leaf? && NoWorse(v, c)
    ensures k > 0 ==>
      var lo' := if t.left.Node? then lo else lo + Pow2(k - 1);
      InTrie(LeftmostChild(t), lo', k - 1) && LeftToSee(c, v, LeftmostChild(t), lo', k - 1)
  {
    assert !Holds(Leaf, c);
    if k > 0 && Holds(t.right, c) {
      TrieRange(t.right, lo + Pow2(k - 1), k - 1, c);
    }
    assert c.size == t.size || lo + Pow2(k) <= c.size ==> NoWorse(v, c);
  }

  // The smallest chunk of the subtree is on its leftmost path.
  method SmallestOf(t0: Tree, nb: nat, v0: Option<Chunk>, rsize0: nat, ghost lo0: nat, ghost k0: nat)
    returns (v: Option<Chunk>, rsize: nat)
    requires 0 < nb < WORD && InTrie(t0, lo0, k0) && Best(v0, rsize0, nb)
    requires forall c {:trigger Holds(t0, c)} :: Holds(t0, c) ==>
      c.size < WORD && (c.size >= nb || NoWorse(v0, Chunk(0, nb)))
    ensures Best(v, rsize, nb) && (v == v0 || (v.Some? && Holds(t0, v.value)))
    ensures v0.Some? ==> NoWorse(v, v0.value)
    ensures forall c {:trigger Holds(t0, c)} :: Holds(t0, c) && c.size >= nb ==> NoWorse(v, c)
  {
    var t := t0;
    v, rsize := v0, rsize0;
    ghost var lo: nat, k: nat := lo0, k0;
    while t.Node?
      invariant Best(v, rsize, nb) && (v == v0 || (v.Some? && Holds(t0, v.value)))
      invariant v0.Some? ==> NoWorse(v, v0.value)
      invariant InTrie(t, lo, k) && (v.None? ==> forall c {:trigger Holds(t0, c)} :: Holds(t0, c) ==> c.size >= nb)
      invariant forall c {:trigger Holds(t, c)} :: Holds(t, c) ==> Holds(t0, c)
      invariant forall c {:trigger Holds(t0, c)} :: Holds(t0, c) && c.size >= nb ==> LeftToSee(c, v, t, lo, k)
      decreases t
    {
      assert Holds(t, Base(t));
      assert Holds(t0, Base(t));
      var trem := Remainder(t.size, nb);
      if trem < rsize {
        rsize := trem;
        v := Some(Base(t));
      }
      forall c | Holds(t0, c) && c.size >= nb
        ensures k == 0 ==> NoWorse(v, c)
        ensures k > 0 ==> LeftToSee(c, v, LeftmostChild(t), if t.left.Node? then lo else lo + Pow2(k - 1), k - 1)
      {
        if v.value.size <= t.size {
          LeftmostStep(c, v, t, lo, k);
        } else {
          assert NoWorse(v, c);
        }
      }
      forall c | Holds(LeftmostChild(t), c) ensures Holds(t0, c) {
        assert Holds(t, c);
      }
      if k > 0 {
        lo := if t.left.Node? then lo else lo + Pow2(k - 1);
        k := k - 1;
      }
      t := LeftmostChild(t);
    }
  }

  // ---- Down the path of the size asked for ----

  ghost predicate Pending(c: Chunk, v: Option<Chunk>, t: Tree, rst: Tree, rlo: nat, rk: nat) {
    NoWorse(v, c) || Holds(t, c) || LeftToSee(c, v, rst, rlo, rk)
  }

  // An untaken right subtree holds only sizes above the ranges passed since.
  ghost predicate Untaken(rst: Tree, rlo: nat, rk: nat, bound: nat) {
    rst.Node? ==> InTrie(rst, rlo, rk) && bound <= rlo
  }

  function Child(t: Tree, bits: nat): Tree
    requires t.Node?
  {
    if TopBit(bits) then t.right else t.left
  }

  lemma DescentStep(c: Chunk, v: Option<Chunk>, t: Tree, bits: nat, nb: nat, lo: nat, k: nat, rst: Tree, rlo: nat,
    rk: nat)
    requires t.Node? && InTrie(t, lo, k) && BitsAt(bits, nb, lo, k) && c.size >= nb
    requires t.size >= nb ==> NoWorse(v, Base(t))
    requires Untaken(rst, rlo, rk, lo + Pow2(k)) && Pending(c, v, t, rst, rlo, rk)
    ensures if !TopBit(bits) && t.right.Node? then k > 0 && Pending(c, v, Child(t, bits), t.right, lo + Pow2(k - 1),
      k - 1)
            else Pending(c, v, Child(t, bits), rst, rlo, rk)
  {
    assert !Holds(Leaf, c);
    if k > 0 {
      BitsStep(bits, nb, lo, k);
      if Holds(t.left, c) {
        TrieRange(t.left, lo, k - 1, c);
      }
    }
    if Holds(rst, c) {
      TrieRange(rst, rlo, rk, c);
    }
  }

  // Takes the path of `nb`, remembering the deepest subtree to its right.  Ends
  // on an exact fit, or with that subtree: every chunk that would do is then
  // beaten by the best one seen or by all of that subtree, or is in it.
  method FollowBits(t0: Tree, nb: nat, bits0: nat, ghost lo0: nat, ghost k0: nat)
    returns (t: Tree, v: Option<Chunk>, rsize: nat, ghost lo: nat, ghost k: nat)
    requires 0 < nb < WORD && t0.Node? && InTrie(t0, lo0, k0) && BitsAt(bits0, nb, lo0, k0)
    requires forall c {:trigger Holds(t0, c)} :: Holds(t0, c) ==> c.size < WORD
    ensures Best(v, rsize, nb) && (v.Some? ==> Holds(t0, v.value))
    ensures if rsize == 0 then t.Node? && InTrie(t, lo, k) && forall c {:trigger Holds(t, c)} :: Holds(t, c) ==>
      Holds(t0, c)
            else Found(t0, nb, v, t, lo, k)
  {
    t, v, rsize := t0, None, WORD - nb;
    lo, k := lo0, k0;
    var rst, sizebits := Leaf, bits0;
    ghost var rlo: nat, rk: nat := 0, 0;
    while true
      invariant Best(v, rsize, nb) && (v.Some? ==> Holds(t0, v.value))
      invariant rsize > 0 && t.Node? && OnPath(t0, nb, v, t, sizebits, lo, k, rst, rlo, rk)
      decreases t
    {
      assert Holds(t, Base(t));
      assert Holds(t0, Base(t));
      ghost var v0 := v;
      var trem := Remainder(t.size, nb);
      if trem < rsize {
        v := Some(Base(t));
        rsize := trem;
        if rsize == 0 {
          return;
        }
      }
      var next := Child(t, sizebits);
      PathStep(t0, nb, v0, v, t, sizebits, lo, k, rst, rlo, rk);
      ghost var lower := Lower(t, sizebits);
      rlo, rk := NextLow(lower, lo, k, rlo), NextBits(lower, k, rk);
      rst := NextRst(t, sizebits, rst);
      if next.Leaf? {
        t, lo, k := rst, rlo, rk;
        return;
      }
      lo, k := NextLow(TopBit(sizebits), lo, k, lo), NextBits(true, k, 0);
      t, sizebits := next, Shift(sizebits);
    }
  }

  // The right child becomes the deepest untaken subtree.
  predicate Lower(t: Tree, bits: nat)
    requires t.Node?
  {
    t.right.Node? && !TopBit(bits)
  }

  function NextRst(t: Tree, bits: nat, rst: Tree): Tree
    requires t.Node?
  {
    if Lower(t, bits) then t.right else rst
  }

  function NextLow(up: bool, lo: nat, k: nat, other: nat): nat {
    if up && k > 0 then lo + Pow2(k - 1) else other
  }

  function NextBits(down: bool, k: nat, other: nat): nat {
    if down && k > 0 then k - 1 else other
  }

  // The search of `t0` has come to `t`, with `rst` the deepest untaken subtree.
  ghost predicate OnPath(t0: Tree, nb: nat, v: Option<Chunk>, t: Tree, bits: nat, lo: nat, k: nat, rst: Tree,
    rlo: nat, rk: nat) {
    && InTrie(t, lo, k) && BitsAt(bits, nb, lo, k) && Untaken(rst, rlo, rk, lo + Pow2(k))
    && (forall c {:trigger Holds(t, c)} :: Holds(t, c) ==> Holds(t0, c))
    && (forall c {:trigger Holds(rst, c)} :: Holds(rst, c) ==> Holds(t0, c))
    && (forall c {:trigger Holds(t0, c)} :: Holds(t0, c) && c.size >= nb ==> Pending(c, v, t, rst, rlo, rk))
  }

  // One step down, from the best chunk `v0` before this node to `v` after it.
  lemma PathStep(t0: Tree, nb: nat, v0: Option<Chunk>, v: Option<Chunk>, t: Tree, bits: nat, lo: nat, k: nat,
    rst: Tree, rlo: nat, rk: nat)
    requires t.Node? && OnPath(t0, nb, v0, t, bits, lo, k, rst, rlo, rk)
    requires v0.Some? ==> NoWorse(v, v0.value)
    requires t.size >= nb ==> NoWorse(v, Base(t))
    ensures var rst', rlo', rk' := NextRst(t, bits, rst), NextLow(Lower(t, bits), lo, k, rlo),
      NextBits(Lower(t, bits), k, rk);
      if Child(t, bits).Node? then
        OnPath(t0, nb, v, Child(t, bits), Shift(bits), NextLow(TopBit(bits), lo, k, lo), NextBits(true, k, 0), rst',
          rlo', rk')
      else Found(t0, nb, v, rst', rlo', rk')
  {
    if k > 0 {
      BitsStep(bits, nb, lo, k);
    }
    forall c | Holds(t0, c) && c.size >= nb
      ensures if !TopBit(bits) && t.right.Node? then k > 0 && Pending(c, v, Child(t, bits), t.right,
        lo + Pow2(k - 1), k - 1)
              else Pending(c, v, Child(t, bits), rst, rlo, rk)
    {
      DescentStep(c, v, t, bits, nb, lo, k, rst, rlo, rk);
    }
    forall c | Holds(t.left, c) || Holds(t.right, c) ensures Holds(t0, c) {
      assert Holds(t, c);
    }
  }

  // What is left to see is `rst`, all of it large enough.
  ghost predicate Found(t0: Tree, nb: nat, v: Option<Chunk>, rst: Tree, rlo: nat, rk: nat) {
    && (rst.Node? ==> InTrie(rst, rlo, rk) && nb <= rlo)
    && (forall c {:trigger Holds(rst, c)} :: Holds(rst, c) ==> Holds(t0, c))
    && (forall c {:trigger Holds(t0, c)} :: Holds(t0, c) && c.size >= nb ==> LeftToSee(c, v, rst, rlo, rk))
  }
}
