// Which tree bin of the bundled allocator holds a size: `compute_tree_index`,
// `minsize_for_tree_index` and what the 32-bit `X` makes of huge sizes
// (`malloc.c`).

module TreeBinIndex {
  import opened Arithmetic

  // `size_t` has 64 bits and `unsigned int` has 32.
  const WORD: nat := 0x1_0000_0000_0000_0000
  const HALFWORD: nat := 0x1_0000_0000
  const FORTYBITS: nat := 0x100_0000_0000
  const NTREEBINS: nat := 32
  const MINLARGESIZE: nat := 0x100

  function ComputeTreeIndex(s: nat): nat {
    var x := s / 0x100 % HALFWORD;
    if x == 0 then 0
    else if x > 0xFFFF then NTREEBINS - 1
    else
      var k := Log2(x);
      2 * k + s / Pow2(k + 7) % 2
  }

  function MinSizeForTreeIndex(i: nat): nat {
    if i % 2 == 0 then Pow2(i / 2 + 8) else Pow2(i / 2 + 8) + Pow2(i / 2 + 7)
  }

  // Bin `i` is the one for size `s`: bins cover adjacent ranges, the last of
  // them everything above.
  predicate InBin(s: nat, i: nat) {
    i < NTREEBINS && MinSizeForTreeIndex(i) <= s && (i == NTREEBINS - 1 || s < MinSizeForTreeIndex(i + 1))
  }

  lemma MinSizes(k: nat)
    ensures MinSizeForTreeIndex(2 * k) == 2 * Pow2(k + 7)
    ensures MinSizeForTreeIndex(2 * k + 1) == 3 * Pow2(k + 7)
    ensures MinSizeForTreeIndex(2 * k + 2) == 4 * Pow2(k + 7)
  {
    assert 2 * k / 2 == k && (2 * k + 1) / 2 == k && (2 * k + 2) / 2 == k + 1;
    assert Pow2(k + 8) == 2 * Pow2(k + 7) && Pow2(k + 9) == 2 * Pow2(k + 8);
  }

  lemma LastMinSize()
    ensures MinSizeForTreeIndex(NTREEBINS - 1) == 0xC0_0000 && Pow2(22) == 0x40_0000
  {
    Pow2Times256(14);
    Pow2Times256(6);
    MinSizes(15);
  }

  lemma {:induction false} MinSizeMonotone(i: nat, j: nat)
    requires i <= j
    ensures MinSizeForTreeIndex(i) <= MinSizeForTreeIndex(j)
  {
    if i < j {
      MinSizeMonotone(i, j - 1);
      MinSizes((j - 1) / 2);
    }
  }

  lemma BinsAreOrdered(s: nat, i: nat, t: nat, j: nat)
    requires InBin(s, i) && InBin(t, j) && i < j
    ensures s < t
  {
    MinSizeMonotone(i + 1, j);
  }

  // A quotient between two and four.
  lemma SecondBit(s: nat, p: nat)
    requires p > 0 && 2 * p <= s < 4 * p
    ensures s / p % 2 == if s >= 3 * p then 1 else 0
  {
    Quotient(s, p, if s >= 3 * p then 3 else 2);
  }

  lemma SmallLog(s: nat, k: nat)
    requires MINLARGESIZE <= s < 0x100_0000 && k == Log2(s / 0x100)
    ensures k < 16 && 2 * Pow2(k + 7) <= s < 4 * Pow2(k + 7)
  {
    Pow2Times256(k);
    if k >= 16 {
      Pow2Monotone(16, k);
      Pow2Times256(8);
    }
  }

  lemma SmallIndex(s: nat)
    requires MINLARGESIZE <= s < 0x100_0000
    ensures InBin(s, ComputeTreeIndex(s))
  {
    var k := Log2(s / 0x100);
    IndexValue(s, s, k);
    SmallLog(s, k);
    MinSizes(k);
    if s >= 3 * Pow2(k + 7) {
      assert InBin(s, 2 * k + 1);
    } else {
      assert InBin(s, 2 * k);
    }
  }

  // Of `s`, the index sees only the low 40 bits, `left`.
  lemma IndexValue(s: nat, left: nat, k: nat)
    requires left == s % FORTYBITS && MINLARGESIZE <= left < 0x100_0000 && k == Log2(left / 0x100)
    ensures ComputeTreeIndex(s) == if left >= 3 * Pow2(k + 7) then 2 * k + 1 else 2 * k
    ensures k < 16
  {
    SmallLog(left, k);
    var p := Pow2(k + 7);
    SecondBit(left, p);
    Forty(k + 7);
    SameBit(s, left, p, Pow2(39 - (k + 7)));
    LowWord(s, left);
    var x := left / 0x100;
    assert 0 < x <= 0xFFFF;
    assert ComputeTreeIndex(s) == 2 * k + s / p % 2;
  }

  lemma LowWord(s: nat, left: nat)
    requires left == s % FORTYBITS
    ensures s / 0x100 % HALFWORD == left / 0x100
  {
    var high := s / FORTYBITS;
    assert s == FORTYBITS * high + left;
    assert s / 0x100 == HALFWORD * high + left / 0x100;
    Peel(left / 0x100, HALFWORD, high);
  }

  lemma LargeIndex(s: nat, i: nat)
    requires s >= 0xC0_0000 && i < NTREEBINS
    ensures InBin(s, i) <==> i == NTREEBINS - 1
  {
    LastMinSize();
    if i < NTREEBINS - 1 {
      MinSizeMonotone(i + 1, NTREEBINS - 1);
    }
  }

  // The index computed is right for every size below 2^40.  Above that the
  // 32-bit `X` has lost the high bits, and it is right just when what is left of
  // the size still lands in the last bin.
  predicate Indexable(s: nat) {
    s < FORTYBITS || s / 0x100 % HALFWORD >= 0xC000
  }

  lemma IndexRightIff(s: nat)
    requires s >= MINLARGESIZE
    ensures ComputeTreeIndex(s) < NTREEBINS
    ensures InBin(s, ComputeTreeIndex(s)) <==> Indexable(s)
  {
    var x := s / 0x100 % HALFWORD;
    if s < 0x100_0000 {
      SmallIndex(s);
    } else if x == 0 {
      LargeIndex(s, 0);
    } else if x > 0xFFFF {
      LargeIndex(s, NTREEBINS - 1);
    } else {
      TruncatedIndex(s, x);
    }
  }

  // The first size to get a wrong index: no bits are left, and it goes to the bin
  // of the smallest sizes.
  lemma FirstWrongIndex()
    ensures ComputeTreeIndex(FORTYBITS) == 0 && !InBin(FORTYBITS, 0)
    ensures forall s: nat :: MINLARGESIZE <= s < FORTYBITS ==> InBin(s, ComputeTreeIndex(s))
  {
    LargeIndex(FORTYBITS, 0);
    forall s: nat | MINLARGESIZE <= s < FORTYBITS ensures InBin(s, ComputeTreeIndex(s)) {
      IndexRightIff(s);
    }
  }

  // With the high bits lost, the index is that of the size which is left.
  lemma TruncatedIndex(s: nat, x: nat)
    requires s >= 0x100_0000 && x == s / 0x100 % HALFWORD && 0 < x <= 0xFFFF
    ensures ComputeTreeIndex(s) < NTREEBINS
    ensures InBin(s, ComputeTreeIndex(s)) <==> x >= 0xC000
    ensures s >= FORTYBITS
  {
    var left := s % FORTYBITS;
    LowWord(s, left);
    LeftRange(s, left, x);
    var k := Log2(x);
    IndexValue(s, left, k);
    LargeIndex(s, ComputeTreeIndex(s));
    LogFifteen(x, k);
    LastMinSize();
  }

  lemma LeftRange(s: nat, left: nat, x: nat)
    requires s >= 0x100_0000 && left == s % FORTYBITS && left / 0x100 == x && 0 < x <= 0xFFFF
    ensures s >= FORTYBITS && MINLARGESIZE <= left < 0x100_0000
    ensures left >= 0xC0_0000 <==> x >= 0xC000
  {
    assert s < FORTYBITS ==> left == s;
  }

  lemma LogFifteen(x: nat, k: nat)
    requires 0 < x <= 0xFFFF && k == Log2(x)
    ensures x >= 0xC000 ==> k == 15
  {
    Pow2Times256(8);
    Pow2Times256(7);
    if k >= 16 {
      Pow2Monotone(16, k);
    } else if k < 15 {
      Pow2Monotone(k + 1, 15);
    }
  }

  // Dropping a multiple of 2^40 does not change the bits below it.
  lemma SameBit(s: nat, left: nat, p: nat, c: nat)
    requires p > 0 && left == s % FORTYBITS && FORTYBITS == 2 * (c * p)
    ensures s / p % 2 == left / p % 2
  {
    var high := s / FORTYBITS;
    Triple(high, c, p);
    DivAdd(2 * (high * c), p, left);
    Even(high * c, left / p);
    assert s == 2 * (high * c) * p + left;
  }

  lemma Triple(h: nat, c: nat, p: nat)
    ensures 2 * (h * c) * p == h * (2 * (c * p))
  {
    assert (h * c) * p == h * (c * p);
  }

  lemma Even(m: nat, r: nat)
    ensures (2 * m + r) % 2 == r % 2
  {
  }

  lemma Forty(b: nat)
    requires b < 39
    ensures FORTYBITS == 2 * (Pow2(39 - b) * Pow2(b))
  {
    Pow2ThirtyNine();
    Pow2Add(39 - b, b);
  }

  lemma Pow2ThirtyNine()
    ensures 2 * Pow2(39) == FORTYBITS
  {
    Pow2Times256(31);
    Pow2Times256(23);
    Pow2Times256(15);
    Pow2Times256(7);
  }
}
