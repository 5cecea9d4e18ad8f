// The allocator state the tree bins live in, and allocation from them:
// `insert_large_chunk`, `unlink_large_chunk`, `tmalloc_large` and `tmalloc_small`
// in `malloc.c`.

module LargeMalloc {
  import opened Options
  import opened Arithmetic
  import opened TreeBinIndex
  import opened SizeTrie
  import opened TreeBins

  class MallocState {
    var treebins: seq<Tree>
    // The indices of the bits set in the map of non-empty bins.
    var treemap: set<nat>
    var smallbins: set<Chunk>
    // The designated victim.
    var dv: Chunk

    ghost predicate Valid()
      reads this
    {
      && BinsOk(treebins) && dv.size < WORD
      && forall i: nat {:trigger i in treemap} :: i in treemap <==> i < NTREEBINS && treebins[i].Node?
    }

    // The chunks in the trees.
    ghost function Binned(): iset<Chunk>
      reads this
    {
      iset c | InBins(treebins, c)
    }

    constructor (dv: Chunk)
      requires dv.size < WORD
      ensures Valid() && this.dv == dv && smallbins == {}
      ensures Binned() == iset{}
    {
      treebins, treemap, smallbins := seq(NTREEBINS, i => Leaf), {}, {};
      this.dv := dv;
    }

    method InsertLargeChunk(x: Chunk)
      requires Valid() && MINLARGESIZE <= x.size < WORD && Indexable(x.size) && x !in Binned()
      modifies this`treebins, this`treemap
      ensures Valid()
      ensures Binned() == old(Binned()) + iset{x}
    {
      var i := TreeIndex(x.size);
      StartBitsAt(x.size, i);
      var bits := StartBits(x.size, i);
      var t := treebins[i];
      ghost var was := treebins;
      forall c ensures Holds(Insert(t, x, bits), c) <==> Holds(t, c) || c == x {
        InsertHolds(t, x, bits, BinLo(i), BinBits(i), c);
      }
      InsertKeepsTrie(t, x, bits, BinLo(i), BinBits(i));
      if i !in treemap {
        treemap := treemap + {i};
      }
      treebins := treebins[i := Insert(t, x, bits)];
      ReplacedBin(was, i, treebins[i]);
    }

    // `index` is the bin recorded in the chunk when it was inserted.
    method UnlinkLargeChunk(x: Chunk, index: nat)
      requires Valid() && index < NTREEBINS && Holds(treebins[index], x)
      modifies this`treebins, this`treemap
      ensures Valid()
      ensures Binned() == old(Binned()) - iset{x}
    {
      var t := treebins[index];
      StartBitsAt(x.size, index);
      var bits := StartBits(x.size, index);
      ghost var was := treebins;
      forall c ensures Holds(Unlink(t, x, bits), c) <==> Holds(t, c) && c != x {
        UnlinkHolds(t, x, bits, BinLo(index), BinBits(index), c);
      }
      UnlinkKeepsTrie(t, x, bits, BinLo(index), BinBits(index));
      treebins := treebins[index := Unlink(t, x, bits)];
      if treebins[index].Leaf? {
        treemap := treemap - {index};
      }
      OneBin(was, index, x);
      ReplacedBin(was, index, treebins[index]);
    }

    // `compute_bit2idx` of the least bit of the map above `idx`.
    method NextBin(idx: nat) returns (i: nat)
      requires idx < NTREEBINS
      ensures idx < i <= NTREEBINS && (i < NTREEBINS ==> i in treemap)
      ensures forall j: nat :: idx < j < i ==> j !in treemap
    {
      i := idx + 1;
      while i < NTREEBINS && i !in treemap
        invariant idx < i <= NTREEBINS && forall j: nat :: idx < j < i ==> j !in treemap
      {
        i := i + 1;
      }
    }

    // The smallest binned chunk of at least `nb` bytes, in whatever bin.
    method FindLarge(nb: nat) returns (v: Option<Chunk>, rsize: nat, index: nat)
      requires Valid() && MINLARGESIZE <= nb < WORD && Indexable(nb)
      ensures Best(v, rsize, nb)
      ensures v.Some? ==> index < NTREEBINS && Holds(treebins[index], v.value)
      ensures forall c {:trigger c in Binned()} :: c in Binned() && c.size >= nb ==> NoWorse(v, c)
    {
      var idx := TreeIndex(nb);
      v, rsize := SearchBin(nb, idx);
      index := idx;
      if v.None? {
        index := NextBin(idx);
        if index < NTREEBINS {
          v, rsize := SmallestAbove(nb, idx, index);
        }
        forall c | c in Binned() && c.size >= nb ensures NoWorse(v, c) {
          var j := BinOf(c);
          assert index <= j by {
            assert j != idx && j in treemap;
            BinAbove(treebins, nb, idx, c, j);
          }
          if index < j {
            OtherBins(treebins, nb, idx, v, index, c, j);
          }
        }
      } else {
        forall c | c in Binned() && c.size >= nb ensures NoWorse(v, c) {
          var j := BinOf(c);
          if j != idx {
            OtherBins(treebins, nb, idx, v, idx, c, j);
          }
        }
      }
    }

    lemma BinOf(c: Chunk) returns (j: nat)
      requires Valid() && c in Binned()
      ensures j in treemap && j < NTREEBINS && Holds(treebins[j], c)
    {
      j :| 0 <= j < |treebins| && Holds(treebins[j], c);
      assert treebins[j].Node?;
    }

    // The smallest chunk of a bin whose sizes are all above `nb`.
    method SmallestAbove(nb: nat, idx: nat, i: nat) returns (v: Option<Chunk>, rsize: nat)
      requires Valid() && 0 < nb < WORD && InBin(nb, idx) && idx < i < NTREEBINS && i in treemap
      ensures Best(v, rsize, nb) && v.Some? && Holds(treebins[i], v.value)
      ensures forall c {:trigger Holds(treebins[i], c)} :: Holds(treebins[i], c) ==> NoWorse(v, c)
    {
      forall c | Holds(treebins[i], c) ensures c.size >= nb {
        BinsAreOrdered(nb, idx, c.size, i);
      }
      v, rsize := SmallestOf(treebins[i], nb, None, WORD - nb, BinLo(i), BinBits(i));
      assert Holds(treebins[i], Base(treebins[i]));
    }

    // The part of the search that follows the bits of `nb` in its own bin.
    method SearchBin(nb: nat, idx: nat) returns (v: Option<Chunk>, rsize: nat)
      requires Valid() && 0 < nb < WORD && InBin(nb, idx)
      ensures Best(v, rsize, nb) && (v.Some? ==> Holds(treebins[idx], v.value))
      ensures forall c {:trigger Holds(treebins[idx], c)} :: Holds(treebins[idx], c) && c.size >= nb ==> NoWorse(v, c)
    {
      StartBitsAt(nb, idx);
      var t;
      ghost var lo: nat, k: nat := 0, 0;
      ghost var t0 := treebins[idx];
      t, v, rsize := treebins[idx], None, WORD - nb;
      if t.Node? {
        t, v, rsize, lo, k := FollowBits(t, nb, StartBits(nb, idx), BinLo(idx), BinBits(idx));
        forall c | Holds(t, c) ensures c.size < WORD && (c.size >= nb || NoWorse(v, Chunk(0, nb))) {
          assert Holds(t0, c);
          if rsize > 0 {
            TrieRange(t, lo, k, c);
          }
        }
        ghost var v0 := v;
        v, rsize := SmallestOf(t, nb, v, rsize, lo, k);
        forall c | Holds(t0, c) && c.size >= nb ensures NoWorse(v, c) {
          if t.Node? {
            assert Holds(t, Base(t));
          }
          assert rsize > 0 ==> LeftToSee(c, v0, t, lo, k);
        }
      }
    }

    // ---- Allocation ----

    // The chunks that are free: in a tree bin, in a small bin, or the victim.
    ghost function FreeSet(): iset<Chunk>
      reads this
    {
      Free(Binned(), smallbins, dv)
    }

    ghost predicate Sound()
      reads this
    {
      Valid() && BinsSound(Binned(), smallbins, dv)
    }

    // `insert_chunk`
    method InsertChunk(x: Chunk)
      requires Valid() && Insertable(x.size) && x !in Binned()
      modifies this`treebins, this`treemap, this`smallbins
      ensures Valid()
      ensures Binned() == old(Binned()) + if x.size < 256 then iset{} else iset{x}
      ensures smallbins == old(smallbins) + if x.size < 256 then {x} else {}
    {
      if x.size < MINLARGESIZE {
        smallbins := smallbins + {x};
      } else {
        InsertLargeChunk(x);
      }
    }

    // Takes `v` out of its bin, hands out `nb` bytes of it and bins the rest, or
    // hands out all of it if the rest would be too small to be a chunk.
    method Carve(v: Chunk, index: nat, nb: nat) returns (mem: Chunk)
      requires Sound() && index < NTREEBINS && Holds(treebins[index], v) && 0 < nb <= v.size
      requires Rest(v, nb).Some? ==> Insertable(Rest(v, nb).value.size)
      modifies this`treebins, this`treemap, this`smallbins
      ensures Sound() && IsCut(v, nb, mem, old(FreeSet()), FreeSet())
    {
      assert v in Binned();
      CarveSound(Binned(), smallbins, dv, v, nb);
      UnlinkLargeChunk(v, index);
      mem := BinRest(v, nb);
      CutIsCut(v, nb, old(FreeSet()));
    }

    method BinRest(v: Chunk, nb: nat) returns (mem: Chunk)
      requires Valid() && 0 < nb <= v.size
      requires Rest(v, nb).Some? ==> Insertable(Rest(v, nb).value.size) && Rest(v, nb).value !in Binned()
      modifies this`treebins, this`treemap, this`smallbins
      ensures Valid() && mem == Cut(v, nb) && smallbins == CarvedSmall(old(smallbins), v, nb)
      ensures Binned() == old(Binned()) + RestBinned(v, nb)
    {
      var rsize := v.size - nb;
      if rsize < MINCHUNKSIZE {
        mem := Chunk(v.addr, rsize + nb);
      } else {
        InsertChunk(Chunk(v.addr + nb, rsize));
        mem := Chunk(v.addr, nb);
      }
    }

    // Allocates from the best fit among the binned chunks, and fails just when
    // none is large enough or the designated victim fits at least as well.  The
    // request and what is left of the chunk must have a right tree index.
    method TmallocLarge(nb: nat) returns (mem: Option<Chunk>, ghost v: Chunk)
      requires Sound() && MINLARGESIZE <= nb < WORD && Indexable(nb)
      requires forall c {:trigger BestFit(c, nb)} :: BestFit(c, nb) && c.size >= nb + 32 ==> Insertable(c.size - nb)
      modifies this`treebins, this`treemap, this`smallbins
      ensures Sound()
      ensures mem.None? <==> forall c {:trigger c in old(Binned())} :: c in old(Binned()) && c.size >= nb ==>
        nb <= dv.size <= c.size
      ensures mem.None? ==> unchanged(this)
      ensures mem.Some? ==> old(BestFit(v, nb)) && IsCut(v, nb, mem.value, old(FreeSet()), FreeSet())
    {
      var best, rsize, index := FindLarge(nb);
      mem, v := None, dv;
      if best.Some? {
        v := best.value;
        assert v in Binned() && BestFit(v, nb);
        VictimFitsWorse(v.size, dv.size, nb);
        if rsize < Remainder(dv.size, nb) {
          var cut := Carve(best.value, index, nb);
          mem := Some(cut);
        }
      }
    }

    // `v` is a binned chunk that holds `nb` bytes, and no smaller one does.
    ghost predicate BestFit(v: Chunk, nb: nat)
      reads this
    {
      v in Binned() && v.size >= nb && forall c {:trigger c in Binned()} :: c in Binned() && c.size >= nb ==>
        v.size <= c.size
    }

    // A small request, larger than the victim, from the smallest binned chunk.
    // The rest becomes the victim, and the victim goes to a small bin.
    method TmallocSmall(nb: nat) returns (mem: Chunk, ghost v: Chunk)
      requires Sound() && dv.size < nb < MINLARGESIZE && treemap != {}
      modifies this
      ensures Sound()
      ensures old(BestFit(v, nb)) && IsCut(v, nb, mem, old(FreeSet()), FreeSet())
      ensures v.size < nb + 32 ==> dv == old(dv) && smallbins == old(smallbins)
      ensures v.size >= nb + 32 ==>
        && dv == Chunk(v.addr + nb, v.size - nb)
        && smallbins == old(smallbins) + (if old(dv).size == 0 then {} else {old(dv)})
    {
      var index, best, rsize := FindSmallest(nb);
      v := best;
      assert v in Binned();
      BinnedIsLarge(v, index);
      VictimSound(Binned(), smallbins, dv, v, nb);
      UnlinkLargeChunk(best, index);
      if rsize < MINCHUNKSIZE {
        mem := Chunk(best.addr, rsize + nb);
      } else {
        mem := Chunk(best.addr, nb);
        ReplaceDv(Chunk(best.addr + nb, rsize));
      }
      assert smallbins == SmallAfter(old(smallbins), old(dv), Rest(v, nb)) && dv == DvAfter(old(dv), Rest(v, nb));
      CutIsCut(v, nb, old(FreeSet()));
    }

    // `replace_dv`
    method ReplaceDv(p: Chunk)
      requires Valid() && p.size < WORD
      modifies this`smallbins, this`dv
      ensures Valid() && Binned() == old(Binned())
      ensures smallbins == SmallAfter(old(smallbins), old(dv), Some(p)) && dv == p
    {
      if dv.size != 0 {
        smallbins := smallbins + {dv};
      }
      dv := p;
    }

    lemma BinnedIsLarge(c: Chunk, index: nat)
      requires Valid() && index < NTREEBINS && Holds(treebins[index], c)
      ensures c.size >= MINLARGESIZE
    {
      MinSizeMonotone(0, index);
      MinSizes(0);
      Pow2Times256(0);
    }

    // The leftmost path of the first non-empty bin.
    method FindSmallest(nb: nat) returns (index: nat, v: Chunk, rsize: nat)
      requires Valid() && treemap != {} && 0 < nb < MINLARGESIZE
      ensures index < NTREEBINS && Holds(treebins[index], v) && BestFit(v, nb) && rsize == v.size - nb
    {
      index := LeastBin();
      v, rsize := SmallestInBin(nb, index);
      forall c | c in Binned() ensures v.size <= c.size {
        var j := BinOf(c);
        if index < j {
          BinsAreOrdered(v.size, index, c.size, j);
        }
      }
    }

    // `compute_bit2idx` of the least bit of the map.
    method LeastBin() returns (index: nat)
      requires treemap != {}
      ensures index in treemap && forall j: nat :: j < index ==> j !in treemap
    {
      index := 0;
      ghost var i :| i in treemap;
      while index !in treemap
        invariant index <= i && forall j: nat :: j < index ==> j !in treemap
        decreases i - index
      {
        index := index + 1;
      }
    }

    method SmallestInBin(nb: nat, index: nat) returns (v: Chunk, rsize: nat)
      requires Valid() && 0 < nb < MINLARGESIZE && index in treemap
      ensures Holds(treebins[index], v) && rsize == v.size - nb && v.size >= MINLARGESIZE
      ensures forall c {:trigger Holds(treebins[index], c)} :: Holds(treebins[index], c) ==> v.size <= c.size
    {
      forall c | Holds(treebins[index], c) ensures c.size >= MINLARGESIZE {
        BinnedIsLarge(c, index);
      }
      var t := treebins[index];
      var best;
      best, rsize := SmallestOf(t, nb, None, WORD - nb, BinLo(index), BinBits(index));
      assert Holds(t, Base(t));
      v := best.value;
    }
  }

  ghost predicate Apart(c: Chunk, d: Chunk) {
    c.addr + c.size <= d.addr || d.addr + d.size <= c.addr
  }

  // `mem` is what chunk `v` gives for a request of `nb` bytes: its first `nb`
  // bytes if a rest of at least 32 stays free, and all of it otherwise.
  ghost predicate IsCut(v: Chunk, nb: nat, mem: Chunk, free: iset<Chunk>, free': iset<Chunk>) {
    && mem.addr == v.addr
    && (v.size < nb + 32 ==> mem.size == v.size && free' == free - iset{v})
    && (v.size >= nb + 32 ==>
          && mem.size == nb && Chunk(v.addr + nb, v.size - nb) in free'
          && free' == free - iset{v} + iset{Chunk(v.addr + nb, v.size - nb)})
  }

  lemma CutIsCut(v: Chunk, nb: nat, free: iset<Chunk>)
    ensures IsCut(v, nb, Cut(v, nb), free, Carved(free, v, nb))
  {
  }

  // What is handed out of chunk `v` for a request of `nb` bytes, and what stays
  // free of it.
  function Cut(v: Chunk, nb: nat): Chunk {
    if v.size < nb + MINCHUNKSIZE then v else Chunk(v.addr, nb)
  }

  function Rest(v: Chunk, nb: nat): Option<Chunk> {
    if v.size < nb + MINCHUNKSIZE then None else Some(Chunk(v.addr + nb, v.size - nb))
  }

  ghost predicate Disjoint(free: iset<Chunk>) {
    && (forall c {:trigger c in free} :: c in free ==> c.size > 0)
    && forall c, d {:trigger Apart(c, d)} :: c in free && d in free && c != d ==> Apart(c, d)
  }

  // What is free once chunk `v` has been cut.
  ghost function Carved(free: iset<Chunk>, v: Chunk, nb: nat): iset<Chunk> {
    free - iset{v} + if Rest(v, nb).Some? then iset{Rest(v, nb).value} else iset{}
  }

  // The rest is a new chunk, and what is handed out overlaps nothing free.
  lemma CarvedOk(free: iset<Chunk>, v: Chunk, nb: nat)
    requires Disjoint(free) && v in free && 0 < nb <= v.size
    ensures Disjoint(Carved(free, v, nb))
    ensures Rest(v, nb).Some? ==> Rest(v, nb).value !in free
    ensures forall c {:trigger c in Carved(free, v, nb)} :: c in Carved(free, v, nb) ==> Apart(c, Cut(v, nb))
  {
    var after, rest := Carved(free, v, nb), Chunk(v.addr + nb, v.size - nb);
    assert rest in free ==> Apart(rest, v);
    forall c, d | c in after && d in after && c != d ensures Apart(c, d) {
      assert c in free ==> Apart(c, v);
      assert d in free ==> Apart(d, v);
    }
    forall c | c in after ensures Apart(c, Cut(v, nb)) {
      assert c in free ==> Apart(c, v);
    }
  }

  // The wrapped comparison says that the victim does not fit at least as well.
  lemma VictimFitsWorse(size: nat, dvsize: nat, nb: nat)
    requires 0 < nb <= size < WORD && dvsize < WORD
    ensures Remainder(size, nb) < Remainder(dvsize, nb) <==> !(nb <= dvsize <= size)
  {
  }

  ghost function Free(binned: iset<Chunk>, smallbins: set<Chunk>, dv: Chunk): iset<Chunk> {
    binned + (iset c | c in smallbins) + if dv.size > 0 then iset{dv} else iset{}
  }

  // A size that goes to a small bin, or has a right tree index.
  predicate Insertable(s: nat) {
    s < MINLARGESIZE || (s < WORD && Indexable(s))
  }

  // Free chunks do not overlap, each is in one place, and large ones are in trees.
  ghost predicate BinsSound(binned: iset<Chunk>, smallbins: set<Chunk>, dv: Chunk) {
    && Disjoint(Free(binned, smallbins, dv))
    && (forall c {:trigger c in binned} :: c in binned ==> MINLARGESIZE <= c.size < WORD)
    && (forall c {:trigger c in smallbins} :: c in smallbins ==> c.size < MINLARGESIZE)
    && dv !in binned && dv !in smallbins
  }

  // The rest, if it goes to a tree.
  ghost function RestBinned(v: Chunk, nb: nat): iset<Chunk> {
    match Rest(v, nb)
    case None => iset{}
    case Some(r) => if r.size < MINLARGESIZE then iset{} else iset{r}
  }

  ghost function CarvedBinned(binned: iset<Chunk>, v: Chunk, nb: nat): iset<Chunk> {
    binned - iset{v} + RestBinned(v, nb)
  }

  function CarvedSmall(smallbins: set<Chunk>, v: Chunk, nb: nat): set<Chunk> {
    smallbins + match Rest(v, nb) case None => {} case Some(r) => if r.size < MINLARGESIZE then {r} else {}
  }

  // The rest of a chunk goes where its size says.
  lemma CarveSound(binned: iset<Chunk>, smallbins: set<Chunk>, dv: Chunk, v: Chunk, nb: nat)
    requires BinsSound(binned, smallbins, dv) && v in binned && 0 < nb <= v.size
    ensures BinsSound(CarvedBinned(binned, v, nb), CarvedSmall(smallbins, v, nb), dv)
    ensures Rest(v, nb).Some? ==> Rest(v, nb).value !in binned
    ensures Free(CarvedBinned(binned, v, nb), CarvedSmall(smallbins, v, nb), dv) ==
      Carved(Free(binned, smallbins, dv), v, nb)
  {
    CarvedOk(Free(binned, smallbins, dv), v, nb);
    var binned', smallbins' := CarvedBinned(binned, v, nb), CarvedSmall(smallbins, v, nb);
    assert Free(binned', smallbins', dv) == Carved(Free(binned, smallbins, dv), v, nb);
  }

  // Or it becomes the victim, and the victim goes to a small bin.
  lemma VictimSound(binned: iset<Chunk>, smallbins: set<Chunk>, dv: Chunk, v: Chunk, nb: nat)
    requires BinsSound(binned, smallbins, dv) && v in binned && dv.size < nb < MINLARGESIZE
    ensures var smallbins', dv' := SmallAfter(smallbins, dv, Rest(v, nb)), DvAfter(dv, Rest(v, nb));
      && BinsSound(binned - iset{v}, smallbins', dv') && dv'.size < WORD
      && Free(binned - iset{v}, smallbins', dv') == Carved(Free(binned, smallbins, dv), v, nb)
  {
    CarvedOk(Free(binned, smallbins, dv), v, nb);
    var smallbins', dv' := SmallAfter(smallbins, dv, Rest(v, nb)), DvAfter(dv, Rest(v, nb));
    assert Free(binned - iset{v}, smallbins', dv') == Carved(Free(binned, smallbins, dv), v, nb);
  }

  function SmallAfter(smallbins: set<Chunk>, dv: Chunk, rest: Option<Chunk>): set<Chunk> {
    if rest.Some? && dv.size != 0 then smallbins + {dv} else smallbins
  }

  function DvAfter(dv: Chunk, rest: Option<Chunk>): Chunk {
    if rest.Some? then rest.value else dv
  }

  method TreeIndex(s: nat) returns (i: nat)
    requires MINLARGESIZE <= s && Indexable(s)
    ensures i == ComputeTreeIndex(s) && InBin(s, i)
  {
    IndexRightIff(s);
    i := ComputeTreeIndex(s);
  }

  // ---- Bins as a whole ----

  lemma ReplacedBin(was: seq<Tree>, i: nat, t: Tree)
    requires i < |was|
    ensures forall j :: 0 <= j < |was| && j != i ==> was[i := t][j] == was[j]
  {
  }

  ghost predicate InBins(bins: seq<Tree>, c: Chunk) {
    exists i {:trigger bins[i]} :: 0 <= i < |bins| && Holds(bins[i], c)
  }

  ghost predicate BinsOk(bins: seq<Tree>) {
    |bins| == NTREEBINS && forall j {:trigger bins[j]} :: 0 <= j < NTREEBINS ==> BinOk(bins[j], j)
  }

  lemma BinAbove(bins: seq<Tree>, nb: nat, idx: nat, c: Chunk, j: nat)
    requires BinsOk(bins) && InBin(nb, idx) && j < NTREEBINS && Holds(bins[j], c) && c.size >= nb
    ensures idx <= j
  {
    if j < idx {
      BinsAreOrdered(c.size, j, nb, idx);
    }
  }

  // Lower bins hold smaller chunks than asked for, higher bins larger ones than
  // found.
  lemma OtherBins(bins: seq<Tree>, nb: nat, idx: nat, v: Option<Chunk>, index: nat, c: Chunk, j: nat)
    requires BinsOk(bins) && InBin(nb, idx) && idx <= index && j < NTREEBINS && (j < idx || index < j)
    requires Holds(bins[j], c) && c.size >= nb
    requires index < NTREEBINS ==> v.Some? && Holds(bins[index], v.value)
    ensures index < j && NoWorse(v, c)
  {
    if j < idx {
      BinsAreOrdered(c.size, j, nb, idx);
    } else {
      BinsAreOrdered(v.value.size, index, c.size, j);
    }
  }

  // A chunk is in the bin of its size and no other.
  lemma OneBin(bins: seq<Tree>, i: nat, x: Chunk)
    requires BinsOk(bins)
    requires i < NTREEBINS && Holds(bins[i], x)
    ensures forall j {:trigger bins[j]} :: 0 <= j < NTREEBINS && Holds(bins[j], x) ==> j == i
  {
    forall j | 0 <= j < NTREEBINS && Holds(bins[j], x) ensures j == i {
      if j < i {
        BinsAreOrdered(x.size, j, x.size, i);
      } else if i < j {
        BinsAreOrdered(x.size, i, x.size, j);
      }
    }
  }
}
