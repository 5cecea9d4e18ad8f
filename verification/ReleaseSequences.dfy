// Release sequences: what a reader of a write synchronizes with.
// `get_hb_from_write` walks back over the read-modify-writes a value came
// through and caches what it learns in their `rf_cv`.

module ReleaseSequences {
  import opened Options
  import opened Clocks

  datatype MemoryOrder = Relaxed | Acquire | Release | AcqRel | SeqCst {
    predicate IsAcquire() {
      Acquire? || AcqRel? || SeqCst?
    }

    predicate IsRelease() {
      Release? || AcqRel? || SeqCst?
    }
  }

  ghost predicate Same(c: Clock, d: Clock) {
    forall t: nat :: At(c, t) == At(d, t)
  }

  function OrZero(c: Option<Clock>): Clock {
    if c.Some? then c.value else []
  }

  // What one write of a release sequence contributes: its own clock if it is a
  // release, else the clock of the last release fence before it in its thread.
  ghost function Own(w: WriteAction): Clock {
    if w.order.IsRelease() then w.cv else OrZero(w.lastFenceRelease)
  }

  // What the head of every release sequence behind `w` heard, joined.
  ghost function HbFromWrite(w: WriteAction): Clock
    decreases w.num
  {
    if w.readsFrom != null && w.readsFrom.num < w.num then Join(HbFromWrite(w.readsFrom), Own(w)) else Own(w)
  }

  // Clock `d` is above what write `h` heard before it released its value, or
  // before the last release fence of its thread if it is relaxed or acquires.
  ghost predicate CoversWrite(d: Clock, h: WriteAction) {
    match h.order
    case Release | AcqRel | SeqCst => Leq(h.cv, d)
    case Relaxed | Acquire => h.lastFenceRelease.Some? ==> Leq(h.lastFenceRelease.value, d)
  }

  lemma {:induction false} HbFromWriteIsLeastUpperBound(w: WriteAction, d: Clock)
    requires Sound(w)
    ensures Leq(HbFromWrite(w), d) <==> forall h :: h in w.chain ==> CoversWrite(d, h)
    decreases w.num
  {
    assert Leq(Own(w), d) <==> CoversWrite(d, w);
    if w.isRmw {
      HbFromWriteIsLeastUpperBound(w.readsFrom, d);
      JoinIsLeastUpperBound(HbFromWrite(w.readsFrom), Own(w), d);
      assert forall h :: h in w.chain <==> h == w || h in w.readsFrom.chain;
    }
  }

  // What a reader inherits, by the order of the write: its clock, or the clock
  // of the last release fence of its thread, or nothing; and from a
  // read-modify-write on top of that what readers of the write before inherit.
  lemma InheritedByOrder(w: WriteAction)
    requires Sound(w)
    ensures !w.isRmw && w.order in {Release, AcqRel, SeqCst} ==> Same(HbFromWrite(w), w.cv)
    ensures !w.isRmw && w.order in {Relaxed, Acquire} && w.lastFenceRelease.Some? ==>
      Same(HbFromWrite(w), w.lastFenceRelease.value)
    ensures !w.isRmw && w.order in {Relaxed, Acquire} && w.lastFenceRelease.None? ==> Same(HbFromWrite(w), [])
    ensures w.isRmw && w.order in {Release, AcqRel, SeqCst} ==>
      Same(HbFromWrite(w), Join(HbFromWrite(w.readsFrom), w.cv))
    ensures w.isRmw && w.order in {Relaxed, Acquire} && w.lastFenceRelease.Some? ==>
      Same(HbFromWrite(w), Join(HbFromWrite(w.readsFrom), w.lastFenceRelease.value))
    ensures w.isRmw && w.order in {Relaxed, Acquire} && w.lastFenceRelease.None? ==>
      Same(HbFromWrite(w), HbFromWrite(w.readsFrom))
  {
    assert w.isRmw ==> Same(Join(HbFromWrite(w.readsFrom), []), HbFromWrite(w.readsFrom));
  }

  // Only a read-modify-write reads, and only from an older write; if it both
  // acquires and releases, its clock already covers what it read.
  ghost predicate Sound(w: WriteAction)
    decreases w.num
  {
    && (w.isRmw <==> w.readsFrom != null)
    && w.chain == {w} + (if w.readsFrom == null then {} else w.readsFrom.chain)
    && (w.isRmw ==>
          && w.readsFrom.num < w.num
          && Sound(w.readsFrom)
          && (w.order.IsAcquire() && w.order.IsRelease() ==> Leq(HbFromWrite(w.readsFrom), w.cv)))
  }

  ghost predicate CacheOk(w: WriteAction)
    reads w
  {
    w.rfCv.Some? ==> Same(w.rfCv.value, HbFromWrite(w))
  }

  ghost predicate CachesOk(ws: set<WriteAction>)
    reads ws
  {
    forall w {:trigger CacheOk(w)} :: w in ws ==> CacheOk(w)
  }

  lemma ChainStep(w: WriteAction)
    requires Sound(w) && w.isRmw
    ensures w.chain == {w} + w.readsFrom.chain && w.readsFrom in w.chain
    ensures HbFromWrite(w) == Join(HbFromWrite(w.readsFrom), Own(w))
  {
  }

  class WriteAction {
    const num: nat
    const order: MemoryOrder
    const isRmw: bool
    const readsFrom: WriteAction?
    const cv: Clock
    const lastFenceRelease: Option<Clock>
    // The writes a value came through: this one, what it read if it is a
    // read-modify-write, and so on.
    ghost const chain: set<WriteAction>
    var rfCv: Option<Clock>

    constructor Store(num: nat, order: MemoryOrder, cv: Clock, fence: Option<Clock>)
      ensures Sound(this) && chain == {this} && CacheOk(this)
      ensures this.num == num && this.order == order && this.cv == cv && lastFenceRelease == fence
      ensures !isRmw && readsFrom == null && rfCv == None
    {
      this.num, this.order, this.cv, this.lastFenceRelease := num, order, cv, fence;
      isRmw, readsFrom, chain, rfCv := false, null, {this}, None;
    }

    // A read-modify-write: reads, synchronizing if it acquires, and then counts
    // as a write.
    constructor Rmw(num: nat, order: MemoryOrder, rf: WriteAction, cv: Clock, fence: Option<Clock>)
      requires Sound(rf) && CachesOk(rf.chain) && rf.num < num
      modifies rf.chain
      ensures Sound(this) && chain == {this} + rf.chain && CachesOk(chain)
      ensures this.num == num && this.order == order && lastFenceRelease == fence
      ensures isRmw && readsFrom == rf && rfCv == None
      ensures order in {Acquire, AcqRel, SeqCst} ==> Same(this.cv, Join(cv, HbFromWrite(rf)))
      ensures order in {Relaxed, Release} ==> this.cv == cv
      ensures forall w :: w in rf.chain && old(w.rfCv).Some? ==> w.rfCv == old(w.rfCv)
    {
      var mine := cv;
      if order.IsAcquire() {
        var hb := rf.GetHbFromWrite();
        if hb.Some? {
          var merged, _ := Merge(mine, hb.value);
          mine := merged;
        }
      }
      this.num, this.order, this.cv, this.lastFenceRelease := num, order, mine, fence;
      isRmw, readsFrom, chain, rfCv := true, rf, {this} + rf.chain, None;
      new;
      ChainStep(this);
    }

    // The clock a reader of this write inherits, or None for the all-zero clock.
    method GetHbFromWrite() returns (vec: Option<Clock>)
      requires Sound(this) && CachesOk(chain)
      modifies chain
      ensures CachesOk(chain)
      ensures Same(OrZero(vec), HbFromWrite(this))
      // The least clock that covers every write the value came through.
      ensures forall d: Clock :: Leq(OrZero(vec), d) <==> forall h :: h in chain ==> CoversWrite(d, h)
      ensures forall w :: w in chain && old(w.rfCv).Some? ==> w.rfCv == old(w.rfCv)
    {
      var rf, processset := CollectUncached();
      vec := None;
      var i := |processset|;
      while true
        invariant 0 <= i <= |processset| && Pending(processset, this)
        invariant rf == Stop(processset, this, i) && rf in chain && Sound(rf) && Ready(rf, vec)
        invariant CachesOk(chain)
        invariant forall w :: w in chain && old(w.rfCv).Some? ==> w.rfCv == old(w.rfCv)
        decreases i
      {
        vec := rf.Contribute(vec);
        if i == 0 {
          assert processset != [] ==> PendingAt(processset, this, 0);
          break;
        }
        i := i - 1;
        assert PendingAt(processset, this, i);
        assert i + 1 < |processset| ==> PendingAt(processset, this, i + 1);
        rf := processset[i];
      }
      forall d: Clock ensures Leq(OrZero(vec), d) <==> forall h :: h in chain ==> CoversWrite(d, h) {
        HbFromWriteIsLeastUpperBound(this, d);
      }
    }

    // The read-modify-writes to process, newest first, and the write to start
    // from.
    method CollectUncached() returns (rf: WriteAction, processset: seq<WriteAction>)
      requires Sound(this)
      ensures Pending(processset, this) && rf == LastRead(processset, this) && rf in chain && Sound(rf)
      ensures !rf.isRmw || AcquiresAndReleases(rf) || rf.rfCv.Some?
    {
      rf, processset := this, [];
      while rf.isRmw && !AcquiresAndReleases(rf) && rf.rfCv.None?
        invariant Pending(processset, this) && rf == LastRead(processset, this)
        invariant Sound(rf) && rf.chain <= chain && rf in rf.chain
        decreases rf.num
      {
        ChainStep(rf);
        ghost var before := processset;
        processset := processset + [rf];
        forall k: nat | k < |processset| ensures PendingAt(processset, this, k) {
          assert k < |before| ==> PendingAt(before, this, k);
        }
        rf := rf.readsFrom;
      }
    }

    // One step back towards the reader: from what the write before this one
    // gives its readers to what this one does.
    method Contribute(before: Option<Clock>) returns (vec: Option<Clock>)
      requires Sound(this) && CacheOk(this)
      requires Ready(this, before)
      modifies this
      ensures CacheOk(this) && Same(OrZero(vec), HbFromWrite(this))
      ensures old(rfCv).Some? ==> rfCv == old(rfCv)
    {
      vec := before;
      if rfCv.Some? {
        vec := rfCv;
      } else if order.IsAcquire() && order.IsRelease() {
        vec := Some(cv);
      } else if order.IsRelease() && !isRmw {
        vec := Some(cv);
      } else if order.IsRelease() {
        var merged, _ := Merge(OrZero(vec), cv);
        vec := Some(merged);
        rfCv := vec;
      } else {
        if lastFenceRelease.Some? {
          if vec.None? {
            vec := lastFenceRelease;
          } else {
            var merged, _ := Merge(vec.value, lastFenceRelease.value);
            vec := Some(merged);
          }
        } else if vec.None? && isRmw {
          vec := Some([]);
        }
        rfCv := vec;
      }
    }
  }

  predicate AcquiresAndReleases(w: WriteAction) {
    w.order.IsAcquire() && w.order.IsRelease()
  }

  // `vec` is what the write before `rf` gives its readers, if `rf` has to know.
  ghost predicate Ready(rf: WriteAction, vec: Option<Clock>)
    requires Sound(rf)
    reads rf
  {
    && (rf.isRmw && !AcquiresAndReleases(rf) && rf.rfCv.None? ==> Same(OrZero(vec), HbFromWrite(rf.readsFrom)))
    && (!rf.isRmw ==> vec.None?)
  }

  // The write read by the last of `ps`, or `w` itself.
  ghost function LastRead(ps: seq<WriteAction>, w: WriteAction): WriteAction? {
    if ps == [] then w else ps[|ps| - 1].readsFrom
  }

  ghost function Stop(ps: seq<WriteAction>, w: WriteAction, i: nat): WriteAction?
    requires i <= |ps|
  {
    if i == |ps| then LastRead(ps, w) else ps[i]
  }

  // Read-modify-writes from `w` back, each read by the one before.
  ghost predicate Pending(ps: seq<WriteAction>, w: WriteAction) {
    forall k {:trigger PendingAt(ps, w, k)} :: 0 <= k < |ps| ==> PendingAt(ps, w, k)
  }

  ghost predicate PendingAt(ps: seq<WriteAction>, w: WriteAction, k: nat)
    requires k < |ps|
  {
    && ps[k] in w.chain && Sound(ps[k]) && ps[k].isRmw && !AcquiresAndReleases(ps[k])
    && ps[k] == if k == 0 then w else ps[k - 1].readsFrom
  }
}
