// The bucket queues with a rebuild and with an admission threshold
// (`structure1.hpp`, `structure3.hpp`).

module BucketQueues {
  import opened Options
  import opened BinaryHeap
  import opened CandidateQueues

  // Nothing in the lower tier is above anything in the upper.
  predicate AtLeast(upper: seq<Item>, lower: seq<Item>) {
    forall x, y :: x in upper && y in lower ==> y.score <= x.score
  }

  // ---- `ThresholdBucketQueueDS` ----

  class ThresholdBucketQueue {
    const m: nat
    // After how many operations to rebuild; never, if negative.
    const T: int
    var good: seq<Item>
    var bad: seq<Item>
    var opsSinceRebuild: nat

    ghost predicate Valid()
      reads this
    {
      && m > 0 && |good| <= m && IsHeap(good, false)
      && (T >= 0 ==> opsSinceRebuild == 0 || opsSinceRebuild < T)
      && (opsSinceRebuild == 0 ==> Tiered())
    }

    // The good pile holds the best there are, and as many as it can.
    ghost predicate Tiered()
      reads this
    {
      (bad != [] ==> |good| == m) && AtLeast(good, bad)
    }

    ghost function Items(): multiset<Item>
      reads this
    {
      multiset(good) + multiset(bad)
    }

    constructor (m: nat, T: int)
      requires m > 0
      ensures Valid() && Tiered() && Items() == multiset{} && this.m == m && this.T == T
    {
      this.m, this.T := m, T;
      good, bad, opsSinceRebuild := [], [], 0;
    }

    // `insert` and `update_score`.
    method Insert(cid: int, score: real)
      requires Valid()
      modifies this
      ensures Valid() && Items() == old(Items()) + multiset{Item(score, cid)}
      ensures old(Tiered()) ==> Tiered()
      // Short of a rebuild, only a better item gets into a full good pile, in the
      // place of its lowest.
      ensures T < 0 || old(opsSinceRebuild) + 1 < T ==>
        if |old(good)| < m
        then multiset(good) == multiset(old(good)) + multiset{Item(score, cid)} && bad == old(bad)
        else if score > old(good)[0].score
        then multiset(good) + multiset{old(good)[0]} == multiset(old(good)) + multiset{Item(score, cid)}
        else good == old(good)
    {
      Admit(Item(score, cid));
      CountOperation();
    }

    method Admit(item: Item)
      requires Valid()
      modifies this`good, this`bad
      ensures |good| <= m && IsHeap(good, false) && Items() == old(Items()) + multiset{item}
      ensures old(Tiered()) ==> Tiered()
      ensures if |old(good)| < m
        then multiset(good) == multiset(old(good)) + multiset{item} && bad == old(bad)
        else if item.score > old(good)[0].score
        then multiset(good) + multiset{old(good)[0]} == multiset(old(good)) + multiset{item}
        else good == old(good)
    {
      if |good| < m {
        good := Push(good, item, false);
      } else if item.score > good[0].score {
        ghost var g0, b0 := good, bad;
        LowestGood(good);
        var evicted, rest := Pop(good, false);
        good := Push(rest, item, false);
        bad := bad + [evicted];
        Balance(multiset(g0), multiset(good), multiset(rest), item, evicted);
        Displaced(g0, [], b0, good, [], bad, item, evicted);
        Outweighed(g0, b0, good, bad, item, evicted);
      } else {
        LowestGood(good);
        bad := bad + [item];
      }
    }

    method CountOperation()
      requires m > 0 && |good| <= m && IsHeap(good, false) && (T >= 0 ==> opsSinceRebuild == 0 || opsSinceRebuild < T)
      modifies this
      ensures Valid() && Items() == old(Items()) && (old(Tiered()) ==> Tiered())
      ensures opsSinceRebuild == if 0 <= T <= old(opsSinceRebuild) + 1 then 0 else old(opsSinceRebuild) + 1
      ensures T < 0 || old(opsSinceRebuild) + 1 < T ==> good == old(good) && bad == old(bad)
    {
      opsSinceRebuild := opsSinceRebuild + 1;
      if T >= 0 && opsSinceRebuild >= T {
        Rebuild();
      }
    }

    // Afterwards the good pile is the best `m` of all.
    method Rebuild()
      requires m > 0
      modifies this
      ensures Valid() && Tiered() && Items() == old(Items()) && opsSinceRebuild == 0
      ensures good == [] <==> Items() == multiset{}
    {
      ghost var all := good + bad;
      assert multiset(all) == Items();
      good, bad := TopSplit(good + bad, m);
      opsSinceRebuild := 0;
      assert AtLeast(good, bad);
      assert good == [] <==> all == [];
      assert all != [] ==> all[0] in multiset(all);
    }

    // None, where the original throws, exactly when the queue is empty.  After
    // insertions alone, or a rebuild, what is taken is one of the best `m`.
    method Select() returns (item: Option<Item>)
      requires Valid()
      modifies this
      ensures Valid() && (item.None? ==> old(Items()) == multiset{} && Items() == multiset{})
      ensures item.Some? ==> old(Items()) == Items() + multiset{item.value}
      ensures item.Some? && old(Tiered()) ==> forall y :: y in old(bad) ==> y.score <= item.value.score
      ensures old(good) != [] ==> item == Some(old(good)[|old(good)| - 1])
      ensures old(good) != [] && (T < 0 || old(opsSinceRebuild) + 1 < T) ==>
        good == old(good)[..|old(good)| - 1] && bad == old(bad)
    {
      if good == [] {
        Rebuild();
        if good == [] {
          return None;
        }
      }
      var x := TakeLast();
      CountOperation();
      item := Some(x);
    }

    method TakeLast() returns (x: Item)
      requires Valid() && good != []
      modifies this`good
      ensures |good| <= m && IsHeap(good, false)
      ensures x == old(good)[|old(good)| - 1] && good == old(good)[..|old(good)| - 1]
      ensures old(Items()) == Items() + multiset{x}
      ensures old(Tiered()) ==> forall y :: y in bad ==> y.score <= x.score
    {
      var last := |good| - 1;
      DropLast(good);
      x := good[last];
      assert x in good;
      good := good[..last];
    }
  }

  lemma Outweighed(g0: seq<Item>, b0: seq<Item>, g: seq<Item>, b: seq<Item>, item: Item, evicted: Item)
    requires multiset(g0) + multiset{item} == multiset(g) + multiset{evicted} && b == b0 + [evicted]
    ensures multiset(g) + multiset(b) == multiset(g0) + multiset(b0) + multiset{item}
  {
    assert multiset(g) + multiset(b) == (multiset(g) + multiset{evicted}) + multiset(b0);
  }

  // ---- `MaxHeapBucketQueueDS` ----

  predicate Bounds(threshold: real, good: seq<Item>) {
    forall g :: g in good ==> threshold <= g.score
  }

  class MaxHeapBucketQueue {
    const m: nat
    const r: nat
    var good: seq<Item>
    var runnerUp: seq<Item>
    var bad: seq<Item>
    var threshold: real
    var filling: bool

    // Runners-up wait only behind a full good pile.  While it is being filled for
    // the first time, all there is is in it, and none of it below the threshold.
    ghost predicate Valid()
      reads this
    {
      && m > 0 && |good| <= m && |runnerUp| <= r && Ascending(runnerUp) && IsHeap(good, true)
      && (runnerUp != [] ==> |good| == m)
      && (filling ==> |good| < m && runnerUp == [] && bad == [] && Bounds(threshold, good))
    }

    ghost function Items(): multiset<Item>
      reads this
    {
      multiset(good) + multiset(runnerUp) + multiset(bad)
    }

    constructor (m: nat, r: nat)
      requires m > 0
      ensures Valid() && filling && Items() == multiset{} && this.m == m && this.r == r
    {
      this.m, this.r := m, r;
      good, runnerUp, bad, threshold, filling := [], [], [], 0.0, true;
    }

    // `insert` and `update_score`.  The threshold stays a lower bound of the good
    // pile, unless room made by a selection lets something lower in.
    method Insert(cid: int, score: real)
      requires Valid()
      modifies this
      ensures Valid() && Items() == old(Items()) + multiset{Item(score, cid)}
      ensures old(Bounds(threshold, good)) ==>
        (Bounds(threshold, good) <==> old(filling) || |old(good)| == m || old(threshold) <= score)
      ensures filling <==> old(filling) && |good| < m
      ensures old(filling) && old(good) == [] ==> good == [Item(score, cid)] && threshold == score && runnerUp == []
      ensures |old(good)| == m && score <= old(threshold) ==>
        && good == old(good) && threshold == old(threshold)
        && (|old(runnerUp)| < r ==> multiset(runnerUp) == multiset(old(runnerUp)) + multiset{Item(score, cid)})
      ensures |old(good)| < m ==> multiset(good) == multiset(old(good)) + multiset{Item(score, cid)}
      // An item above the threshold takes the place of the last of a full pile.
      ensures |old(good)| == m && score > old(threshold) ==>
        multiset(good) + multiset{old(good)[m - 1]} == multiset(old(good)) + multiset{Item(score, cid)}
    {
      var item := Item(score, cid);
      if |good| < m {
        Fill(item);
      } else if score > threshold {
        Displace(item);
      } else {
        ghost var u0, b0 := runnerUp, bad;
        runnerUp, bad := CandidateQueues.Admit(runnerUp, bad, r, item);
        Regroup(multiset(good), multiset(u0), multiset(b0), multiset(runnerUp), multiset(bad), item);
      }
    }

    method Fill(item: Item)
      requires Valid() && |good| < m
      modifies this`good, this`threshold, this`filling
      ensures Valid() && Items() == old(Items()) + multiset{item}
      ensures old(Bounds(threshold, good)) ==>
        (Bounds(threshold, good) <==> old(filling) || old(threshold) <= item.score)
      ensures filling <==> old(filling) && |good| < m
      ensures old(filling) && old(good) == [] ==> good == [item] && threshold == item.score
      ensures multiset(good) == multiset(old(good)) + multiset{item}
    {
      var pile := Push(good, item, true);
      var lowest := threshold;
      if filling {
        if |pile| == 1 {
          lowest := item.score;
        } else {
          lowest := if item.score < threshold then item.score else threshold;
        }
      }
      Joined(lowest, good, pile, item);
      Added(multiset(good), multiset(pile), multiset(runnerUp), multiset(bad), item);
      good, threshold := pile, lowest;
      if |good| == m {
        filling := false;
      }
    }

    // The last of the good pile's vector makes room, whatever its rank there.
    method Displace(item: Item)
      requires Valid() && |good| == m && item.score > threshold
      modifies this`good, this`runnerUp, this`bad
      ensures Valid() && Items() == old(Items()) + multiset{item}
      ensures old(Bounds(threshold, good)) ==> Bounds(threshold, good)
      ensures multiset(good) + multiset{old(good)[m - 1]} == multiset(old(good)) + multiset{item}
    {
      ghost var g0, u0, b0 := good, runnerUp, bad;
      var last := |good| - 1;
      HeapDropLast(good);
      var evicted := good[last];
      ghost var rest := good[..last];
      good := Push(good[..last], item, true);
      Joined(threshold, rest, good, item);
      Joined(threshold, rest, g0, evicted);
      runnerUp, bad := CandidateQueues.Admit(runnerUp, bad, r, evicted);
      Balance(multiset(g0), multiset(good), multiset(rest), item, evicted);
      Regroup(multiset(good), multiset(u0), multiset(b0), multiset(runnerUp), multiset(bad), evicted);
      RegroupGood(multiset(g0), multiset(good), multiset(u0), multiset(b0), item, evicted);
    }

    // The best of the good pile, refilled from the best runner-up, or from the bad
    // pile once all else is gone.  None, where the original throws, exactly when
    // the queue is empty.  The threshold stays a lower bound exactly when the
    // runner-up that comes in, if any, is not below it.
    method Select() returns (item: Option<Item>)
      requires Valid()
      modifies this
      ensures Valid() && (item.None? ==> old(Items()) == multiset{} && Items() == multiset{})
      ensures item.Some? ==> old(Items()) == Items() + multiset{item.value}
      ensures item.Some? ==> forall g :: g in old(good) ==>
        g.score < item.value.score || (g.score == item.value.score && g.cid <= item.value.cid)
      ensures item.Some? && old(good) != [] ==> item.value in old(good)
      ensures runnerUp == if old(runnerUp) == [] then [] else old(runnerUp)[..|old(runnerUp)| - 1]
      ensures old(Bounds(threshold, good)) ==>
        (Bounds(threshold, good) <==> old(runnerUp) == [] || old(threshold) <= old(runnerUp)[|old(runnerUp)| - 1].score)
    {
      Refill();
      if good == [] {
        return None;
      }
      var x := Take();
      item := Some(x);
    }

    // The best runner-up takes the free place.
    method Take() returns (x: Item)
      requires Valid() && good != []
      modifies this`good, this`runnerUp
      ensures Valid() && old(Items()) == Items() + multiset{x}
      ensures x in old(good) && forall g :: g in old(good) ==> !Less(x, g)
      ensures runnerUp == if old(runnerUp) == [] then [] else old(runnerUp)[..|old(runnerUp)| - 1]
      ensures old(Bounds(threshold, good)) ==>
        (Bounds(threshold, good) <==> old(runnerUp) == [] || threshold <= old(runnerUp)[|old(runnerUp)| - 1].score)
    {
      var rest, pile, waiting;
      x, rest := Pop(good, true);
      Joined(threshold, rest, good, x);
      pile, waiting := Promote(rest, runnerUp, threshold);
      TakenOut(good, rest, pile, runnerUp, waiting, bad, x);
      good, runnerUp := pile, waiting;
    }

    method Refill()
      requires Valid()
      modifies this`good, this`bad, this`threshold
      ensures Valid() && Items() == old(Items()) && (good == [] ==> Items() == multiset{})
      ensures old(good) != [] ==> good == old(good)
      ensures old(Bounds(threshold, good)) ==> Bounds(threshold, good)
      ensures runnerUp == [] || threshold == old(threshold)
    {
      if good == [] && runnerUp == [] && bad != [] {
        var top;
        top, bad := TopSplit(bad, m);
        good := MakeHeap(top, true);
        threshold := Lowest(good);
      }
    }
  }

  // The best runner-up takes the free place.
  method Promote(rest: seq<Item>, runnerUp: seq<Item>, ghost t: real) returns (pile: seq<Item>, waiting: seq<Item>)
    requires IsHeap(rest, true) && Ascending(runnerUp)
    ensures IsHeap(pile, true) && Ascending(waiting)
      && multiset(pile) + multiset(waiting) == multiset(rest) + multiset(runnerUp)
    ensures if runnerUp == [] then pile == rest && waiting == []
      else
        && waiting == runnerUp[..|runnerUp| - 1]
        && multiset(pile) == multiset(rest) + multiset{runnerUp[|runnerUp| - 1]}
    ensures Bounds(t, rest) ==> (Bounds(t, pile) <==> runnerUp == [] || t <= runnerUp[|runnerUp| - 1].score)
  {
    pile, waiting := rest, runnerUp;
    if runnerUp != [] {
      var top := |runnerUp| - 1;
      pile := Push(rest, runnerUp[top], true);
      Joined(t, rest, pile, runnerUp[top]);
      waiting := runnerUp[..top];
      assert runnerUp == waiting + [runnerUp[top]];
    }
  }

  lemma TakenOut(g0: seq<Item>, rest: seq<Item>, g: seq<Item>, u0: seq<Item>, u: seq<Item>, b: seq<Item>, x: Item)
    requires multiset(g0) == multiset(rest) + multiset{x} && multiset(g) + multiset(u) == multiset(rest) + multiset(u0)
    ensures multiset(g0) + multiset(u0) + multiset(b) == multiset(g) + multiset(u) + multiset(b) + multiset{x}
  {
  }

  lemma Added(g0: multiset<Item>, g: multiset<Item>, u: multiset<Item>, b: multiset<Item>, item: Item)
    requires g == g0 + multiset{item}
    ensures g + u + b == g0 + u + b + multiset{item}
  {
  }

  lemma Joined(t: real, g0: seq<Item>, g: seq<Item>, item: Item)
    requires multiset(g) == multiset(g0) + multiset{item}
    ensures item in g && (Bounds(t, g) <==> Bounds(t, g0) && t <= item.score)
  {
    forall x ensures x in g <==> x in g0 || x == item {
      assert x in g <==> x in multiset(g);
      assert x in g0 <==> x in multiset(g0);
    }
  }

  lemma HeapDropLast(h: seq<Item>)
    requires IsHeap(h, true) && h != []
    ensures IsHeap(h[..|h| - 1], true) && multiset(h) == multiset(h[..|h| - 1]) + multiset{h[|h| - 1]}
  {
    var n := |h| - 1;
    assert h == h[..n] + [h[n]];
    forall i: nat | 0 < i < n ensures PlaceOk(h[..n], i, true) {
      assert PlaceOk(h, i, true);
    }
  }

  // A selection can leave the threshold above the good pile.
  method ThresholdAboveGood() returns (q: MaxHeapBucketQueue)
    ensures fresh(q) && q.Valid() && q.good != [] && !Bounds(q.threshold, q.good)
  {
    q := new MaxHeapBucketQueue(1, 1);
    q.Insert(0, 5.0);
    q.Insert(1, 3.0);
    OneItem(q.runnerUp, Item(3.0, 1));
    var item := q.Select();
  }

  lemma OneItem(s: seq<Item>, x: Item)
    requires multiset(s) == multiset{x}
    ensures s == [x]
  {
    assert |s| == |multiset(s)| == 1;
    assert s[0] in multiset(s);
  }

  // The loop that sets the threshold anew.
  method Lowest(good: seq<Item>) returns (threshold: real)
    requires good != []
    ensures Bounds(threshold, good) && exists g :: g in good && g.score == threshold
  {
    threshold := good[0].score;
    for i := 0 to |good|
      invariant exists g :: g in good && g.score == threshold
      invariant forall k :: 0 <= k < i ==> threshold <= good[k].score
    {
      if good[i].score < threshold {
        threshold := good[i].score;
      }
    }
  }
}
