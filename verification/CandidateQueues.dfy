// The candidate queues: a max-heap with stale entries, and the queue with a
// runner-up tier (`max_heap.hpp`, `structure2.hpp`).

module CandidateQueues {
  import opened Options
  import opened BinaryHeap

  // ---- `MaxHeapDS` ----

  class MaxHeapQueue {
    var heap: seq<Item>
    var scores: map<int, real>
    var lastSelected: Option<int>

    // Every candidate has its current entry in the heap; others are stale.
    ghost predicate Valid()
      reads this
    {
      IsHeap(heap, true) && forall c {:trigger c in scores} :: c in scores ==> Item(scores[c], c) in heap
    }

    constructor ()
      ensures Valid() && scores == map[]
    {
      heap, scores, lastSelected := [], map[], None;
    }

    // `insert` and `update_score`.
    method Insert(cid: int, score: real)
      requires Valid()
      modifies this
      ensures Valid() && scores == old(scores)[cid := score]
    {
      scores := scores[cid := score];
      ghost var before := heap;
      heap := Push(heap, Item(score, cid), true);
      forall c | c in scores ensures Item(scores[c], c) in heap {
        assert c != cid ==> Item(scores[c], c) in multiset(before);
        assert Item(scores[c], c) in multiset(heap);
      }
    }

    // Removes the candidate with the greatest score, the greatest id among equals;
    // None, where the original throws, exactly when there is no candidate.
    method Select() returns (best: Option<Item>)
      requires Valid()
      modifies this
      ensures Valid() && (best.None? <==> forall c {:trigger c in old(scores)} :: c !in old(scores))
      ensures best.None? ==> scores == old(scores)
      ensures best.Some? ==>
        var Item(score, cid) := best.value;
        && cid in old(scores) && old(scores)[cid] == score && scores == old(scores) - {cid}
        && lastSelected == Some(cid)
        && forall c {:trigger c in old(scores)} :: c in old(scores) ==>
             old(scores)[c] < score || (old(scores)[c] == score && c <= cid)
    {
      while heap != []
        invariant Valid() && scores == old(scores)
        decreases |heap|
      {
        ghost var before := heap;
        var top, rest := Pop(heap, true);
        heap := rest;
        forall c | c in scores && Item(scores[c], c) != top ensures Item(scores[c], c) in heap {
          assert Item(scores[c], c) in multiset(before);
          assert Item(scores[c], c) in multiset(heap);
        }
        if top.cid in scores && scores[top.cid] == top.score {
          scores := scores - {top.cid};
          lastSelected := Some(top.cid);
          return Some(top);
        }
      }
      best := None;
    }
  }

  // ---- The runner-up tier ----

  // Ascending by score, then id.
  predicate Ascending(s: seq<Item>) {
    forall i, j :: 0 <= i < j < |s| ==> !Less(s[j], s[i])
  }

  // `lower_bound` and `insert`.
  method InsertAscending(s: seq<Item>, x: Item) returns (r: seq<Item>)
    requires Ascending(s)
    ensures Ascending(r) && |r| == |s| + 1 && multiset(r) == multiset(s) + multiset{x}
  {
    var i := 0;
    while i < |s| && Less(s[i], x)
      invariant i <= |s| && forall k :: 0 <= k < i ==> Less(s[k], x)
    {
      i := i + 1;
    }
    PutInPlace(s, i, x);
    r := s[..i] + [x] + s[i..];
  }

  lemma PutInPlace(s: seq<Item>, i: nat, x: Item)
    requires i <= |s| && Ascending(s)
    requires (forall k :: 0 <= k < i ==> Less(s[k], x)) && (i < |s| ==> !Less(s[i], x))
    ensures Ascending(s[..i] + [x] + s[i..])
    ensures multiset(s[..i] + [x] + s[i..]) == multiset(s) + multiset{x}
  {
    var r := s[..i] + [x] + s[i..];
    assert multiset(s) == multiset(s[..i]) + multiset(s[i..]) by {
      assert s == s[..i] + s[i..];
    }
    forall j, k | 0 <= j < k < |r| ensures !Less(r[k], r[j]) {
      assert j < i ==> r[j] == s[j];
      assert j > i ==> r[j] == s[j - 1];
      assert k < i ==> r[k] == s[k];
      assert k > i ==> r[k] == s[k - 1] && (k - 1 == i || !Less(s[k - 1], s[i]));
    }
  }

  // Nothing bad is above the runners-up, and there is something bad only if
  // their tier is full.
  predicate Apart(runnerUp: seq<Item>, bad: seq<Item>, r: nat) {
    && (bad != [] ==> |runnerUp| == r)
    && forall u, b :: u in runnerUp && b in bad ==> b.score <= u.score
  }

  // `_admit_runner_up`: a full tier gives up its lowest for a higher score.
  method Admit(runnerUp: seq<Item>, bad: seq<Item>, r: nat, item: Item) returns (runnerUp': seq<Item>, bad': seq<Item>)
    requires Ascending(runnerUp) && |runnerUp| <= r
    ensures Ascending(runnerUp') && |runnerUp| <= |runnerUp'| <= r
    ensures multiset(runnerUp') + multiset(bad') == multiset(runnerUp) + multiset(bad) + multiset{item}
    ensures Apart(runnerUp, bad, r) ==> Apart(runnerUp', bad', r)
    ensures |runnerUp| < r ==> multiset(runnerUp') == multiset(runnerUp) + multiset{item} && bad' == bad
    ensures |runnerUp| == r > 0 && item.score > runnerUp[0].score ==> bad' == bad + [runnerUp[0]]
    ensures |runnerUp| == r && (r == 0 || item.score <= runnerUp[0].score) ==>
      runnerUp' == runnerUp && bad' == bad + [item]
  {
    if r == 0 {
      return runnerUp, bad + [item];
    }
    if |runnerUp| < r {
      runnerUp' := InsertAscending(runnerUp, item);
      bad' := bad;
    } else if item.score > runnerUp[0].score {
      LowestOut(runnerUp);
      bad' := bad + [runnerUp[0]];
      runnerUp' := InsertAscending(runnerUp[1..], item);
      Evicted(runnerUp, bad, r, item, runnerUp');
    } else {
      LowestOut(runnerUp);
      runnerUp', bad' := runnerUp, bad + [item];
    }
  }

  lemma LowestOut(s: seq<Item>)
    requires Ascending(s) && s != []
    ensures Ascending(s[1..]) && forall x :: x in s ==> s[0].score <= x.score
    ensures multiset(s) == multiset(s[1..]) + multiset{s[0]}
  {
    assert s == [s[0]] + s[1..];
    forall x | x in s ensures s[0].score <= x.score {
      var i :| 0 <= i < |s| && s[i] == x;
      assert i > 0 ==> !Less(s[i], s[0]);
    }
  }

  lemma Evicted(runnerUp: seq<Item>, bad: seq<Item>, r: nat, item: Item, after: seq<Item>)
    requires Ascending(runnerUp) && |runnerUp| == r > 0 && item.score > runnerUp[0].score && |after| == r
    requires multiset(after) == multiset(runnerUp[1..]) + multiset{item}
    ensures Apart(runnerUp, bad, r) ==> Apart(after, bad + [runnerUp[0]], r)
  {
    LowestOut(runnerUp);
    if Apart(runnerUp, bad, r) {
      forall u, b | u in after && b in bad + [runnerUp[0]] ensures b.score <= u.score {
        assert u in multiset(after);
        assert u == item || u in runnerUp[1..];
        assert u != item ==> u in runnerUp;
        assert runnerUp[0] in runnerUp;
      }
    }
  }

  // ---- `RunnerUpQueueDS` ----

  class RunnerUpQueue {
    const m: nat
    const r: nat
    var good: seq<Item>
    var runnerUp: seq<Item>
    var bad: seq<Item>

    // Runners-up wait only behind a full good pile.
    ghost predicate Valid()
      reads this
    {
      && m > 0 && |good| <= m && |runnerUp| <= r && Ascending(runnerUp) && IsHeap(good, false)
      && (runnerUp != [] ==> |good| == m)
    }

    ghost function Items(): multiset<Item>
      reads this
    {
      multiset(good) + multiset(runnerUp) + multiset(bad)
    }

    // As long as nothing has been selected: each tier is above the next.
    ghost predicate Tiered()
      reads this
    {
      && Apart(runnerUp, bad, r) && (bad != [] ==> |good| == m)
      && forall g, x :: g in good && (x in runnerUp || x in bad) ==> x.score <= g.score
    }

    constructor (m: nat, r: nat)
      requires m > 0
      ensures Valid() && Tiered() && Items() == multiset{} && this.m == m && this.r == r
    {
      this.m, this.r := m, r;
      good, runnerUp, bad := [], [], [];
    }

    // `insert` and `update_score`.
    method Insert(cid: int, score: real)
      requires Valid()
      modifies this
      ensures Valid() && Items() == old(Items()) + multiset{Item(score, cid)}
      ensures old(Tiered()) ==> Tiered()
      ensures |old(good)| < m ==> multiset(good) == multiset(old(good)) + multiset{Item(score, cid)}
      // Only a better item gets into a full good pile, in the place of its lowest.
      ensures |old(good)| == m ==>
        if score > old(good)[0].score
        then multiset(good) + multiset{old(good)[0]} == multiset(old(good)) + multiset{Item(score, cid)}
        else good == old(good)
    {
      var item := Item(score, cid);
      if |good| < m {
        good := Push(good, item, false);
      } else if score > good[0].score {
        Displace(item);
      } else {
        LowestGood(good);
        ghost var u0, b0 := runnerUp, bad;
        runnerUp, bad := Admit(runnerUp, bad, r, item);
        Passed(good, u0, b0, runnerUp, bad, item);
        Regroup(multiset(good), multiset(u0), multiset(b0), multiset(runnerUp), multiset(bad), item);
      }
    }

    // The lowest of a full good pile makes room.
    method Displace(item: Item)
      requires Valid() && |good| == m && item.score > good[0].score
      modifies this
      ensures Valid() && Items() == old(Items()) + multiset{item}
      ensures old(Tiered()) ==> Tiered()
      ensures multiset(good) + multiset{old(good)[0]} == multiset(old(good)) + multiset{item}
    {
      ghost var g0, u0, b0 := good, runnerUp, bad;
      LowestGood(good);
      var evicted, rest := Pop(good, false);
      good := Push(rest, item, false);
      runnerUp, bad := Admit(runnerUp, bad, r, evicted);
      Balance(multiset(g0), multiset(good), multiset(rest), item, evicted);
      Regroup(multiset(good), multiset(u0), multiset(b0), multiset(runnerUp), multiset(bad), evicted);
      RegroupGood(multiset(g0), multiset(good), multiset(u0), multiset(b0), item, evicted);
      Displaced(g0, u0, b0, good, runnerUp, bad, item, evicted);
    }

    // The last of the good pile's vector, whatever its rank there; refilled from
    // the best runner-up, or from the bad pile once all else is gone.  None, where
    // the original throws, exactly when the queue is empty.
    method Select() returns (item: Option<Item>)
      requires Valid()
      modifies this
      ensures Valid() && (item.None? ==> old(Items()) == multiset{} && Items() == multiset{})
      ensures item.Some? ==> old(Items()) == Items() + multiset{item.value}
      ensures old(good) != [] ==>
        && item == Some(old(good)[|old(good)| - 1]) && bad == old(bad)
        && if r == 0 || old(runnerUp) == []
           then runnerUp == old(runnerUp) && good == old(good)[..|old(good)| - 1]
           else
             && runnerUp == old(runnerUp)[..|old(runnerUp)| - 1]
             && multiset(good) == multiset(old(good)[..|old(good)| - 1]) +
                                  multiset{old(runnerUp)[|old(runnerUp)| - 1]}
      // From the bad pile come its best, and one of those is taken.
      ensures old(good) == [] && item.Some? ==> forall y :: y in bad ==> y.score <= item.value.score
    {
      Refill();
      if good == [] {
        return None;
      }
      assert good[|good| - 1] in good;
      var x := TakeLast();
      Promote();
      item := Some(x);
    }

    // Everything above gone, the best of the bad pile come up.
    method Refill()
      requires Valid()
      modifies this
      ensures Valid() && Items() == old(Items()) && (good == [] ==> Items() == multiset{})
      ensures if old(good) == [] then forall x, y :: x in good && y in bad ==> y.score <= x.score
        else good == old(good) && runnerUp == old(runnerUp) && bad == old(bad)
    {
      if good == [] && runnerUp == [] && bad != [] {
        good, bad := TopSplit(bad, m);
      }
    }

    method TakeLast() returns (x: Item)
      requires Valid() && good != []
      modifies this`good
      ensures x == old(good)[|old(good)| - 1] && good == old(good)[..|old(good)| - 1]
      ensures IsHeap(good, false) && multiset(old(good)) == multiset(good) + multiset{x}
    {
      var last := |good| - 1;
      DropLast(good);
      x := good[last];
      good := good[..last];
    }

    // The best runner-up takes the free place.
    method Promote()
      requires m > 0 && |good| < m && |runnerUp| <= r && Ascending(runnerUp) && IsHeap(good, false)
      requires runnerUp != [] ==> |good| + 1 == m
      modifies this`good, this`runnerUp
      ensures Valid() && Items() == old(Items())
      ensures if r == 0 || old(runnerUp) == []
        then runnerUp == old(runnerUp) && good == old(good)
        else
          && runnerUp == old(runnerUp)[..|old(runnerUp)| - 1]
          && multiset(good) == multiset(old(good)) + multiset{old(runnerUp)[|old(runnerUp)| - 1]}
    {
      if r > 0 && runnerUp != [] {
        var top := |runnerUp| - 1;
        assert runnerUp == runnerUp[..top] + [runnerUp[top]];
        good := Push(good, runnerUp[top], false);
        runnerUp := runnerUp[..top];
      }
    }
  }

  // One in, one down.
  lemma Balance(g0: multiset<Item>, g: multiset<Item>, rest: multiset<Item>, item: Item, evicted: Item)
    requires g0 == rest + multiset{evicted} && g == rest + multiset{item}
    ensures g0 + multiset{item} == g + multiset{evicted}
  {
  }

  lemma Regroup(g: multiset<Item>, u0: multiset<Item>, b0: multiset<Item>, u: multiset<Item>, b: multiset<Item>,
    x: Item)
    requires u + b == u0 + b0 + multiset{x}
    ensures g + u + b == g + u0 + b0 + multiset{x}
  {
    assert g + u + b == g + (u + b);
  }

  lemma RegroupGood(g0: multiset<Item>, g: multiset<Item>, u: multiset<Item>, b: multiset<Item>, item: Item, x: Item)
    requires g0 + multiset{item} == g + multiset{x}
    ensures g + u + b + multiset{x} == g0 + u + b + multiset{item}
  {
    assert g + u + b + multiset{x} == (g + multiset{x}) + (u + b);
    assert g0 + u + b + multiset{item} == (g0 + multiset{item}) + (u + b);
  }

  lemma DropLast(h: seq<Item>)
    requires IsHeap(h, false) && h != []
    ensures IsHeap(h[..|h| - 1], false) && multiset(h) == multiset(h[..|h| - 1]) + multiset{h[|h| - 1]}
  {
    var n := |h| - 1;
    assert h == h[..n] + [h[n]];
    forall i: nat | 0 < i < n ensures PlaceOk(h[..n], i, false) {
      assert PlaceOk(h, i, false);
    }
  }

  lemma LowestGood(good: seq<Item>)
    requires IsHeap(good, false) && good != []
    ensures forall g :: g in good ==> good[0].score <= g.score
  {
    forall g | g in good ensures good[0].score <= g.score {
      var i :| 0 <= i < |good| && good[i] == g;
      FrontIsFirst(good, false, i);
    }
  }

  // An item no better than the good pile goes below it.
  lemma Passed(g: seq<Item>, u0: seq<Item>, b0: seq<Item>, u: seq<Item>, b: seq<Item>, item: Item)
    requires multiset(u) + multiset(b) == multiset(u0) + multiset(b0) + multiset{item}
    requires forall x :: x in g ==> item.score <= x.score
    ensures (forall x, y :: x in g && (y in u0 || y in b0) ==> y.score <= x.score)
      ==> forall x, y :: x in g && (y in u || y in b) ==> y.score <= x.score
  {
    forall y | y in u || y in b ensures y in u0 || y in b0 || y == item {
      assert y in multiset(u) + multiset(b);
    }
  }

  // The lowest of the good pile goes below it for a better item.
  lemma Displaced(g0: seq<Item>, u0: seq<Item>, b0: seq<Item>, g: seq<Item>, u: seq<Item>, b: seq<Item>, item: Item,
    evicted: Item)
    requires multiset(u) + multiset(b) == multiset(u0) + multiset(b0) + multiset{evicted}
    requires multiset(g0) + multiset{item} == multiset(g) + multiset{evicted}
    requires item.score > evicted.score && forall x :: x in g0 ==> evicted.score <= x.score
    ensures (forall x, y :: x in g0 && (y in u0 || y in b0) ==> y.score <= x.score)
      ==> forall x, y :: x in g && (y in u || y in b) ==> y.score <= x.score
  {
    assert evicted in multiset(g0) + multiset{item};
    assert evicted in g0;
    forall x | x in g ensures x in g0 || x == item {
      assert x in multiset(g) + multiset{evicted};
    }
    forall y | y in u || y in b ensures y in u0 || y in b0 || y == evicted {
      assert y in multiset(u) + multiset(b);
    }
  }

  // `make_heap`
  method MakeHeap(items: seq<Item>, max: bool) returns (h: seq<Item>)
    ensures IsHeap(h, max) && |h| == |items| && multiset(h) == multiset(items)
  {
    h := [];
    for i := 0 to |items|
      invariant multiset(h) == multiset(items[..i]) && |h| == i && IsHeap(h, max)
    {
      assert items[..i + 1] == items[..i] + [items[i]];
      h := Push(h, items[i], max);
    }
    assert items[..|items|] == items;
  }

  // `quickselect_top_m_split`, as a heap: the best `m` and the rest.
  method TopSplit(items: seq<Item>, m: nat) returns (top: seq<Item>, bad: seq<Item>)
    ensures |top| == (if |items| <= m then |items| else m) && multiset(top) + multiset(bad) == multiset(items)
    ensures IsHeap(top, false)
    ensures forall x, y :: x in top && y in bad ==> y.score < x.score || (y.score == x.score && y.cid <= x.cid)
  {
    top := [];
    bad := MakeHeap(items, true);
    while bad != [] && |top| < m
      invariant |top| <= m && |top| + |bad| == |items| && multiset(top) + multiset(bad) == multiset(items)
      invariant IsHeap(top, false) && IsHeap(bad, true) && forall x, y :: x in top && y in bad ==> !Less(x, y)
      decreases |bad|
    {
      ghost var top0, bad0 := top, bad;
      var best, rest := Pop(bad, true);
      top := Push(top, best, false);
      bad := rest;
      StillAbove(top0, bad0, top, bad, best);
    }
  }

  lemma StillAbove(top0: seq<Item>, bad0: seq<Item>, top: seq<Item>, bad: seq<Item>, best: Item)
    requires multiset(bad0) == multiset(bad) + multiset{best} && multiset(top) == multiset(top0) + multiset{best}
    requires (forall x, y :: x in top0 && y in bad0 ==> !Less(x, y)) && forall y :: y in bad0 ==> !Less(best, y)
    ensures forall x, y :: x in top && y in bad ==> !Less(x, y)
  {
    forall x, y | x in top && y in bad ensures !Less(x, y) {
      assert x in multiset(top) && y in multiset(bad0);
      assert x == best || x in top0;
      assert y in bad0;
    }
  }
}
