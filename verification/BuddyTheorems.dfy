/** What the page allocator promises: complete allocation, exact round trips, boot seeding
    and conservation of pages. */
module BuddyTheorems {
  import opened Bits
  import opened FreeBlocks
  import opened BuddyModel
  import opened BuddyInvariant
  import opened Options

  // ---- Allocation ----

  /** The smallest order from `k` up whose list is not empty, or past the top if there is none. */
  function FirstOrder(z: Zone, k: nat): (j: nat)
    requires Shape(z)
    ensures k <= j
    ensures j <= TOP ==> z.area[j].list != []
    ensures forall i | k <= i < j && i <= TOP :: z.area[i].list == []
    decreases TOP + 1 - k
  {
    if k > TOP || z.area[k].list != [] then k else FirstOrder(z, k + 1)
  }

  /** List `j` after its first block has been cut down to `order`. */
  function CutFrom(z: Zone, order: nat, j: nat): Zone
    requires ListsInRange(z) && j <= TOP && z.area[j].list != []
  {
    Expand(Take(z, z.area[j].list[0], j), z.area[j].list[0], order, j)
  }

  lemma {:induction false} RmqueueScan(z: Zone, order: nat, current: nat)
    requires ListsInRange(z) && order <= current
    ensures var j := FirstOrder(z, current);
            RmqueueSmallest(z, order, current) ==
            if j > TOP then (z, None) else (CutFrom(z, order, j), Some(z.area[j].list[0]))
    decreases TOP + 1 - current
  {
    if current <= TOP && z.area[current].list == [] {
      RmqueueScan(z, order, current + 1);
    }
  }

  /** Allocation fails exactly when no aligned run of free pages of that size exists; a
      success hands out such a run, cut from the smallest order that has a block. */
  lemma AllocComplete(z: Zone, n: nat, free: set<nat>, order: nat)
    requires Inv(z, n, free)
    ensures ListsInRange(z)
    ensures var (z', r) := AllocPages(z, order);
            && (r.None? <==> order > 10 || forall p: nat :: !(Aligned(p, order) && Full(free, p, order)))
            && (r.None? ==> z' == z)
            && (r.Some? ==>
                  var p, j := r.value, FirstOrder(z, order);
                  && Aligned(p, order) && Full(free, p, order) && Block(p, order) <= free
                  && p + Pow2(order) <= n
                  && j <= 10 && p == z.area[j].list[0]
                  && Inv(z', n, free - Block(p, order))
                  && |z'.pages| == |z.pages| && z'.pages[p].count == 1)
  {
    AllocIsCut(z, n, free, order);
    var r := AllocPages(z, order).1;
    if r.Some? {
      CutInv(z, n, free, order, FirstOrder(z, order));
      CountInv(CutFrom(z, order, FirstOrder(z, order)), n, free - Block(r.value, order), r.value, 1);
    } else if order <= TOP {
      forall p: nat
        ensures !(Aligned(p, order) && Full(free, p, order))
      {
        if Aligned(p, order) && Full(free, p, order) {
          var j := FitListed(z, n, free, p, order);
        }
      }
    }
  }

  /** Allocation in one step: the front block of the first non-empty list, cut to size. */
  lemma AllocIsCut(z: Zone, n: nat, free: set<nat>, order: nat)
    requires Inv(z, n, free)
    ensures ListsInRange(z)
    ensures var (z', r) := AllocPages(z, order);
            var j := FirstOrder(z, order);
            if j > TOP then z' == z && r.None?
            else
              var p, cut := z.area[j].list[0], CutFrom(z, order, j);
              r == Some(p) && p < |cut.pages| && z' == WithCount(cut, p, 1)
  {
    InvInRange(z, n, free);
    RmqueueScan(z, order, order);
    var j := FirstOrder(z, order);
    if j <= TOP {
      var p := z.area[j].list[0];
      CutInv(z, n, free, order, j);
      assert p in Block(p, order);
      HandOutInv(CutFrom(z, order, j), n, free - Block(p, order), p);
    }
  }

  lemma FitListed(z: Zone, n: nat, free: set<nat>, p: nat, order: nat) returns (j: nat)
    requires Inv(z, n, free) && order <= TOP && Aligned(p, order) && Full(free, p, order)
    ensures order <= j <= TOP && z.area[j].list != []
  {
    var q;
    q, j := MaximalAbove(free, p, order);
    assert ListOk(z, free, j);
  }

  /** Cutting an order-sized block from the front of list j takes just that block out. */
  lemma CutInv(z: Zone, n: nat, free: set<nat>, order: nat, j: nat)
    requires Inv(z, n, free) && order <= j <= TOP && z.area[j].list != []
    ensures ListsInRange(z)
    ensures var p := z.area[j].list[0];
            && Maximal(free, p, j) && p + Pow2(j) <= n
            && Aligned(p, order) && p + Pow2(order) <= n
            && Block(p, order) <= free && Full(free, p, order)
            && |CutFrom(z, order, j).pages| == |z.pages|
            && Inv(CutFrom(z, order, j), n, free - Block(p, order))
  {
    InvInRange(z, n, free);
    var p := z.area[j].list[0];
    assert p in z.area[j].list;
    TakeInv(z, n, free, p, j);
    var rest := free - Block(p, j);
    ExpandInv(Take(z, p, j), n, rest, p, order, j);
    ExpandSizes(Take(z, p, j), p, order, j);
    FullIsSubset(free, p, j);
    FullIsSubset(free, p, order);
    SubblockInRange(p, order, j);
    SetCut(free, Block(p, j), Block(p, order));
  }

  lemma SubblockInRange(p: nat, order: nat, j: nat)
    requires Block(p, order) <= Block(p, j)
    ensures p + Pow2(order) <= p + Pow2(j)
  {
    assert p + (Pow2(order) - 1) in Block(p, order);
  }

  lemma SetCut(free: set<nat>, outer: set<nat>, inner: set<nat>)
    requires inner <= outer <= free
    ensures (free - outer) + (outer - inner) == free - inner
  {
  }

  lemma FullIsSubset(free: set<nat>, p: nat, k: nat)
    ensures Full(free, p, k) <==> Block(p, k) <= free
  {
    if Block(p, k) <= free {
      forall q: nat | p <= q < p + Pow2(k)
        ensures q in free
      {
        assert q in Block(p, k);
      }
    }
  }

  /** Preparing the page that is handed out does not disturb the free lists. */
  lemma HandOutInv(z: Zone, n: nat, free: set<nat>, p: nat)
    requires Inv(z, n, free) && p < n && p !in free
    ensures z.(pages := z.pages[p := z.pages[p].(priv := 0, count := 1)]) == WithCount(z, p, 1)
    ensures Inv(WithCount(z, p, 1), n, free)
  {
    NotListed(z, n, free, p);
    assert PageOk(z, n, p);
    CountInv(z, n, free, p, 1);
  }

  // ---- Release ----

  /** A block rejoins the free lists exactly when its last reference is dropped. */
  lemma FreePagesInv(z: Zone, n: nat, free: set<nat>, p: nat, k: nat)
    requires Inv(z, n, free) && k <= TOP && Aligned(p, k) && p + Pow2(k) <= n
    requires free !! Block(p, k)
    ensures Inv(FreePages(z, p, k), n, if z.pages[p].count == 1 then free + Block(p, k) else free)
    ensures free + Block(p, k) != free
  {
    assert p in Block(p, k);
    CountInv(z, n, free, p, z.pages[p].count - 1);
    if z.pages[p].count == 1 {
      FreeOnePageInv(WithCount(z, p, 0), n, free, p, k);
    }
  }

  /** The merge never touches a reference count. */
  lemma {:induction false} FreeOnePageCounts(z: Zone, p: nat, k: nat, q: nat)
    requires Shape(z) && k <= TOP && Aligned(p, k) && p < |z.pages| && q < |z.pages|
    ensures |FreeOnePage(z, p, k).pages| == |z.pages|
    ensures FreeOnePage(z, p, k).pages[q].count == z.pages[q].count
    decreases TOP - k
  {
    if k < TOP && BuddyFree(z, p, k) {
      PairFacts(p, k);
      FreeOnePageCounts(Take(z, Buddy(p, k), k), Parent(p, k), k + 1, q);
    }
  }

  /** Neither does the split. */
  lemma {:induction false} ExpandCounts(z: Zone, p: nat, low: nat, high: nat, q: nat)
    requires high < |z.area| && p + Pow2(high) <= |z.pages| && q < |z.pages|
    ensures |Expand(z, p, low, high).pages| == |z.pages|
    ensures Expand(z, p, low, high).pages[q].count == z.pages[q].count
    decreases high
  {
    if high > low {
      ExpandCounts(Put(z, p + Pow2(high - 1), high - 1), p, low, high - 1, q);
    }
  }

  // ---- Round trip ----

  lemma TakeAfterPut(z: Zone, p: nat, k: nat)
    requires p < |z.pages| && k < |z.area|
    requires z.pages[p].mapcount == -1 && z.pages[p].priv == 0
    ensures Take(Put(z, p, k), p, k) == z
  {
    assert ([p] + z.area[k].list)[1..] == z.area[k].list;
    assert Put(z, p, k).pages[p := z.pages[p]] == z.pages;
    assert Put(z, p, k).area[k := z.area[k]] == z.area;
  }

  predicate CleanAt(z: Zone, p: nat) {
    p < |z.pages| && z.pages[p].mapcount == -1 && z.pages[p].priv == 0
  }

  /** The heads of the upper halves that splitting `p` from `high` to `low` will mark. */
  predicate CleanHalves(z: Zone, p: nat, low: nat, high: nat) {
    forall i: nat | low <= i < high :: CleanAt(z, p + Pow2(i))
  }

  lemma CleanBelow(z: Zone, p: nat, low: nat, h: nat)
    requires low <= h < |z.area| && CleanHalves(z, p, low, h + 1)
    ensures CleanAt(z, p + Pow2(h))
    ensures CleanHalves(Put(z, p + Pow2(h), h), p, low, h)
  {
    assert CleanAt(z, p + Pow2(h));
    forall i: nat | low <= i < h
      ensures CleanAt(Put(z, p + Pow2(h), h), p + Pow2(i))
    {
      Pow2Grows(i, h);
      assert CleanAt(z, p + Pow2(i));
    }
  }

  /** One level: freeing the lower half beside its free upper half frees the whole. */
  lemma MergeStep(z: Zone, p: nat, h: nat)
    requires Shape(z) && h < TOP && Aligned(p, h + 1) && p + Pow2(h + 1) <= |z.pages|
    requires CleanAt(z, p + Pow2(h))
    ensures Aligned(p, h) && p + Pow2(h) <= |z.pages|
    ensures FreeOnePage(Put(z, p + Pow2(h), h), p, h) == FreeOnePage(z, p, h + 1)
  {
    AlignedDown(p, h + 1, h);
    var z' := Put(z, p + Pow2(h), h);
    assert Buddy(p, h) == p + Pow2(h) && Parent(p, h) == p;
    TakeAfterPut(z, p + Pow2(h), h);
    assert BuddyFree(z', p, h);
  }

  /** Merging undoes splitting level by level. */
  lemma {:induction false} MergeUndoesExpand(z: Zone, p: nat, low: nat, high: nat)
    requires Shape(z) && low <= high <= TOP && Aligned(p, high) && p + Pow2(high) <= |z.pages|
    requires CleanHalves(z, p, low, high)
    ensures Aligned(p, low) && Shape(Expand(z, p, low, high)) && p < |Expand(z, p, low, high).pages|
    ensures FreeOnePage(Expand(z, p, low, high), p, low) == FreeOnePage(z, p, high)
    decreases high
  {
    if low < high {
      var h: nat := high - 1;
      var z' := Put(z, p + Pow2(h), h);
      CleanBelow(z, p, low, h);
      MergeStep(z, p, h);
      MergeUndoesExpand(z', p, low, h);
      assert Expand(z, p, low, high) == Expand(z', p, low, h);
    }
  }

  lemma {:induction false} Pow2Grows(i: nat, h: nat)
    requires i < h
    ensures Pow2(i) < Pow2(h)
  {
    if h > i + 1 { Pow2Grows(i, h - 1); }
  }

  /** Pages strictly inside a free block carry no mark. */
  lemma InsideIsClean(z: Zone, n: nat, free: set<nat>, p: nat, j: nat, x: nat)
    requires Inv(z, n, free) && Maximal(free, p, j) && p < x < p + Pow2(j)
    ensures CleanAt(z, x)
  {
    MaximalInRange(n, free, p, j);
    assert PageOk(z, n, x);
    if PageBuddy(z.pages[x]) {
      var i := z.pages[x].priv;
      assert PageIsBuddy(z.pages[x], i) && ListOk(z, free, i);
      assert x in Block(x, i) && x in Block(p, j);
      MaximalDisjoint(free, p, j, x, i);
    }
  }

  lemma {:induction false} ExpandWithCount(z: Zone, p: nat, low: nat, high: nat, q: nat, c: int)
    requires high < |z.area| && p + Pow2(high) <= |z.pages| && q < |z.pages|
    ensures |Expand(z, p, low, high).pages| == |z.pages|
    ensures Expand(WithCount(z, q, c), p, low, high) == WithCount(Expand(z, p, low, high), q, c)
    decreases high
  {
    if high > low {
      var x := p + Pow2(high - 1);
      assert Put(WithCount(z, q, c), x, high - 1) == WithCount(Put(z, x, high - 1), q, c);
      ExpandWithCount(Put(z, x, high - 1), p, low, high - 1, q, c);
    }
  }

  /** Cutting a block off list j and merging it back. */
  lemma CutThenMerge(z: Zone, n: nat, free: set<nat>, order: nat, j: nat)
    requires Inv(z, n, free) && order <= j <= TOP && z.area[j].list != []
    ensures ListsInRange(z)
    ensures var p, cut := z.area[j].list[0], CutFrom(z, order, j);
            && Shape(cut) && Aligned(p, order) && p < |z.pages| == |cut.pages|
            && FreeOnePage(WithCount(cut, p, 0), p, order) == WithCount(z, p, 0)
  {
    var p := z.area[j].list[0];
    CutInv(z, n, free, order, j);
    var z0 := WithCount(Take(z, p, j), p, 0);
    ExpandWithCount(Take(z, p, j), p, order, j, p, 0);
    SplitHalvesClean(z, n, free, p, order, j);
    MergeUndoesExpand(z0, p, order, j);
    assert p in z.area[j].list;
    RemergeStops(z, n, free, p, j);
    PutAfterTake(z, n, free, p, j);
  }

  /** Allocating a block and dropping its one reference puts every list, counter, mark and
      order back exactly as they were; only the block's own count has become zero. */
  lemma RoundTrip(z: Zone, n: nat, free: set<nat>, order: nat)
    requires Inv(z, n, free)
    ensures ListsInRange(z)
    ensures var (z', r) := AllocPages(z, order);
            r.Some? ==>
              && Shape(z') && order <= TOP && Aligned(r.value, order)
              && r.value < |z.pages| == |z'.pages|
              && FreePages(z', r.value, order) == WithCount(z, r.value, 0)
  {
    AllocIsCut(z, n, free, order);
    var (z', r) := AllocPages(z, order);
    if r.Some? {
      assert WithCount(z', r.value, 0) == WithCount(CutFrom(z, order, FirstOrder(z, order)), r.value, 0);
      CutThenMerge(z, n, free, order, FirstOrder(z, order));
    }
  }

  lemma SplitHalvesClean(z: Zone, n: nat, free: set<nat>, p: nat, order: nat, j: nat)
    requires Inv(z, n, free) && order <= j <= TOP && Maximal(free, p, j) && p < |z.pages|
    ensures CleanHalves(WithCount(Take(z, p, j), p, 0), p, order, j)
  {
    forall i: nat | order <= i < j
      ensures CleanAt(WithCount(Take(z, p, j), p, 0), p + Pow2(i))
    {
      Pow2Grows(i, j);
      InsideIsClean(z, n, free, p, j, p + Pow2(i));
    }
  }

  /** The block that was split had no free buddy, so the re-merge stops at its old order. */
  lemma RemergeStops(z: Zone, n: nat, free: set<nat>, p: nat, j: nat)
    requires Inv(z, n, free) && j <= TOP && p in z.area[j].list
    ensures p < |z.pages| && Aligned(p, j)
    ensures var z0 := WithCount(Take(z, p, j), p, 0); FreeOnePage(z0, p, j) == Put(z0, p, j)
  {
    TakeInv(z, n, free, p, j);
    if j < TOP {
      PairFacts(p, j);
      BuddyTest(Take(z, p, j), n, free - Block(p, j), p, j);
      FullPair(free, p, j);
    }
  }

  lemma FullPair(free: set<nat>, p: nat, j: nat)
    requires Aligned(p, j) && Full(free, p, j)
    ensures Full(free - Block(p, j), Buddy(p, j), j) ==> Aligned(Parent(p, j), j + 1) && Full(free, Parent(p, j), j + 1)
  {
    PairFacts(p, j);
    FullIsSubset(free - Block(p, j), Buddy(p, j), j);
    FullIsSubset(free, p, j);
    FullIsSubset(free, Parent(p, j), j + 1);
  }

  lemma PutAfterTake(z: Zone, n: nat, free: set<nat>, p: nat, j: nat)
    requires Inv(z, n, free) && j <= TOP && z.area[j].list != [] && p == z.area[j].list[0]
    ensures p < |z.pages|
    ensures Put(WithCount(Take(z, p, j), p, 0), p, j) == WithCount(z, p, 0)
  {
    var s := z.area[j].list;
    assert p in s;
    TakeInv(z, n, free, p, j);
    assert PageOk(z, n, p);
    assert PageIsBuddy(z.pages[p], j);
    assert [p] + s[1..] == s;
    var z0 := WithCount(Take(z, p, j), p, 0);
    assert Put(z0, p, j).area == z.area;
    assert Put(z0, p, j).pages == WithCount(z, p, 0).pages;
  }

  // ---- Conservation ----

  /** Pages on the lists of order below k, by the counters. */
  function Weight(area: seq<FreeArea>, k: nat): int
    requires k <= |area|
  {
    if k == 0 then 0 else Weight(area, k - 1) + area[k - 1].nrFree * Pow2(k - 1)
  }

  lemma {:induction false} WeightUpdate(area: seq<FreeArea>, k: nat, a: FreeArea, m: nat)
    requires m <= |area| && k < |area| && a.nrFree == area[k].nrFree - 1
    ensures Weight(area[k := a], m) == Weight(area, m) - (if k < m then Pow2(k) else 0)
  {
    if m > 0 {
      WeightUpdate(area, k, a, m - 1);
      if k == m - 1 {
        assert a.nrFree * Pow2(k) == area[k].nrFree * Pow2(k) - Pow2(k);
      }
    }
  }

  lemma {:induction false} WeightOfNothing(area: seq<FreeArea>, m: nat)
    requires m <= |area| && forall k | 0 <= k < m :: area[k].nrFree == 0
    ensures Weight(area, m) == 0
  {
    if m > 0 { WeightOfNothing(area, m - 1); }
  }

  /** The counters add up to the number of free pages. */
  lemma {:induction false} CountersCountFreePages(z: Zone, n: nat, free: set<nat>)
    requires Inv(z, n, free)
    ensures Weight(z.area, TOP + 1) == |free|
    decreases |free|
  {
    if free == {} {
      forall k: nat | k <= TOP
        ensures z.area[k].nrFree == 0
      {
        assert ListOk(z, free, k);
        if z.area[k].list != [] {
          assert z.area[k].list[0] in z.area[k].list;
          MaximalInRange(n, free, z.area[k].list[0], k);
        }
      }
      WeightOfNothing(z.area, TOP + 1);
    } else {
      var x :| x in free;
      assert Full(free, x, 0);
      var p, k := MaximalAbove(free, x, 0);
      assert ListOk(z, free, k);
      TakeInv(z, n, free, p, k);
      var rest := free - Block(p, k);
      PagesSize(p, Pow2(k));
      assert Block(p, k) <= free;
      assert free == rest + Block(p, k) && |free| == |rest| + |Block(p, k)|;
      CountersCountFreePages(Take(z, p, k), n, rest);
      WeightUpdate(z.area, k, Take(z, p, k).area[k], TOP + 1);
    }
  }
}
