/** The page allocator as it runs: page heads and free areas updated in place. */
module BuddyAllocator {
  import opened Bits
  import opened FreeBlocks
  import opened BuddyModel
  import opened BuddyInvariant
  import BuddyBoot
  import opened Options

  const MAX_ORDER: nat := 11

  function FindBuddyIndex(pageIdx: nat, order: nat): nat {
    Xor(pageIdx, Pow2(order))
  }

  /** Index arithmetic inside an 11-bit window finds the true buddy and the true parent. */
  lemma BuddyIndex(page: nat, pageIdx: nat, order: nat)
    requires order < TOP && Aligned(page, order)
    requires pageIdx <= page && Aligned(page - pageIdx, MAX_ORDER)
    ensures var buddyIdx := FindBuddyIndex(pageIdx, order);
            var combinedIdx := And(buddyIdx, pageIdx);
            && page + buddyIdx - pageIdx == Buddy(page, order)
            && page + combinedIdx - pageIdx == Parent(page, order)
            && combinedIdx <= Parent(page, order)
            && Parent(page, order) - combinedIdx == page - pageIdx
  {
    AlignedDown(page - pageIdx, MAX_ORDER, order);
    AlignedDown(page - pageIdx, MAX_ORDER, order + 1);
    AlignedSum(page - pageIdx, pageIdx, order);
    AlignedSum(page - pageIdx, pageIdx, order + 1);
    XorPow2(pageIdx, order);
  }

  class BuddyMm {
    const pages: array<Page>
    const area: array<FreeArea>
    ghost const n: nat // number of managed pages

    ghost function View(): Zone
      reads pages, area
    {
      Zone(pages[..], area[..])
    }

    /** Within this, reading a buddy's head stays inside the array. */
    ghost predicate Valid()
      reads pages, area
    {
      MarksFit(View(), n)
    }

    constructor (heads: seq<Page>, ghost n: nat)
      ensures fresh(pages) && fresh(area)
      ensures pages[..] == heads && area.Length == MAX_ORDER && this.n == n
    {
      this.n := n;
      pages := new Page[|heads|](i requires 0 <= i < |heads| => heads[i]);
      area := new FreeArea[MAX_ORDER](_ => FreeArea([], 0));
    }

    method GetPage(page: nat)
      requires page < pages.Length
      modifies pages
      ensures View() == BuddyModel.GetPage(old(View()), page)
    {
      pages[page] := pages[page].(count := pages[page].count + 1);
    }

    method PutPageTestzero(page: nat) returns (zero: bool)
      requires page < pages.Length
      modifies pages
      ensures View() == WithCount(old(View()), page, old(pages[page].count) - 1)
      ensures zero <==> old(pages[page].count) == 1
    {
      pages[page] := pages[page].(count := pages[page].count - 1);
      zero := pages[page].count == 0;
    }

    method SetPageOrder(page: nat, order: nat)
      requires page < pages.Length
      modifies pages
      ensures pages[..] ==
              old(pages[..])[page := old(pages[page]).(mapcount := PAGE_BUDDY_MAPCOUNT_VALUE, priv := order)]
    {
      pages[page] := pages[page].(priv := order);
      pages[page] := pages[page].(mapcount := PAGE_BUDDY_MAPCOUNT_VALUE);
    }

    method RmvPageOrder(page: nat)
      requires page < pages.Length
      modifies pages
      ensures pages[..] == old(pages[..])[page := old(pages[page]).(mapcount := -1, priv := 0)]
    {
      pages[page] := pages[page].(mapcount := -1);
      pages[page] := pages[page].(priv := 0);
    }

    /** list_del, one off the counter, order cleared. */
    method Unlink(page: nat, order: nat)
      requires page < pages.Length && order < area.Length
      modifies pages, area
      ensures View() == Take(old(View()), page, order)
    {
      area[order] := area[order].(list := Without(area[order].list, page));
      area[order] := area[order].(nrFree := area[order].nrFree - 1);
      RmvPageOrder(page);
    }

    /** list_add, one on the counter, order set. */
    method Link(page: nat, order: nat)
      requires page < pages.Length && order < area.Length
      modifies pages, area
      ensures View() == Put(old(View()), page, order)
    {
      area[order] := area[order].(list := [page] + area[order].list);
      area[order] := area[order].(nrFree := area[order].nrFree + 1);
      SetPageOrder(page, order);
    }

    /** One round of the merge: absorb the buddy if it is free at this order. */
    method MergeBuddy(page: nat, pageIdx: nat, order: nat) returns (merged: bool, page': nat, pageIdx': nat)
      requires Valid() && order < TOP && Aligned(page, order) && page + Pow2(order) <= n
      requires pageIdx <= page && Aligned(page - pageIdx, MAX_ORDER)
      modifies pages, area
      ensures Valid() && Buddy(page, order) <= n
      ensures merged ==>
                && page' + Pow2(order + 1) <= n && Aligned(page', order + 1)
                && pageIdx' <= page' && Aligned(page' - pageIdx', MAX_ORDER)
                && BuddyModel.FreeOnePage(View(), page', order + 1) == BuddyModel.FreeOnePage(old(View()), page, order)
      ensures !merged ==> page' == page && View() == old(View())
      ensures !merged ==> BuddyModel.FreeOnePage(View(), page, order) == Put(View(), page, order)
    {
      var buddyIdx := FindBuddyIndex(pageIdx, order);
      BuddyIndex(page, pageIdx, order);
      PairFacts(page, order);
      var buddy := page + buddyIdx - pageIdx;
      merged, page', pageIdx' := PageIsBuddy(pages[buddy], order), page, pageIdx;
      if merged {
        Unlink(buddy, order);
        var combinedIdx := And(buddyIdx, pageIdx);
        page' := page + combinedIdx - pageIdx;
        pageIdx' := combinedIdx;
      }
    }

    method FreeOnePage(page0: nat, order0: nat)
      requires Valid() && order0 <= TOP && Aligned(page0, order0) && page0 + Pow2(order0) <= n
      modifies pages, area
      ensures Valid()
      ensures View() == BuddyModel.FreeOnePage(old(View()), page0, order0)
    {
      var page: nat, order: nat := page0, order0;
      var pageIdx: nat := And(page, Pow2(MAX_ORDER) - 1);
      AndMask(page, MAX_ORDER);
      ghost var target := BuddyModel.FreeOnePage(View(), page0, order0);
      var merged := true;
      while order < MAX_ORDER - 1
        invariant Valid() && order <= TOP && Aligned(page, order) && page + Pow2(order) <= n
        invariant pageIdx <= page && Aligned(page - pageIdx, MAX_ORDER)
        invariant BuddyModel.FreeOnePage(View(), page, order) == target
        decreases MAX_ORDER - order
      {
        merged, page, pageIdx := MergeBuddy(page, pageIdx, order);
        if !merged { break; }
        order := order + 1;
      }
      PutFits(View(), n, page, order);
      Link(page, order);
    }

    method Expand(page: nat, low: nat, high0: nat)
      requires high0 < area.Length && page + Pow2(high0) <= pages.Length
      modifies pages, area
      ensures View() == BuddyModel.Expand(old(View()), page, low, high0)
    {
      var high: nat, size: nat := high0, Pow2(high0);
      while high > low
        invariant high <= high0 && size == Pow2(high) && page + size <= pages.Length
        invariant BuddyModel.Expand(View(), page, low, high) == BuddyModel.Expand(old(View()), page, low, high0)
      {
        high := high - 1;
        size := size / 2;
        Link(page + size, high);
      }
    }

    method RmqueueSmallest(order: nat) returns (r: Option<nat>)
      requires ListsInRange(View())
      modifies pages, area
      ensures (View(), r) == BuddyModel.RmqueueSmallest(old(View()), order, order)
    {
      var current := order;
      while current < MAX_ORDER
        invariant order <= current && View() == old(View())
        invariant BuddyModel.RmqueueSmallest(View(), order, current)
               == BuddyModel.RmqueueSmallest(old(View()), order, order)
        decreases MAX_ORDER - current
      {
        if area[current].list == [] {
          current := current + 1;
          continue;
        }
        var page := area[current].list[0];
        Unlink(page, current);
        Expand(page, order, current);
        return Some(page);
      }
      return None;
    }

    method AllocPages(order: nat) returns (r: Option<nat>)
      requires ListsInRange(View())
      modifies pages, area
      ensures (View(), r) == BuddyModel.AllocPages(old(View()), order)
    {
      RmqueueSizes(View(), order, order);
      r := RmqueueSmallest(order);
      if r.Some? {
        ghost var cut := View();
        pages[r.value] := pages[r.value].(priv := 0);
        pages[r.value] := pages[r.value].(count := 1);
        assert View() == cut.(pages := cut.pages[r.value := cut.pages[r.value].(priv := 0, count := 1)]);
      }
    }

    method FreePages(page: nat, order: nat)
      requires Valid() && order <= TOP && Aligned(page, order) && page + Pow2(order) <= n
      modifies pages, area
      ensures Valid()
      ensures View() == BuddyModel.FreePages(old(View()), page, order)
    {
      var zero := PutPageTestzero(page);
      if zero {
        FreeOnePage(page, order);
      }
    }

    method InitBuddyMm()
      requires area.Length == MAX_ORDER
      modifies area
      ensures area[..] == seq(MAX_ORDER, _ => FreeArea([], 0))
    {
      for i := 0 to MAX_ORDER
        invariant forall k | 0 <= k < i :: area[k] == FreeArea([], 0)
      {
        area[i] := FreeArea([], 0);
      }
    }

    method InitPages(pageNumber: nat)
      requires pageNumber <= pages.Length
      modifies pages
      ensures pages[..] == InitZone(old(pages[..]), pageNumber).pages
    {
      for p := 0 to pageNumber
        invariant forall q | 0 <= q < pages.Length ::
                    pages[q] == if q < p then InitPage(old(pages[q])) else old(pages[q])
      {
        pages[p] := pages[p].(count := 1);
        pages[p] := pages[p].(mapcount := -1);
      }
    }

    /** One round of the boot loop: free a block of the current order if it fits, or go down
        to the next order. */
    method FreeRound(pageNumber: nat, idx: nat, order: nat) returns (idx': nat, order': nat)
      requires Valid() && idx < pageNumber == n && order <= TOP && Aligned(idx, order)
      modifies pages, area
      ensures Valid() && idx' <= n && order' <= TOP && Aligned(idx', order')
      ensures idx < idx' || (idx == idx' && order' < order)
      ensures Seed(View(), idx', order', n) == Seed(old(View()), idx, order, n)
    {
      idx', order' := idx, order;
      SeedRound(View(), idx, order, n);
      var left := pageNumber - idx;
      if left >= Pow2(order) {
        FreePages(idx, order);
        idx' := idx + Pow2(order);
      } else {
        order' := order - 1;
      }
    }

    /** Boot: reset the areas, give every managed page its first reference, and free them
        all in the largest blocks that fit. */
    method PmmFreePages(pageNumber: nat)
      requires area.Length == MAX_ORDER && pageNumber == n < pages.Length && !PageBuddy(pages[n])
      modifies pages, area
      ensures Valid()
      ensures Aligned(0, TOP) && View() == Seed(InitZone(old(pages[..]), n), 0, TOP, n)
    {
      BuddyBoot.ZeroAligned(TOP);
      InitBuddyMm();
      InitPages(pageNumber);
      var idx: nat, order: nat := 0, MAX_ORDER - 1;
      ghost var target := Seed(View(), idx, order, n);
      while idx < pageNumber
        invariant Valid() && idx <= n && order <= TOP && Aligned(idx, order)
        invariant Seed(View(), idx, order, n) == target
        decreases n - idx, order
      {
        idx, order := FreeRound(pageNumber, idx, order);
      }
    }
  }
}
