/** The state of the page allocator and what each of its operations computes. */
module BuddyModel {
  import opened Bits
  import opened FreeBlocks
  import opened Options

  const PAGE_BUDDY_MAPCOUNT_VALUE: int := -128

  datatype Page = Page(count: int, mapcount: int, priv: int)

  /** One order's free list, first entry first, and its counter. */
  datatype FreeArea = FreeArea(list: seq<nat>, nrFree: int)

  datatype Zone = Zone(pages: seq<Page>, area: seq<FreeArea>)

  /** One free area for each of the eleven orders. */
  predicate Shape(z: Zone) {
    |z.area| == TOP + 1
  }

  predicate PageBuddy(pg: Page) {
    pg.mapcount == PAGE_BUDDY_MAPCOUNT_VALUE
  }

  predicate PageIsBuddy(pg: Page, k: nat) {
    PageBuddy(pg) && pg.priv == k
  }

  function Without(s: seq<nat>, x: nat): seq<nat> {
    if s == [] then [] else if s[0] == x then s[1..] else [s[0]] + Without(s[1..], x)
  }

  /** Unlink head `p` from the order-k list and clear its order. */
  function Take(z: Zone, p: nat, k: nat): Zone
    requires p < |z.pages| && k < |z.area|
  {
    Zone(z.pages[p := z.pages[p].(mapcount := -1, priv := 0)],
         z.area[k := FreeArea(Without(z.area[k].list, p), z.area[k].nrFree - 1)])
  }

  /** Mark `p` as an order-k head and push it on that list. */
  function Put(z: Zone, p: nat, k: nat): Zone
    requires p < |z.pages| && k < |z.area|
  {
    Zone(z.pages[p := z.pages[p].(mapcount := PAGE_BUDDY_MAPCOUNT_VALUE, priv := k)],
         z.area[k := FreeArea([p] + z.area[k].list, z.area[k].nrFree + 1)])
  }

  /** The buddy of `p` is free at order k. Here a head outside the array is no buddy; that the
      allocator never looks at one is proved where it reads the heads. */
  predicate BuddyFree(z: Zone, p: nat, k: nat)
    requires Aligned(p, k)
  {
    Buddy(p, k) < |z.pages| && PageIsBuddy(z.pages[Buddy(p, k)], k)
  }

  function FreeOnePage(z: Zone, p: nat, k: nat): Zone
    requires Shape(z) && k <= TOP && Aligned(p, k) && p < |z.pages|
    decreases TOP - k
  {
    if k < TOP && BuddyFree(z, p, k) then
      PairFacts(p, k);
      FreeOnePage(Take(z, Buddy(p, k), k), Parent(p, k), k + 1)
    else
      Put(z, p, k)
  }

  function Expand(z: Zone, p: nat, low: nat, high: nat): Zone
    requires high < |z.area| && p + Pow2(high) <= |z.pages|
    decreases high
  {
    if high > low then Expand(Put(z, p + Pow2(high - 1), high - 1), p, low, high - 1) else z
  }

  /** Everything on a free list is an aligned block of existing pages. */
  predicate ListsInRange(z: Zone) {
    && Shape(z)
    && forall k, i | 0 <= k <= TOP && 0 <= i < |z.area[k].list| ::
         Aligned(z.area[k].list[i], k) && z.area[k].list[i] + Pow2(k) <= |z.pages|
  }

  function RmqueueSmallest(z: Zone, order: nat, current: nat): (Zone, Option<nat>)
    requires ListsInRange(z) && order <= current
    decreases TOP + 1 - current
  {
    if current > TOP then (z, None)
    else if z.area[current].list == [] then RmqueueSmallest(z, order, current + 1)
    else
      var p := z.area[current].list[0];
      (Expand(Take(z, p, current), p, order, current), Some(p))
  }

  function WithCount(z: Zone, p: nat, c: int): Zone
    requires p < |z.pages|
  {
    z.(pages := z.pages[p := z.pages[p].(count := c)])
  }

  function AllocPages(z: Zone, order: nat): (Zone, Option<nat>)
    requires ListsInRange(z)
  {
    var (z', r) := RmqueueSmallest(z, order, order);
    if r.None? then (z', r)
    else
      RmqueueSizes(z, order, order);
      (z'.(pages := z'.pages[r.value := z'.pages[r.value].(priv := 0, count := 1)]), r)
  }

  /** Drop one reference; the last one returns the block to the free lists. */
  function FreePages(z: Zone, p: nat, k: nat): Zone
    requires Shape(z) && k <= TOP && Aligned(p, k) && p < |z.pages|
  {
    var c := z.pages[p].count - 1;
    if c == 0 then FreeOnePage(WithCount(z, p, c), p, k) else WithCount(z, p, c)
  }

  function GetPage(z: Zone, p: nat): Zone
    requires p < |z.pages|
  {
    WithCount(z, p, z.pages[p].count + 1)
  }

  lemma {:induction false} ExpandSizes(z: Zone, p: nat, low: nat, high: nat)
    requires high < |z.area| && p + Pow2(high) <= |z.pages|
    ensures |Expand(z, p, low, high).pages| == |z.pages| && |Expand(z, p, low, high).area| == |z.area|
    decreases high
  {
    if high > low {
      ExpandSizes(Put(z, p + Pow2(high - 1), high - 1), p, low, high - 1);
    }
  }

  lemma {:induction false} RmqueueSizes(z: Zone, order: nat, current: nat)
    requires ListsInRange(z) && order <= current
    ensures var r := RmqueueSmallest(z, order, current);
            && Shape(r.0) && |r.0.pages| == |z.pages|
            && (r.1.Some? ==> r.1.value < |z.pages|)
    decreases TOP + 1 - current
  {
    if current <= TOP {
      if z.area[current].list == [] {
        RmqueueSizes(z, order, current + 1);
      } else {
        var p := z.area[current].list[0];
        ExpandSizes(Take(z, p, current), p, order, current);
      }
    }
  }

  /** The boot loop that hands [idx, n) to the allocator in the largest blocks that fit. */
  function Seed(z: Zone, idx: nat, order: nat, n: nat): Zone
    requires Shape(z) && n <= |z.pages| && order <= TOP && Aligned(idx, order) && idx <= n
    decreases n - idx, order
  {
    if idx == n then z
    else if n - idx >= Pow2(order) then
      SeedStep(z, idx, order);
      Seed(FreePages(z, idx, order), idx + Pow2(order), order, n)
    else
      AlignedDown(idx, order, order - 1);
      Seed(z, idx, order - 1, n)
  }

  lemma SeedStep(z: Zone, idx: nat, order: nat)
    requires Shape(z) && order <= TOP && Aligned(idx, order) && idx < |z.pages|
    ensures Aligned(idx + Pow2(order), order)
    ensures Shape(FreePages(z, idx, order)) && |FreePages(z, idx, order).pages| == |z.pages|
  {
    EndsAligned(idx, order, order);
    if z.pages[idx].count == 1 {
      FreeOnePageSizes(WithCount(z, idx, 0), idx, order);
    }
  }

  /** One round of the boot loop, whichever way it goes. */
  lemma SeedRound(z: Zone, idx: nat, order: nat, n: nat)
    requires Shape(z) && n <= |z.pages| && order <= TOP && Aligned(idx, order) && idx < n
    ensures n - idx >= Pow2(order) ==>
              && Aligned(idx + Pow2(order), order)
              && Shape(FreePages(z, idx, order)) && |FreePages(z, idx, order).pages| == |z.pages|
              && Seed(z, idx, order, n) == Seed(FreePages(z, idx, order), idx + Pow2(order), order, n)
    ensures n - idx < Pow2(order) ==>
              order > 0 && Aligned(idx, order - 1) && Seed(z, idx, order, n) == Seed(z, idx, order - 1, n)
  {
    SeedStep(z, idx, order);
    if n - idx < Pow2(order) { AlignedDown(idx, order, order - 1); }
  }

  lemma {:induction false} FreeOnePageSizes(z: Zone, p: nat, k: nat)
    requires Shape(z) && k <= TOP && Aligned(p, k) && p < |z.pages|
    ensures Shape(FreeOnePage(z, p, k)) && |FreeOnePage(z, p, k).pages| == |z.pages|
    decreases TOP - k
  {
    if k < TOP && BuddyFree(z, p, k) {
      PairFacts(p, k);
      FreeOnePageSizes(Take(z, Buddy(p, k), k), Parent(p, k), k + 1);
    }
  }

  /** The zone pmm_free_pages starts from: empty lists, each managed page holding one
      reference and no Buddy flag. Heads beyond the managed ones keep what they had. */
  function InitPage(pg: Page): Page {
    pg.(count := 1, mapcount := -1)
  }

  function InitZone(heads: seq<Page>, n: nat): Zone
    requires n <= |heads|
  {
    Zone(seq(|heads|, i requires 0 <= i < |heads| => if i < n then InitPage(heads[i]) else heads[i]),
         seq(TOP + 1, _ => FreeArea([], 0)))
  }
}
