/** From the end of the kernel and the end of memory to allocated memory: init_pmm leaves room for
    the page heads that the allocator reads, and what the allocator hands out is memory of its own. */
module BuddyMemory {
  import opened Bits
  import opened FreeBlocks
  import opened BuddyModel
  import opened BuddyTheorems
  import opened BuddyBoot
  import opened BuddyRuns
  import opened Options
  import P = PageTables
  import SlobModel

  /** The page heads after bzero: as many as fit in the pages set aside for them. */
  function BootHeads(l: P.Layout): seq<Page> {
    seq(l.pfnPages * P.PAGE_SIZE / P.PAGE_HEAD, _ => Page(0, 0, 0))
  }

  /** Rounding up to whole pages always leaves one head more than there are managed pages, the
      one head past them that a merge can look at. */
  lemma HeadsSuffice(kernEnd: nat, maxPhy: nat)
    requires P.MemoryOk(kernEnd, maxPhy)
    ensures var l := P.InitPmm(kernEnd, maxPhy); HeadsOk(BootHeads(l), l.pageCount)
  {
    var l := P.InitPmm(kernEnd, maxPhy);
    P.LayoutFits(kernEnd, maxPhy);
    OneMore(l.pageCount, l.pfnPages * P.PAGE_SIZE);
  }

  lemma OneMore(count: nat, bytes: nat)
    requires (count + 1) * P.PAGE_HEAD <= bytes
    ensures count < bytes / P.PAGE_HEAD
  {
  }

  /** The allocator at the end of init_pmm. */
  ghost function Booted(kernEnd: nat, maxPhy: nat): (w: World)
    requires P.MemoryOk(kernEnd, maxPhy)
    ensures WorldInv(w) && w.n == P.InitPmm(kernEnd, maxPhy).pageCount && w.live == map[]
  {
    HeadsSuffice(kernEnd, maxPhy);
    var l := P.InitPmm(kernEnd, maxPhy);
    BootWorld(BootHeads(l), l.pageCount)
  }

  /** An allocator that manages the pages of a layout. */
  ghost predicate OnMemory(w: World, l: P.Layout, kernEnd: nat, maxPhy: nat) {
    WorldInv(w) && P.LaidOut(l, kernEnd, maxPhy) && w.n == l.pageCount
  }

  /** After every legal run from boot, the end of memory is what lies in front of the pages plus
      the free pages by the counters plus the pages in use. */
  lemma MemoryAccounted(kernEnd: nat, maxPhy: nat, ops: seq<Op>)
    requires P.MemoryOk(kernEnd, maxPhy) && Legal(Booted(kernEnd, maxPhy), ops)
    ensures var l, w := P.InitPmm(kernEnd, maxPhy), Run(Booted(kernEnd, maxPhy), ops);
            && OnMemory(w, l, kernEnd, maxPhy)
            && l.minPhy + (Weight(w.zone.area, TOP + 1) + |LivePages(w.live)|) * P.PAGE_SIZE == maxPhy
  {
    P.LayoutFits(kernEnd, maxPhy);
    WorldCount(Run(Booted(kernEnd, maxPhy), ops));
  }

  /** page_address of the first page of a block. */
  function Start(l: P.Layout, p: nat): nat {
    P.PageAddress(l, P.PfnToPage(l, p))
  }

  function Bytes(k: nat): nat {
    Pow2(k) * P.PAGE_SIZE
  }

  lemma LiveRange(w: World, p: nat)
    requires WorldInv(w) && p in w.live
    ensures p + Pow2(w.live[p]) <= w.n
  {
    assert LiveOk(w, p);
  }

  /** A block in use is memory throughout: under the kernel tables each of its bytes is mapped,
      and to the same place in the block's own frames. */
  lemma LiveBlockMapped(
    w: World, l: P.Layout, kernEnd: nat, maxPhy: nat, p: nat, pgd: seq<nat>, pte: seq<nat>, o: nat)
    requires OnMemory(w, l, kernEnd, maxPhy) && p in w.live && o < Bytes(w.live[p]) && P.Mapped(l, pgd, pte)
    ensures var physical := l.minPhy + p * P.PAGE_SIZE + o;
            && physical < maxPhy
            && P.Walk(pgd, [P.Region(P.Pa(l.kernPte), pte)], Start(l, p) + o) == Some(physical)
  {
    LiveRange(w, p);
    ByteMapped(l, kernEnd, maxPhy, p, Pow2(w.live[p]), pgd, pte, o);
  }

  lemma ByteMapped(
    l: P.Layout, kernEnd: nat, maxPhy: nat, p: nat, pages: nat, pgd: seq<nat>, pte: seq<nat>, o: nat)
    requires P.LaidOut(l, kernEnd, maxPhy) && P.Mapped(l, pgd, pte)
    requires pages > 0 && p + pages <= l.pageCount && o < pages * P.PAGE_SIZE
    ensures var physical := l.minPhy + p * P.PAGE_SIZE + o;
            && physical < maxPhy
            && P.Walk(pgd, [P.Region(P.Pa(l.kernPte), pte)], Start(l, p) + o) == Some(physical)
  {
    var physical := l.minPhy + p * P.PAGE_SIZE + o;
    ByteInside(l.minPhy, l.pageCount, p, pages, o, physical);
    P.PageAddressExact(l, kernEnd, maxPhy, p);
    P.KernelWalk(l, kernEnd, maxPhy, pgd, pte, physical);
  }

  lemma ByteInside(minPhy: nat, count: nat, p: nat, pages: nat, o: nat, physical: nat)
    requires p + pages <= count && o < pages * P.PAGE_SIZE
    requires physical == minPhy + p * P.PAGE_SIZE + o
    ensures physical < minPhy + count * P.PAGE_SIZE
  {
  }

  /** Two blocks in use never overlap in memory. */
  lemma LiveBlocksApart(w: World, l: P.Layout, kernEnd: nat, maxPhy: nat, p: nat, q: nat)
    requires OnMemory(w, l, kernEnd, maxPhy) && p != q && p in w.live && q in w.live
    ensures Start(l, p) + Bytes(w.live[p]) <= Start(l, q) || Start(l, q) + Bytes(w.live[q]) <= Start(l, p)
  {
    LiveRange(w, p);
    LiveRange(w, q);
    P.PageAddressExact(l, kernEnd, maxPhy, p);
    P.PageAddressExact(l, kernEnd, maxPhy, q);
    DisjointRuns(p, w.live[p], q, w.live[q]);
  }

  /** What slob_init asks for at boot: with 1024 pages or more it gets a block of 4 MiB, which is
      the byte allocator's arena to the byte, past the page heads and inside memory. */
  lemma BootArena(kernEnd: nat, maxPhy: nat)
    requires P.MemoryOk(kernEnd, maxPhy) && P.InitPmm(kernEnd, maxPhy).pageCount >= 1024
    ensures ListsInRange(Booted(kernEnd, maxPhy).zone)
    ensures var l, r := P.InitPmm(kernEnd, maxPhy), AllocPages(Booted(kernEnd, maxPhy).zone, 10).1;
            && r.Some? && Step(Booted(kernEnd, maxPhy), Alloc(10)).live == map[r.value := 10]
            && Bytes(10) == SlobModel.ARENA == 4194304
            && Start(l, r.value) >= P.PAGE_OFFSET + l.minPhy
            && Start(l, r.value) + SlobModel.ARENA <= P.PAGE_OFFSET + maxPhy
  {
    var l := P.InitPmm(kernEnd, maxPhy);
    HeadsSuffice(kernEnd, maxPhy);
    BootServesLargest(BootHeads(l), l.pageCount);
    assert Pow2(10) == 1024 by { assert Pow2(5) == 32; }
    P.LayoutFits(kernEnd, maxPhy);
    ArenaInside(l, kernEnd, maxPhy, AllocPages(Booted(kernEnd, maxPhy).zone, 10).1.value);
  }

  lemma ArenaInside(l: P.Layout, kernEnd: nat, maxPhy: nat, p: nat)
    requires P.LaidOut(l, kernEnd, maxPhy) && p + 1024 <= l.pageCount
    ensures Start(l, p) >= P.PAGE_OFFSET + l.minPhy && Start(l, p) + 4194304 <= P.PAGE_OFFSET + maxPhy
  {
    P.PageAddressExact(l, kernEnd, maxPhy, p);
  }

  lemma DisjointRuns(p: nat, j: nat, q: nat, k: nat)
    requires Block(p, j) !! Block(q, k)
    ensures p + Pow2(j) <= q || q + Pow2(k) <= p
  {
    if p <= q {
      assert q in Block(q, k);
    } else {
      assert p in Block(p, j);
    }
  }
}
