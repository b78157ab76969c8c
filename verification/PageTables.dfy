/** The boot and kernel page tables, what a two-level walk finds in them, and the layout of
    physical memory around the page heads. */
module PageTables {
  import opened Bits
  import opened Options

  const WORD: nat := 0x1_0000_0000
  const PAGE_OFFSET: nat := 0xC000_0000   // KERNBASE
  const PAGE_SIZE: nat := 4096
  const TABLE_SIZE: nat := 1024           // entries in a page directory or page table
  const PAGE_MAP_SIZE: nat := 0x40_0000
  const PAGE_PRESENT: nat := 1
  const PAGE_WRITE: nat := 2
  const PAGE_HEAD: nat := 20              // sizeof(struct page)
  const MIB: nat := 0x10_0000
  const GIB: nat := 0x4000_0000

  // ---- Address macros, on 32-bit words ----

  function PfnAlign(x: nat): nat {
    var y := (x + PAGE_SIZE - 1) % WORD;
    y - y % PAGE_SIZE
  }

  function PfnUp(x: nat): nat {
    (x + PAGE_SIZE - 1) % WORD / PAGE_SIZE
  }

  function PfnPhys(x: nat): nat {
    x * PAGE_SIZE % WORD
  }

  function PgdIndex(x: nat): nat {
    x / PAGE_MAP_SIZE % TABLE_SIZE
  }

  function PteIndex(x: nat): nat {
    x / PAGE_SIZE % TABLE_SIZE
  }

  function OffsetIndex(x: nat): nat {
    x % PAGE_SIZE
  }

  function Pa(x: nat): nat {
    if x == 0 then 0 else (x - PAGE_OFFSET) % WORD
  }

  function Va(x: nat): nat {
    if x == 0 then 0 else (x + PAGE_OFFSET) % WORD
  }

  /** `frame | PAGE_PRESENT | PAGE_WRITE`. */
  function Entry(frame: nat): nat {
    Or(Or(frame, PAGE_PRESENT), PAGE_WRITE)
  }

  function FrameOf(entry: nat): nat {
    entry - entry % PAGE_SIZE
  }

  predicate Present(entry: nat) {
    entry % 2 == 1
  }

  lemma EntryWord(frame: nat)
    requires frame % PAGE_SIZE == 0
    ensures Entry(frame) == frame + 3
  {
    OrZero(frame / 2);
    OrZero(frame / 4);
    assert Or(frame, 1) == 2 * Or(frame / 2, 0) + 1;
    assert (frame + 1) / 2 == frame / 2 && 2 / 2 == 1 && 1 / 2 == 0;
    assert Or(frame / 2, 1) == 2 * Or(frame / 4, 0) + 1;
    assert Or(frame + 1, 2) == 2 * Or(frame / 2, 1) + 1;
  }

  lemma EntryFields(frame: nat)
    requires frame % PAGE_SIZE == 0
    ensures Present(Entry(frame)) && FrameOf(Entry(frame)) == frame
  {
    EntryWord(frame);
    WordFields(frame, Entry(frame));
  }

  lemma WordFields(frame: nat, entry: nat)
    requires frame % PAGE_SIZE == 0 && entry == frame + 3
    ensures Present(entry) && FrameOf(entry) == frame
  {
  }

  // ---- The walk of 32-bit paging ----

  /** A run of words at a physical address. */
  datatype Region = Region(base: nat, words: seq<nat>)

  function ReadWord(mem: seq<Region>, a: nat): Option<nat> {
    if mem == [] then None
    else
      var r := mem[0];
      if r.base <= a < r.base + 4 * |r.words| && (a - r.base) % 4 == 0 then Some(r.words[(a - r.base) / 4])
      else ReadWord(mem[1..], a)
  }

  /** From a page directory entry to the j-th entry of its table, and byte o of that frame;
      None where not mapped. */
  function WalkTable(pde: nat, mem: seq<Region>, j: nat, o: nat): Option<nat> {
    if !Present(pde) then None
    else
      var pte := ReadWord(mem, FrameOf(pde) + 4 * j);
      if pte.None? || !Present(pte.value) then None else Some(FrameOf(pte.value) + o)
  }

  function Walk(pgd: seq<nat>, mem: seq<Region>, va: nat): Option<nat>
    requires |pgd| == TABLE_SIZE
  {
    WalkTable(pgd[PgdIndex(va)], mem, PteIndex(va), OffsetIndex(va))
  }

  /** The i-th word of a table set up to map page i of physical memory. */
  predicate Identity(ptes: seq<nat>, count: nat) {
    count <= |ptes| && forall i | 0 <= i < count :: ptes[i] == Entry(i * PAGE_SIZE)
  }

  /** Directory entries from index `from` on lead to consecutive tables at `base`. */
  predicate LinearPgd(pgd: seq<nat>, from: nat, tables: nat, base: nat) {
    && |pgd| == TABLE_SIZE && from + tables <= TABLE_SIZE
    && forall t | from <= t < from + tables :: pgd[t] == Entry(base + (t - from) * PAGE_SIZE)
  }

  /** The kernel address of byte o of page j of the t-th 4 MiB of physical memory. */
  function Address(t: nat, j: nat, o: nat): nat {
    PAGE_OFFSET + (t * TABLE_SIZE + j) * PAGE_SIZE + o
  }

  lemma AddressFields(t: nat, j: nat, o: nat)
    requires t < 256 && j < TABLE_SIZE && o < PAGE_SIZE
    ensures PgdIndex(Address(t, j, o)) == 768 + t
    ensures PteIndex(Address(t, j, o)) == j
    ensures OffsetIndex(Address(t, j, o)) == o
  {
    AddressPage(t, j, o);
    assert OffsetIndex(Address(t, j, o)) == o by { assert PAGE_OFFSET == 786432 * PAGE_SIZE; }
    assert PgdIndex(Address(t, j, o)) == 768 + t by { AddressTable(t, j, o); }
  }

  lemma AddressPage(t: nat, j: nat, o: nat)
    requires t < 256 && j < TABLE_SIZE && o < PAGE_SIZE
    ensures Address(t, j, o) / PAGE_SIZE == (768 + t) * TABLE_SIZE + j
  {
  }

  lemma AddressTable(t: nat, j: nat, o: nat)
    requires t < 256 && j < TABLE_SIZE && o < PAGE_SIZE
    ensures Address(t, j, o) / PAGE_MAP_SIZE == 768 + t
  {
    assert Address(t, j, o) == (768 + t) * PAGE_MAP_SIZE + j * PAGE_SIZE + o;
  }

  lemma Locate(p: nat) returns (t: nat, j: nat, o: nat)
    requires p < GIB
    ensures t < 256 && j < TABLE_SIZE && o < PAGE_SIZE
    ensures p == (t * TABLE_SIZE + j) * PAGE_SIZE + o && PAGE_OFFSET + p == Address(t, j, o)
    ensures t == p / PAGE_MAP_SIZE && t * TABLE_SIZE + j == p / PAGE_SIZE
  {
    t := p / PAGE_MAP_SIZE;
    j := p % PAGE_MAP_SIZE / PAGE_SIZE;
    o := p % PAGE_SIZE;
  }

  lemma TablePlus(base: nat, t: nat)
    requires base % PAGE_SIZE == 0
    ensures (base + t * PAGE_SIZE) % PAGE_SIZE == 0
  {
  }

  /** The j-th word of the t-th table. */
  lemma ReadTable(base: nat, ptes: seq<nat>, t: nat, j: nat)
    requires j < TABLE_SIZE && t * TABLE_SIZE + j < |ptes|
    ensures ReadWord([Region(base, ptes)], base + t * PAGE_SIZE + 4 * j) == Some(ptes[t * TABLE_SIZE + j])
  {
    var a := base + t * PAGE_SIZE + 4 * j;
    assert a - base == 4 * (t * TABLE_SIZE + j);
  }

  /** A linear directory over identity tables maps PAGE_OFFSET + p to p. */
  lemma LinearWalk(pgd: seq<nat>, ptes: seq<nat>, base: nat, tables: nat, p: nat)
    requires base % PAGE_SIZE == 0 && p < GIB
    requires LinearPgd(pgd, 768, tables, base) && p / PAGE_MAP_SIZE < tables
    requires Identity(ptes, p / PAGE_SIZE + 1)
    ensures Walk(pgd, [Region(base, ptes)], PAGE_OFFSET + p) == Some(p)
  {
    var t, j, o := Locate(p);
    AddressFields(t, j, o);
    DirectoryStep(pgd, base, tables, t);
    TableStep(ptes, base, pgd[768 + t], t, j, o, t * TABLE_SIZE + j);
  }

  /** The directory entry of the t-th 4 MiB leads to the t-th table. */
  lemma DirectoryStep(pgd: seq<nat>, base: nat, tables: nat, t: nat)
    requires base % PAGE_SIZE == 0 && LinearPgd(pgd, 768, tables, base) && t < tables
    ensures Present(pgd[768 + t]) && FrameOf(pgd[768 + t]) == base + t * PAGE_SIZE
  {
    assert pgd[768 + t] == Entry(base + (768 + t - 768) * PAGE_SIZE);
    TablePlus(base, t);
    EntryFields(base + t * PAGE_SIZE);
  }

  /** The j-th entry of that table leads to the i-th page of physical memory. */
  lemma TableStep(ptes: seq<nat>, base: nat, pde: nat, t: nat, j: nat, o: nat, i: nat)
    requires j < TABLE_SIZE && i == t * TABLE_SIZE + j && Identity(ptes, i + 1)
    requires Present(pde) && FrameOf(pde) == base + t * PAGE_SIZE
    ensures WalkTable(pde, [Region(base, ptes)], j, o) == Some(i * PAGE_SIZE + o)
  {
    ReadTable(base, ptes, t, j);
    assert ptes[i] == Entry(i * PAGE_SIZE);
    EntryFields(i * PAGE_SIZE);
  }

  // ---- Boot tables ----

  class BootTables {
    const pgd: array<nat>
    const pteLow: array<nat>
    const pteHigh: array<nat>

    /** The three tables of boot.s, assembled as zeros. */
    constructor ()
      ensures fresh(pgd) && fresh(pteLow) && fresh(pteHigh) && Shape()
      ensures forall i | 0 <= i < TABLE_SIZE :: pgd[i] == 0
    {
      pgd := new nat[TABLE_SIZE](_ => 0);
      pteLow := new nat[TABLE_SIZE](_ => 0);
      pteHigh := new nat[4 * TABLE_SIZE](_ => 0);
    }

    predicate Shape() {
      && pgd.Length == pteLow.Length == TABLE_SIZE && pteHigh.Length == 4 * TABLE_SIZE
      && pgd != pteLow && pgd != pteHigh && pteLow != pteHigh
    }

    method MmapTmpPage(pteLowPa: nat, pteHighPa: nat)
      requires Shape() && forall i | 0 <= i < TABLE_SIZE :: pgd[i] == 0
      modifies pgd, pteLow, pteHigh
      ensures BootPgd(pgd[..], pteLowPa, pteHighPa)
      ensures Identity(pteLow[..], TABLE_SIZE) && Identity(pteHigh[..], 4 * TABLE_SIZE)
    {
      pgd[0] := Entry(pteLowPa);
      for i := 0 to 4
        invariant forall j | 0 <= j < TABLE_SIZE ::
                    pgd[j] == if j == 0 then Entry(pteLowPa)
                              else if 768 <= j < 768 + i then Entry(pteHighPa + PAGE_SIZE * (j - 768))
                              else 0
      {
        var pgdIdx := PgdIndex(PAGE_OFFSET + PAGE_MAP_SIZE * i);
        pgd[pgdIdx] := Entry(pteHighPa + PAGE_SIZE * i);
      }
      for i := 0 to 1024
        modifies pteLow
        invariant forall j | 0 <= j < i :: pteLow[j] == Entry(j * PAGE_SIZE)
      {
        pteLow[i] := Entry(i * PAGE_SIZE);
      }
      for i := 0 to 1024 * 4
        modifies pteHigh
        invariant forall j | 0 <= j < i :: pteHigh[j] == Entry(j * PAGE_SIZE)
      {
        pteHigh[i] := Entry(i * PAGE_SIZE);
      }
    }
  }

  predicate BootPgd(pgd: seq<nat>, pteLowPa: nat, pteHighPa: nat) {
    && |pgd| == TABLE_SIZE
    && forall j | 0 <= j < TABLE_SIZE ::
         pgd[j] == if j == 0 then Entry(pteLowPa)
                   else if 768 <= j < 772 then Entry(pteHighPa + PAGE_SIZE * (j - 768))
                   else 0
  }

  /** The boot tables map the first 4 MiB onto itself and, above PAGE_OFFSET, exactly the
      first 16 MiB of physical memory. */
  lemma BootWalk(pgd: seq<nat>, low: seq<nat>, high: seq<nat>, lowPa: nat, highPa: nat, p: nat)
    requires BootPgd(pgd, lowPa, highPa) && |low| == TABLE_SIZE && |high| == 4 * TABLE_SIZE
    requires Identity(low, TABLE_SIZE) && Identity(high, 4 * TABLE_SIZE)
    requires lowPa % PAGE_SIZE == 0 && highPa % PAGE_SIZE == 0
    requires lowPa + PAGE_SIZE <= highPa || highPa + 4 * PAGE_SIZE <= lowPa
    ensures p < 4 * MIB ==> Walk(pgd, [Region(lowPa, low), Region(highPa, high)], p) == Some(p)
    ensures p < GIB ==>
              Walk(pgd, [Region(lowPa, low), Region(highPa, high)], PAGE_OFFSET + p)
              == if p < 16 * MIB then Some(p) else None
  {
    if p < 4 * MIB { BootLow(pgd, low, high, lowPa, highPa, p); }
    if p < GIB {
      var t, j, o := Locate(p);
      AddressFields(t, j, o);
      if p < 16 * MIB { BootHigh(pgd, low, high, lowPa, highPa, p); }
    }
  }

  lemma BootLow(pgd: seq<nat>, low: seq<nat>, high: seq<nat>, lowPa: nat, highPa: nat, p: nat)
    requires BootPgd(pgd, lowPa, highPa) && Identity(low, TABLE_SIZE)
    requires lowPa % PAGE_SIZE == 0 && p < 4 * MIB
    ensures Walk(pgd, [Region(lowPa, low), Region(highPa, high)], p) == Some(p)
  {
    var j := PteIndex(p);
    LowFields(p, j);
    EntryFields(lowPa);
    EntryFields(j * PAGE_SIZE);
    assert low[j] == Entry(j * PAGE_SIZE);
  }

  lemma LowFields(p: nat, j: nat)
    requires p < 4 * MIB && j == PteIndex(p)
    ensures PgdIndex(p) == 0 && j * PAGE_SIZE + OffsetIndex(p) == p
  {
  }

  /** The high tables, seen past the low one. */
  lemma BootHigh(pgd: seq<nat>, low: seq<nat>, high: seq<nat>, lowPa: nat, highPa: nat, p: nat)
    requires BootPgd(pgd, lowPa, highPa) && |low| == TABLE_SIZE && Identity(high, 4 * TABLE_SIZE)
    requires lowPa % PAGE_SIZE == 0 && highPa % PAGE_SIZE == 0 && p < 16 * MIB
    requires lowPa + PAGE_SIZE <= highPa || highPa + 4 * PAGE_SIZE <= lowPa
    ensures Walk(pgd, [Region(lowPa, low), Region(highPa, high)], PAGE_OFFSET + p) == Some(p)
  {
    HighTables(pgd, lowPa, highPa);
    LinearWalk(pgd, high, highPa, 4, p);
    var t, j, o := Locate(p);
    AddressFields(t, j, o);
    HighTables(pgd, lowPa, highPa);
    DirectoryStep(pgd, highPa, 4, t);
    WalkSkips(pgd, Region(lowPa, low), Region(highPa, high), PAGE_OFFSET + p);
  }

  lemma HighTables(pgd: seq<nat>, lowPa: nat, highPa: nat)
    requires BootPgd(pgd, lowPa, highPa)
    ensures LinearPgd(pgd, 768, 4, highPa)
  {
  }

  lemma WalkSkips(pgd: seq<nat>, first: Region, second: Region, va: nat)
    requires |pgd| == TABLE_SIZE
    requires var a := FrameOf(pgd[PgdIndex(va)]) + 4 * PteIndex(va);
             a < first.base || a >= first.base + 4 * |first.words|
    ensures Walk(pgd, [first, second], va) == Walk(pgd, [second], va)
  {
    assert [first, second][1..] == [second];
  }

  // ---- Physical layout ----

  /** What init_pmm derives from the end of the kernel and the end of memory. */
  datatype Layout = Layout(
    kernPgd: nat, kernPte: nat, ptePages: nat,
    phyPages: nat, pfnPages: nat, pageCount: nat, minPhy: nat, maxPhy: nat)

  function InitPmm(kernEnd: nat, maxPhy: nat): Layout {
    var (kernPgd, kernPte, ptePages, phyPages) := PlaceTables(kernEnd, maxPhy);
    var (pfnPages, pageCount, minPhy) := PlaceHeads(phyPages, maxPhy);
    Layout(kernPgd, kernPte, ptePages, phyPages, pfnPages, pageCount, minPhy, maxPhy)
  }

  /** Where the page directory and the page tables go, how many tables, and where they end. */
  function PlaceTables(kernEnd: nat, maxPhy: nat): (nat, nat, nat, nat) {
    var kernPgd := Va(PfnAlign(kernEnd));
    var kernPte := (kernPgd + PAGE_SIZE) % WORD;
    var ptePages := (PfnUp(maxPhy) + (TABLE_SIZE - 1)) / TABLE_SIZE;
    (kernPgd, kernPte, ptePages, (kernPte + ptePages * PAGE_SIZE) % WORD)
  }

  /** Size and place of the head array, the number of pages it leaves, and where they start. */
  function PlaceHeads(phyPages: nat, maxPhy: nat): (nat, nat, nat) {
    var count := (maxPhy - Pa(phyPages)) % WORD / PAGE_SIZE;
    var pfnPages := PfnUp(count * PAGE_HEAD);
    (pfnPages, (count - pfnPages) % WORD, (Pa(phyPages) + PfnPhys(pfnPages)) % WORD)
  }

  /** Pages of memory in front of the page heads: kernel, page directory, page tables. */
  function FrontPages(kernEnd: nat, maxPhy: nat): nat {
    (kernEnd + PAGE_SIZE - 1) / PAGE_SIZE + 1 + (maxPhy / PAGE_SIZE + TABLE_SIZE - 1) / TABLE_SIZE
  }

  /** Pages that `count` page heads take. */
  function HeadPages(count: nat): nat {
    (count * PAGE_HEAD + PAGE_SIZE - 1) / PAGE_SIZE
  }

  /** The memory the loader reports: whole pages, at most 1 GiB, with room after the tables. */
  predicate MemoryOk(kernEnd: nat, maxPhy: nat) {
    0 < kernEnd && maxPhy % PAGE_SIZE == 0 && maxPhy <= GIB && FrontPages(kernEnd, maxPhy) * PAGE_SIZE < maxPhy
  }

  lemma PfnPhysExact(pfn: nat)
    requires pfn < 0x10_0000
    ensures PfnPhys(pfn) == pfn * PAGE_SIZE
  {
  }

  lemma PfnUpExact(x: nat)
    requires x % PAGE_SIZE == 0 && x <= GIB
    ensures PfnUp(x) == x / PAGE_SIZE
  {
  }

  lemma PfnAlignExact(x: nat)
    requires x <= GIB
    ensures PfnAlign(x) == (x + PAGE_SIZE - 1) / PAGE_SIZE * PAGE_SIZE
    ensures x <= PfnAlign(x) < x + PAGE_SIZE
  {
  }

  /** The intended layout, free of wrap-around: page directory and page tables on top of the
      kernel, then the page heads and room for one more, then the pages up to the very end of
      memory. */
  predicate LaidOut(l: Layout, kernEnd: nat, maxPhy: nat) {
    && PAGE_OFFSET + kernEnd <= l.kernPgd < PAGE_OFFSET + kernEnd + PAGE_SIZE && l.kernPgd % PAGE_SIZE == 0
    && l.kernPte == l.kernPgd + PAGE_SIZE
    && l.ptePages <= 256 && maxPhy / PAGE_SIZE <= l.ptePages * TABLE_SIZE < maxPhy / PAGE_SIZE + TABLE_SIZE
    && l.phyPages == l.kernPte + l.ptePages * PAGE_SIZE
    && (l.pageCount + 1) * PAGE_HEAD <= l.pfnPages * PAGE_SIZE
    && l.minPhy % PAGE_SIZE == 0 && l.minPhy > 0
    && l.minPhy + l.pageCount * PAGE_SIZE == maxPhy <= GIB
    && l.maxPhy == maxPhy
    && PAGE_OFFSET + l.minPhy == l.phyPages + l.pfnPages * PAGE_SIZE && l.pfnPages <= 1280
  }

  lemma LayoutFits(kernEnd: nat, maxPhy: nat)
    requires MemoryOk(kernEnd, maxPhy)
    ensures LaidOut(InitPmm(kernEnd, maxPhy), kernEnd, maxPhy)
  {
    TablesPlaced(kernEnd, maxPhy);
    TablesCover(maxPhy);
    HeadsPlaced(FrontPages(kernEnd, maxPhy), maxPhy);
  }

  lemma TablesPlaced(kernEnd: nat, maxPhy: nat)
    requires MemoryOk(kernEnd, maxPhy)
    ensures var (kernPgd, kernPte, ptePages, phyPages) := PlaceTables(kernEnd, maxPhy);
            && PAGE_OFFSET + kernEnd <= kernPgd < PAGE_OFFSET + kernEnd + PAGE_SIZE && kernPgd % PAGE_SIZE == 0
            && kernPte == kernPgd + PAGE_SIZE
            && ptePages == (maxPhy / PAGE_SIZE + TABLE_SIZE - 1) / TABLE_SIZE
            && phyPages == kernPte + ptePages * PAGE_SIZE
            && phyPages == PAGE_OFFSET + FrontPages(kernEnd, maxPhy) * PAGE_SIZE
  {
    PfnUpExact(maxPhy);
    PfnAlignExact(kernEnd);
    var k := (kernEnd + PAGE_SIZE - 1) / PAGE_SIZE;
    VaPa(k);
    VaPa(k + 1);
    VaPa(FrontPages(kernEnd, maxPhy));
  }

  lemma TablesCover(maxPhy: nat)
    requires maxPhy <= GIB
    ensures var tables := (maxPhy / PAGE_SIZE + TABLE_SIZE - 1) / TABLE_SIZE;
            tables <= 256 && maxPhy / PAGE_SIZE <= tables * TABLE_SIZE < maxPhy / PAGE_SIZE + TABLE_SIZE
  {
  }

  lemma VaPa(pages: nat)
    requires 0 < pages && pages * PAGE_SIZE < GIB
    ensures Va(pages * PAGE_SIZE) == PAGE_OFFSET + pages * PAGE_SIZE == (PAGE_OFFSET + pages * PAGE_SIZE) % WORD
    ensures (PAGE_OFFSET + pages * PAGE_SIZE) % PAGE_SIZE == 0
    ensures Pa(PAGE_OFFSET + pages * PAGE_SIZE) == pages * PAGE_SIZE
  {
  }

  lemma HeadsFit(count: nat)
    requires count <= 0x4_0000
    ensures PfnUp(count * PAGE_HEAD) == HeadPages(count) <= count
    ensures count * PAGE_HEAD <= HeadPages(count) * PAGE_SIZE
  {
  }

  lemma PagesBetween(front: nat, maxPhy: nat) returns (count: nat)
    requires maxPhy % PAGE_SIZE == 0 && front * PAGE_SIZE <= maxPhy <= GIB
    ensures count <= 0x4_0000 && (front + count) * PAGE_SIZE == maxPhy
    ensures (maxPhy - front * PAGE_SIZE) % WORD / PAGE_SIZE == count
  {
    count := maxPhy / PAGE_SIZE - front;
    assert maxPhy - front * PAGE_SIZE == count * PAGE_SIZE;
  }

  lemma HeadsPlaced(front: nat, maxPhy: nat)
    requires maxPhy % PAGE_SIZE == 0 && 0 < front && front * PAGE_SIZE < maxPhy <= GIB
    ensures var phyPages := PAGE_OFFSET + front * PAGE_SIZE;
            var (pfnPages, count, minPhy) := PlaceHeads(phyPages, maxPhy);
            && PAGE_OFFSET + minPhy == phyPages + pfnPages * PAGE_SIZE && pfnPages <= 1280
            && (count + 1) * PAGE_HEAD <= pfnPages * PAGE_SIZE
            && minPhy == (front + HeadPages(maxPhy / PAGE_SIZE - front)) * PAGE_SIZE
            && minPhy % PAGE_SIZE == 0 && minPhy > 0
            && minPhy + count * PAGE_SIZE == maxPhy
  {
    var all := PagesBetween(front, maxPhy);
    VaPa(front);
    HeadsFit(all);
    var heads := HeadPages(all);
    assert (all - heads) % WORD == all - heads;
    SumFits(front, heads);
    assert PlaceHeads(PAGE_OFFSET + front * PAGE_SIZE, maxPhy) == (heads, all - heads, (front + heads) * PAGE_SIZE);
  }

  lemma SumFits(front: nat, heads: nat)
    requires (front + heads) * PAGE_SIZE <= GIB
    ensures (front * PAGE_SIZE + PfnPhys(heads)) % WORD == (front + heads) * PAGE_SIZE
  {
    assert PfnPhys(heads) == heads * PAGE_SIZE;
  }

  /** The boot tables reach every page head exactly when all that lies in front of the pages,
      heads included, takes at most 4096 pages; a kernel that ends below 9 MiB is safe with any
      memory. Nothing in init_pmm checks it. */
  lemma HeadsMappedAtBoot(kernEnd: nat, maxPhy: nat)
    requires MemoryOk(kernEnd, maxPhy)
    ensures var front := FrontPages(kernEnd, maxPhy);
            && front <= maxPhy / PAGE_SIZE
            && (InitPmm(kernEnd, maxPhy).minPhy <= 16 * MIB
                <==> front + HeadPages(maxPhy / PAGE_SIZE - front) <= 4096)
    ensures kernEnd <= 9 * MIB ==> InitPmm(kernEnd, maxPhy).minPhy <= 16 * MIB
  {
    TablesPlaced(kernEnd, maxPhy);
    HeadsPlaced(FrontPages(kernEnd, maxPhy), maxPhy);
  }

  /** A 12 MiB kernel on a machine with 1 GiB: the page heads run past what is mapped. */
  lemma HeadsBeyondBootTables()
    ensures MemoryOk(12 * MIB, GIB) && InitPmm(12 * MIB, GIB).minPhy > 16 * MIB
  {
    assert FrontPages(12 * MIB, GIB) == 3329 && HeadPages(GIB / PAGE_SIZE - 3329) == 1264;
    HeadsMappedAtBoot(12 * MIB, GIB);
  }

  // ---- Page heads, frame numbers and addresses ----

  function PfnToPage(l: Layout, pfn: nat): nat {
    l.phyPages + pfn * PAGE_HEAD
  }

  function PageToPfn(l: Layout, page: nat): nat
    requires page >= l.phyPages
  {
    (page - l.phyPages) / PAGE_HEAD
  }

  function PageAddress(l: Layout, page: nat): nat
    requires page >= l.phyPages
  {
    Va((l.minPhy + PfnPhys(PageToPfn(l, page))) % WORD)
  }

  /** Each managed head gives back its own number and its own page of memory, so no two
      heads share an address and every page ends inside memory. */
  lemma PageAddressExact(l: Layout, kernEnd: nat, maxPhy: nat, pfn: nat)
    requires LaidOut(l, kernEnd, maxPhy) && pfn < l.pageCount
    ensures && PageToPfn(l, PfnToPage(l, pfn)) == pfn
            && PageAddress(l, PfnToPage(l, pfn)) == PAGE_OFFSET + l.minPhy + pfn * PAGE_SIZE
            && l.minPhy + (pfn + 1) * PAGE_SIZE <= maxPhy
  {
    LastPage(l.minPhy, l.pageCount, maxPhy, pfn);
    HeadNumber(l, pfn);
    NoWrap(l.minPhy, pfn);
  }

  lemma HeadNumber(l: Layout, pfn: nat)
    ensures PageToPfn(l, PfnToPage(l, pfn)) == pfn
  {
    assert PfnToPage(l, pfn) - l.phyPages == pfn * PAGE_HEAD;
  }

  lemma NoWrap(minPhy: nat, pfn: nat)
    requires 0 < minPhy && minPhy + (pfn + 1) * PAGE_SIZE <= GIB
    ensures Va((minPhy + PfnPhys(pfn)) % WORD) == PAGE_OFFSET + minPhy + pfn * PAGE_SIZE
  {
    assert PfnPhys(pfn) == pfn * PAGE_SIZE;
  }

  lemma LastPage(minPhy: nat, count: nat, maxPhy: nat, pfn: nat)
    requires pfn < count && minPhy + count * PAGE_SIZE == maxPhy
    ensures minPhy + (pfn + 1) * PAGE_SIZE <= maxPhy
  {
  }

  // ---- Kernel tables ----

  class KernelTables {
    const pgd: array<nat>
    const pte: array<nat>

    /** Whatever the memory held before is left in the entries that are not set. */
    constructor (l: Layout, oldPgd: seq<nat>, oldPte: seq<nat>)
      requires |oldPgd| == TABLE_SIZE && |oldPte| == l.ptePages * TABLE_SIZE
      ensures fresh(pgd) && fresh(pte) && pgd != pte
      ensures pgd[..] == oldPgd && pte[..] == oldPte
    {
      pgd := new nat[TABLE_SIZE](i requires 0 <= i < |oldPgd| => oldPgd[i]);
      pte := new nat[|oldPte|](i requires 0 <= i < |oldPte| => oldPte[i]);
    }

    method InitKernelVmm(l: Layout, kernEnd: nat)
      requires pgd.Length == TABLE_SIZE && pte.Length == l.ptePages * TABLE_SIZE && pgd != pte
      requires LaidOut(l, kernEnd, l.maxPhy)
      modifies pgd, pte
      ensures Mapped(l, pgd[..], pte[..])
      ensures forall j | 0 <= j < 768 :: pgd[j] == old(pgd[j])
    {
      FillPgd(l, kernEnd);
      PfnUpExact(l.maxPhy);
      FillPte(PfnUp(l.maxPhy));
    }

    method FillPte(count: nat)
      requires count <= pte.Length && count <= 0x10_0000
      modifies pte
      ensures Identity(pte[..], count)
    {
      for i := 0 to count
        invariant forall j | 0 <= j < i :: pte[j] == Entry(j * PAGE_SIZE)
      {
        PfnPhysExact(i);
        pte[i] := Entry(PfnPhys(i));
      }
    }

    method FillPgd(l: Layout, kernEnd: nat)
      requires pgd.Length == TABLE_SIZE && LaidOut(l, kernEnd, l.maxPhy)
      modifies pgd
      ensures LinearPgd(pgd[..], 768, l.ptePages, Pa(l.kernPte))
      ensures forall j | 0 <= j < 768 :: pgd[j] == old(pgd[j])
    {
      var pgdIdx := PgdIndex(PAGE_OFFSET);
      assert pgdIdx == 768;
      for idx := 0 to l.ptePages
        invariant forall t | 768 <= t < 768 + idx :: pgd[t] == Entry(Pa(l.kernPte) + (t - 768) * PAGE_SIZE)
        invariant forall j | 0 <= j < 768 :: pgd[j] == old(pgd[j])
      {
        var pteAddr := l.kernPte + PfnPhys(idx);
        TableAddress(l, kernEnd, idx);
        pgd[pgdIdx + idx] := Entry(Pa(pteAddr));
      }
    }
  }

  lemma TableAddress(l: Layout, kernEnd: nat, idx: nat)
    requires LaidOut(l, kernEnd, l.maxPhy) && idx < l.ptePages
    ensures Pa(l.kernPte + PfnPhys(idx)) == Pa(l.kernPte) + idx * PAGE_SIZE
    ensures Pa(l.kernPte) == l.kernPte - PAGE_OFFSET
  {
    assert PfnPhys(idx) == idx * PAGE_SIZE;
  }

  /** What init_kernel_vmm leaves in the tables. */
  predicate Mapped(l: Layout, pgd: seq<nat>, pte: seq<nat>) {
    LinearPgd(pgd, 768, l.ptePages, Pa(l.kernPte)) && Identity(pte, PfnUp(l.maxPhy))
  }

  /** The kernel tables map PAGE_OFFSET + p to p for all of memory. */
  lemma KernelWalk(l: Layout, kernEnd: nat, maxPhy: nat, pgd: seq<nat>, pte: seq<nat>, p: nat)
    requires LaidOut(l, kernEnd, maxPhy) && Mapped(l, pgd, pte) && p < maxPhy
    ensures Walk(pgd, [Region(Pa(l.kernPte), pte)], PAGE_OFFSET + p) == Some(p)
  {
    TableBase(l, kernEnd, maxPhy);
    InsideTables(l, kernEnd, maxPhy, p);
    LinearWalk(pgd, pte, Pa(l.kernPte), l.ptePages, p);
  }

  lemma InsideTables(l: Layout, kernEnd: nat, maxPhy: nat, p: nat)
    requires LaidOut(l, kernEnd, maxPhy) && p < maxPhy
    ensures p / PAGE_MAP_SIZE < l.ptePages && p / PAGE_SIZE + 1 <= PfnUp(maxPhy)
  {
    MemoryWhole(l.minPhy, l.pageCount, maxPhy);
    PfnUpExact(maxPhy);
    PageInside(maxPhy, l.ptePages, p);
  }

  lemma MemoryWhole(minPhy: nat, count: nat, maxPhy: nat)
    requires minPhy % PAGE_SIZE == 0 && minPhy + count * PAGE_SIZE == maxPhy
    ensures maxPhy % PAGE_SIZE == 0
  {
  }

  lemma TableBase(l: Layout, kernEnd: nat, maxPhy: nat)
    requires LaidOut(l, kernEnd, maxPhy)
    ensures Pa(l.kernPte) == l.kernPte - PAGE_OFFSET && Pa(l.kernPte) % PAGE_SIZE == 0
  {
  }

  lemma PageInside(maxPhy: nat, tables: nat, p: nat)
    requires p < maxPhy && maxPhy % PAGE_SIZE == 0 && maxPhy / PAGE_SIZE <= tables * TABLE_SIZE
    ensures p / PAGE_MAP_SIZE < tables && p / PAGE_SIZE + 1 <= maxPhy / PAGE_SIZE
  {
  }

  /** And agree with the boot tables wherever those map anything above PAGE_OFFSET. */
  lemma KernelAgreesWithBoot(
    l: Layout, kernEnd: nat, maxPhy: nat, pgd: seq<nat>, pte: seq<nat>,
    bootPgd: seq<nat>, low: seq<nat>, high: seq<nat>, lowPa: nat, highPa: nat, p: nat)
    requires LaidOut(l, kernEnd, maxPhy) && Mapped(l, pgd, pte) && p < maxPhy
    requires BootPgd(bootPgd, lowPa, highPa) && |low| == TABLE_SIZE && |high| == 4 * TABLE_SIZE
    requires Identity(low, TABLE_SIZE) && Identity(high, 4 * TABLE_SIZE)
    requires lowPa % PAGE_SIZE == 0 && highPa % PAGE_SIZE == 0
    requires lowPa + PAGE_SIZE <= highPa || highPa + 4 * PAGE_SIZE <= lowPa
    ensures var boot := Walk(bootPgd, [Region(lowPa, low), Region(highPa, high)], PAGE_OFFSET + p);
            var kern := Walk(pgd, [Region(Pa(l.kernPte), pte)], PAGE_OFFSET + p);
            && (boot.Some? ==> kern == boot)
            && (boot.None? <==> p >= 16 * MIB)
  {
    KernelWalk(l, kernEnd, maxPhy, pgd, pte, p);
    BootWalk(bootPgd, low, high, lowPa, highPa, p);
  }
}
