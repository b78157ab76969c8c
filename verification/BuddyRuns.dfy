/** The allocator over whole runs: whatever was allocated, shared and released in whatever
    order, the free lists depend only on which blocks are still live. */
module BuddyRuns {
  import opened Bits
  import opened FreeBlocks
  import opened BuddyModel
  import opened BuddyInvariant
  import opened BuddyTheorems
  import opened BuddyBoot
  import opened Options

  /** The zone together with its callers' view: the order of each block they hold. */
  datatype World = World(zone: Zone, n: nat, live: map<nat, nat>)

  datatype Op = Alloc(order: nat) | Get(page: nat) | Free(page: nat)

  function LivePages(live: map<nat, nat>): set<nat> {
    set p, q | p in live && q in Block(p, live[p]) :: q
  }

  ghost function FreeSet(w: World): set<nat> {
    Pages(0, w.n) - LivePages(w.live)
  }

  predicate LiveOk(w: World, p: nat)
    requires p in w.live
  {
    && w.live[p] <= TOP && Aligned(p, w.live[p])
    && p + Pow2(w.live[p]) <= w.n <= |w.zone.pages|
    && w.zone.pages[p].count >= 1
  }

  ghost predicate WorldInv(w: World) {
    && Inv(w.zone, w.n, FreeSet(w))
    && (forall p | p in w.live :: LiveOk(w, p))
    && (forall p, q | p in w.live && q in w.live && p != q :: Block(p, w.live[p]) !! Block(q, w.live[q]))
  }

  /** Callers may only name blocks they hold. */
  predicate Enabled(w: World, op: Op) {
    op.Alloc? || op.page in w.live
  }

  ghost function Step(w: World, op: Op): World
    requires WorldInv(w) && Enabled(w, op)
  {
    match op
    case Alloc(order) =>
      InvInRange(w.zone, w.n, FreeSet(w));
      var (z, r) := AllocPages(w.zone, order);
      World(z, w.n, if r.Some? then w.live[r.value := order] else w.live)
    case Get(p) =>
      assert LiveOk(w, p);
      World(GetPage(w.zone, p), w.n, w.live)
    case Free(p) =>
      assert LiveOk(w, p);
      World(FreePages(w.zone, p, w.live[p]), w.n,
            if w.zone.pages[p].count == 1 then w.live - {p} else w.live)
  }

  lemma FreeMeetsNoLive(w: World, p: nat)
    requires WorldInv(w) && p in w.live
    ensures FreeSet(w) !! Block(p, w.live[p])
    ensures Block(p, w.live[p]) <= Pages(0, w.n)
  {
    assert LiveOk(w, p);
  }

  /** No step breaks the invariant. */
  lemma StepInv(w: World, op: Op)
    requires WorldInv(w) && Enabled(w, op)
    ensures WorldInv(Step(w, op))
    ensures Step(w, op).n == w.n
  {
    match op
    case Alloc(order) => AllocStep(w, order);
    case Get(p) => GetStep(w, p);
    case Free(p) => FreeStep(w, p);
  }

  lemma GetStep(w: World, p: nat)
    requires WorldInv(w) && p in w.live
    ensures WorldInv(Step(w, Get(p)))
  {
    assert LiveOk(w, p);
    CountInv(w.zone, w.n, FreeSet(w), p, w.zone.pages[p].count + 1);
    var w' := Step(w, Get(p));
    forall q | q in w'.live ensures LiveOk(w', q) { assert LiveOk(w, q); }
  }

  lemma AllocStep(w: World, order: nat)
    requires WorldInv(w)
    ensures WorldInv(Step(w, Alloc(order)))
  {
    var free := FreeSet(w);
    AllocComplete(w.zone, w.n, free, order);
    var (z, r) := AllocPages(w.zone, order);
    if r.Some? {
      var p := r.value;
      AllocIsCut(w.zone, w.n, free, order);
      AllocCounts(w.zone, w.n, free, order);
      var w' := Step(w, Alloc(order));
      NewBlock(w, p, order);
      forall q | q in w'.live ensures LiveOk(w', q) {
        if q != p { assert LiveOk(w, q); }
      }
    } else {
      assert Step(w, Alloc(order)) == w;
    }
  }

  /** A block cut from the free set extends the live ones disjointly. */
  lemma NewBlock(w: World, p: nat, order: nat)
    requires WorldInv(w) && Block(p, order) <= FreeSet(w)
    ensures p !in w.live
    ensures Pages(0, w.n) - LivePages(w.live[p := order]) == FreeSet(w) - Block(p, order)
    ensures forall q | q in w.live :: Block(q, w.live[q]) !! Block(p, order)
  {
    assert p in Block(p, order);
    forall q | q in w.live
      ensures Block(q, w.live[q]) !! Block(p, order) && q != p
    {
      FreeMeetsNoLive(w, q);
      assert q in Block(q, w.live[q]);
    }
    var live' := w.live[p := order];
    forall x: nat
      ensures x in LivePages(live') <==> x in LivePages(w.live) || x in Block(p, order)
    {
      if x in LivePages(w.live) {
        var q :| q in w.live && x in Block(q, w.live[q]);
        assert q in live' && x in Block(q, live'[q]);
      }
      if x in Block(p, order) { assert p in live' && x in Block(p, live'[p]); }
    }
  }

  /** Allocation leaves every other page's reference count alone. */
  lemma AllocCounts(z: Zone, n: nat, free: set<nat>, order: nat)
    requires Inv(z, n, free)
    ensures ListsInRange(z)
    ensures var (z', r) := AllocPages(z, order);
            && |z'.pages| == |z.pages|
            && forall q: nat | q < |z.pages| && r != Some(q) :: z'.pages[q].count == z.pages[q].count
  {
    AllocIsCut(z, n, free, order);
    var j := FirstOrder(z, order);
    if j <= TOP {
      var p := z.area[j].list[0];
      CutInv(z, n, free, order, j);
      forall q: nat | q < |z.pages|
        ensures |CutFrom(z, order, j).pages| == |z.pages|
        ensures CutFrom(z, order, j).pages[q].count == z.pages[q].count
      {
        ExpandCounts(Take(z, p, j), p, order, j, q);
      }
    }
  }

  lemma FreeStep(w: World, p: nat)
    requires WorldInv(w) && p in w.live
    ensures WorldInv(Step(w, Free(p)))
  {
    assert LiveOk(w, p);
    var k := w.live[p];
    FreeMeetsNoLive(w, p);
    FreePagesInv(w.zone, w.n, FreeSet(w), p, k);
    FreePagesCounts(w, p);
    var w' := Step(w, Free(p));
    if w.zone.pages[p].count == 1 { OldBlock(w, p); }
    forall q | q in w'.live ensures LiveOk(w', q) { assert LiveOk(w, q); }
  }

  lemma OldBlock(w: World, p: nat)
    requires WorldInv(w) && p in w.live
    ensures Pages(0, w.n) - LivePages(w.live - {p}) == FreeSet(w) + Block(p, w.live[p])
  {
    FreeMeetsNoLive(w, p);
    var live' := w.live - {p};
    forall x: nat
      ensures x in LivePages(live') <==> x in LivePages(w.live) && x !in Block(p, w.live[p])
    {
      if x in LivePages(w.live) && x !in Block(p, w.live[p]) {
        var q :| q in w.live && x in Block(q, w.live[q]);
        assert q in live' && x in Block(q, live'[q]);
      }
      if x in LivePages(live') {
        var q :| q in live' && x in Block(q, live'[q]);
        assert q in w.live && x in Block(q, w.live[q]);
      }
    }
  }

  /** Dropping a reference changes only that page's count. */
  lemma FreePagesCounts(w: World, p: nat)
    requires WorldInv(w) && p in w.live
    ensures LiveOk(w, p)
    ensures var z' := FreePages(w.zone, p, w.live[p]);
            && |z'.pages| == |w.zone.pages|
            && z'.pages[p].count == w.zone.pages[p].count - 1
            && forall q: nat | q < |z'.pages| && q != p :: z'.pages[q].count == w.zone.pages[q].count
  {
    assert LiveOk(w, p);
    if w.zone.pages[p].count == 1 {
      var z0 := WithCount(w.zone, p, 0);
      forall q: nat | q < |w.zone.pages|
        ensures |FreeOnePage(z0, p, w.live[p]).pages| == |z0.pages|
        ensures FreeOnePage(z0, p, w.live[p]).pages[q].count == z0.pages[q].count
      {
        FreeOnePageCounts(z0, p, w.live[p], q);
      }
    }
  }

  // ---- Runs ----

  ghost predicate Legal(w: World, ops: seq<Op>)
    requires WorldInv(w)
    decreases |ops|
  {
    ops == [] || (Enabled(w, ops[0]) && (StepInv(w, ops[0]); Legal(Step(w, ops[0]), ops[1..])))
  }

  ghost function Run(w: World, ops: seq<Op>): (w': World)
    requires WorldInv(w) && Legal(w, ops)
    ensures WorldInv(w') && w'.n == w.n
    decreases |ops|
  {
    if ops == [] then w else
      StepInv(w, ops[0]);
      Run(Step(w, ops[0]), ops[1..])
  }

  /** The world right after boot seeding. */
  ghost function BootWorld(heads: seq<Page>, n: nat): (w: World)
    requires HeadsOk(heads, n)
    ensures WorldInv(w) && w.n == n && w.live == map[]
  {
    SeedAll(heads, n);
    var w := World(Seed(InitZone(heads, n), 0, TOP, n), n, map[]);
    assert FreeSet(w) == Pages(0, n);
    w
  }

  /** After every legal run from boot: the lists of the eleven orders hold exactly the maximal
      blocks of the pages nobody holds, marks and orders agree with the lists, and free
      pages by the counters plus live pages make up the whole memory. */
  lemma EveryRun(heads: seq<Page>, n: nat, ops: seq<Op>)
    requires HeadsOk(heads, n) && Legal(BootWorld(heads, n), ops)
    ensures var w' := Run(BootWorld(heads, n), ops);
            && |w'.zone.area| == 11
            && (forall k: nat, p: nat | k <= 10 :: p in w'.zone.area[k].list <==> Maximal(FreeSet(w'), p, k))
            && (forall k: nat | k <= 10 :: w'.zone.area[k].nrFree == |w'.zone.area[k].list|)
            && (forall k: nat, p: nat | k <= 10 && p <= n ::
                  w'.zone.pages[p].mapcount == -128 && w'.zone.pages[p].priv == k <==> p in w'.zone.area[k].list)
            && (forall p: nat | p < n && w'.zone.pages[p].mapcount != -128 ::
                  w'.zone.pages[p].mapcount == -1 && w'.zone.pages[p].priv == 0)
            && Weight(w'.zone.area, 11) + |LivePages(w'.live)| == n
  {
    var w' := Run(BootWorld(heads, n), ops);
    forall k: nat, p: nat | k <= TOP
      ensures p in w'.zone.area[k].list <==> Maximal(FreeSet(w'), p, k)
    {
      assert ListOk(w'.zone, FreeSet(w'), k);
    }
    forall k: nat | k <= TOP ensures w'.zone.area[k].nrFree == |w'.zone.area[k].list| {
      assert ListOk(w'.zone, FreeSet(w'), k);
    }
    forall k: nat, p: nat | k <= TOP && p <= n
      ensures w'.zone.pages[p].mapcount == -128 && w'.zone.pages[p].priv == k <==> p in w'.zone.area[k].list
    {
      assert PageOk(w'.zone, w'.n, p);
      assert PageIsBuddy(w'.zone.pages[p], k) <==> p in w'.zone.area[k].list;
    }
    forall p: nat | p < n && w'.zone.pages[p].mapcount != -128
      ensures w'.zone.pages[p].mapcount == -1 && w'.zone.pages[p].priv == 0
    {
      assert PageOk(w'.zone, w'.n, p);
    }
    WorldCount(w');
  }

  lemma FullFits(n: nat, p: nat, k: nat)
    requires Full(Pages(0, n), p, k)
    ensures p + Pow2(k) <= n
  {
    assert p + (Pow2(k) - 1) in Pages(0, n);
  }

  /** Right after boot a request is served exactly when its order is at most 10 and there are that
      many pages at all. */
  lemma BootServes(heads: seq<Page>, n: nat, order: nat)
    requires HeadsOk(heads, n)
    ensures ListsInRange(BootWorld(heads, n).zone)
    ensures AllocPages(BootWorld(heads, n).zone, order).1.Some? <==> order <= 10 && Pow2(order) <= n
  {
    var w := BootWorld(heads, n);
    var free := FreeSet(w);
    assert free == Pages(0, n);
    AllocComplete(w.zone, n, free, order);
    ZeroAligned(order);
    if Pow2(order) <= n {
      assert Full(free, 0, order);
    } else {
      forall p: nat ensures !Full(free, p, order) {
        if Full(free, p, order) { FullFits(n, p, order); }
      }
    }
  }

  /** With 1024 pages or more, the largest block can be had after boot: aligned, one reference,
      and exactly 1024 pages fewer are free. */
  lemma BootServesLargest(heads: seq<Page>, n: nat)
    requires HeadsOk(heads, n) && n >= 1024
    ensures ListsInRange(BootWorld(heads, n).zone)
    ensures var (z, r) := AllocPages(BootWorld(heads, n).zone, 10);
            && r.Some? && r.value % 1024 == 0 && r.value + 1024 <= n
            && r.value < |z.pages| && z.pages[r.value].count == 1
            && Inv(z, n, Pages(0, n) - Pages(r.value, 1024))
            && |z.area| == 11 && Weight(z.area, 11) == n - 1024
            && Step(BootWorld(heads, n), Alloc(10)).live == map[r.value := 10]
  {
    var w := BootWorld(heads, n);
    assert FreeSet(w) == Pages(0, n);
    assert Pow2(10) == 1024 by { assert Pow2(5) == 32; }
    BootServes(heads, n, 10);
    AllocComplete(w.zone, n, Pages(0, n), 10);
    var (z, r) := AllocPages(w.zone, 10);
    AlignedIsMultiple(r.value, 10);
    CountersCountFreePages(z, n, Pages(0, n) - Block(r.value, 10));
    PagesSize(0, n);
    PagesSize(r.value, 1024);
    SizeOfRest(Pages(0, n), Pages(r.value, 1024));
  }

  lemma WorldCount(w: World)
    requires WorldInv(w)
    ensures Weight(w.zone.area, TOP + 1) + |LivePages(w.live)| == w.n
  {
    CountersCountFreePages(w.zone, w.n, FreeSet(w));
    LiveInRange(w);
    PagesSize(0, w.n);
    SizeOfRest(Pages(0, w.n), LivePages(w.live));
  }

  lemma LiveInRange(w: World)
    requires WorldInv(w)
    ensures LivePages(w.live) <= Pages(0, w.n)
  {
    forall x | x in LivePages(w.live) ensures x in Pages(0, w.n) {
      var p :| p in w.live && x in Block(p, w.live[p]);
      FreeMeetsNoLive(w, p);
    }
  }

  lemma SizeOfRest(all: set<nat>, part: set<nat>)
    requires part <= all
    ensures |all - part| + |part| == |all|
  {
    assert all == (all - part) + part;
  }

  /** Free blocks lie inside memory, apart from each other and from every block in use. */
  lemma BlocksApart(w: World, p: nat, k: nat)
    requires WorldInv(w) && k <= TOP && p in w.zone.area[k].list
    ensures Aligned(p, k) && p + Pow2(k) <= w.n
    ensures forall q: nat, j: nat | j <= TOP && q in w.zone.area[j].list && !(q == p && j == k) ::
              Block(p, k) !! Block(q, j)
    ensures forall q | q in w.live :: Block(p, k) !! Block(q, w.live[q])
  {
    var free := FreeSet(w);
    assert ListOk(w.zone, free, k);
    MaximalInRange(w.n, free, p, k);
    forall q: nat, j: nat | j <= TOP && q in w.zone.area[j].list && !(q == p && j == k)
      ensures Block(p, k) !! Block(q, j)
    {
      assert ListOk(w.zone, free, j);
      MaximalDisjoint(free, p, k, q, j);
    }
    FullIsSubset(free, p, k);
    forall q | q in w.live
      ensures Block(p, k) !! Block(q, w.live[q])
    {
      FreeMeetsNoLive(w, q);
    }
  }

  /** No two buddies below the top order are ever free side by side. */
  lemma NoFreeBuddies(w: World, p: nat, k: nat)
    requires WorldInv(w) && k < TOP && p in w.zone.area[k].list
    ensures Aligned(p, k) && Buddy(p, k) !in w.zone.area[k].list
  {
    assert ListOk(w.zone, FreeSet(w), k);
    var b := Buddy(p, k);
    if b in w.zone.area[k].list {
      PairFacts(p, k);
      FullIsSubset(FreeSet(w), p, k);
      FullIsSubset(FreeSet(w), b, k);
      FullIsSubset(FreeSet(w), Parent(p, k), k + 1);
    }
  }

  /** The history leaves no trace: two worlds with the same live blocks have the same free
      blocks of every order and the same counters. */
  lemma HistoryIndependent(w1: World, w2: World, k: nat)
    requires WorldInv(w1) && WorldInv(w2) && w1.n == w2.n && w1.live == w2.live && k <= TOP
    ensures multiset(w1.zone.area[k].list) == multiset(w2.zone.area[k].list)
    ensures w1.zone.area[k].nrFree == w2.zone.area[k].nrFree
  {
    SameFreeSetSameLists(w1.zone, w1.n, w2.zone, w2.n, FreeSet(w1), k);
  }

  // ---- Releasing in any order ----

  function Frees(ps: seq<nat>): seq<Op> {
    if ps == [] then [] else [Free(ps[0])] + Frees(ps[1..])
  }

  function References(w: World, p: nat): int {
    if p < |w.zone.pages| then w.zone.pages[p].count else 0
  }

  function Kept(w: World, ps: seq<nat>): map<nat, nat> {
    map p | p in w.live && multiset(ps)[p] < References(w, p) :: w.live[p]
  }

  lemma KeptStep(w: World, p: nat, rest: seq<nat>)
    requires WorldInv(w) && p in w.live
    ensures Kept(Step(w, Free(p)), rest) == Kept(w, [p] + rest)
  {
    FreeOneReference(w, p);
    assert multiset([p] + rest) == multiset{p} + multiset(rest);
  }

  /** What is left after a series of releases: the blocks that keep a reference. */
  lemma {:induction false} FreesEffect(w: World, ps: seq<nat>)
    requires WorldInv(w) && Legal(w, Frees(ps))
    ensures Run(w, Frees(ps)).live == Kept(w, ps)
    decreases |ps|
  {
    if ps == [] {
      forall p | p in w.live ensures References(w, p) >= 1 { assert LiveOk(w, p); }
    } else {
      var p, rest := ps[0], ps[1..];
      assert ps == [p] + rest;
      assert Frees(ps)[0] == Free(p) && Frees(ps)[1..] == Frees(rest);
      StepInv(w, Free(p));
      FreesEffect(Step(w, Free(p)), rest);
      KeptStep(w, p, rest);
    }
  }

  /** One more reference to that page alone, and dropping one takes it back. */
  lemma GetOneReference(w: World, p: nat)
    requires WorldInv(w) && p in w.live
    ensures var w' := Step(w, Get(p));
            && w'.live == w.live && References(w', p) == References(w, p) + 1
            && (forall q: nat | q != p :: References(w', q) == References(w, q))
            && WorldInv(w') && Step(w', Free(p)) == w
  {
    assert LiveOk(w, p);
    GetStep(w, p);
    var z := w.zone;
    assert WithCount(GetPage(z, p), p, z.pages[p].count) == z by {
      assert z.pages[p := z.pages[p].(count := z.pages[p].count + 1)][p := z.pages[p]] == z.pages;
    }
  }

  lemma FreeOneReference(w: World, p: nat)
    requires WorldInv(w) && p in w.live
    ensures var w' := Step(w, Free(p));
            && w'.live == (if References(w, p) == 1 then w.live - {p} else w.live)
            && forall q | q in w.live :: References(w', q) == References(w, q) - (if q == p then 1 else 0)
    ensures References(w, p) >= 1
  {
    forall q | q in w.live ensures q < |w.zone.pages| { assert LiveOk(w, q); }
    FreePagesCounts(w, p);
  }

  /** Every page named is held, and named no more often than it has references. */
  predicate Releasable(w: World, ps: seq<nat>) {
    forall p | p in ps :: p in w.live && multiset(ps)[p] <= References(w, p)
  }

  lemma ReleasableStep(w: World, p: nat, rest: seq<nat>)
    requires WorldInv(w) && p in w.live
    ensures Releasable(w, [p] + rest) <==> Releasable(Step(w, Free(p)), rest)
  {
    FreeOneReference(w, p);
    var w', ps := Step(w, Free(p)), [p] + rest;
    assert multiset(ps) == multiset{p} + multiset(rest);
    forall q: nat
      ensures q in ps <==> q == p || q in rest
      ensures q in rest <==> multiset(rest)[q] >= 1
    {
      assert q in multiset(ps) <==> q in ps;
    }
  }

  /** A series of releases is legal exactly when it asks for no reference too many. */
  lemma {:induction false} FreesLegal(w: World, ps: seq<nat>)
    requires WorldInv(w)
    ensures Legal(w, Frees(ps)) <==> Releasable(w, ps)
    decreases |ps|
  {
    if ps != [] {
      var p, rest := ps[0], ps[1..];
      assert ps == [p] + rest;
      assert Frees(ps)[0] == Free(p) && Frees(ps)[1..] == Frees(rest);
      if p in w.live {
        StepInv(w, Free(p));
        FreesLegal(Step(w, Free(p)), rest);
        ReleasableStep(w, p, rest);
      }
    }
  }

  /** Releasing the same references in another order is legal too, and ends in the same free
      blocks and counters. */
  lemma ReleaseOrderIrrelevant(w: World, ps: seq<nat>, qs: seq<nat>, k: nat)
    requires WorldInv(w) && Legal(w, Frees(ps))
    requires multiset(ps) == multiset(qs) && k <= TOP
    ensures Legal(w, Frees(qs))
    ensures var w1, w2 := Run(w, Frees(ps)), Run(w, Frees(qs));
            && multiset(w1.zone.area[k].list) == multiset(w2.zone.area[k].list)
            && w1.zone.area[k].nrFree == w2.zone.area[k].nrFree
  {
    FreesLegal(w, ps);
    forall q | q in qs ensures q in ps { assert q in multiset(qs) && q in multiset(ps); }
    FreesLegal(w, qs);
    FreesEffect(w, ps);
    FreesEffect(w, qs);
    HistoryIndependent(Run(w, Frees(ps)), Run(w, Frees(qs)), k);
  }
}
