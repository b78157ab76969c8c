/** Boot seeding: the loop that frees [0, n) leaves the binary decomposition of n. */
module BuddyBoot {
  import opened Bits
  import opened FreeBlocks
  import opened BuddyModel
  import opened BuddyInvariant

  /** C's `n >> k`. */
  function Shr(n: nat, k: nat): nat {
    if k == 0 then n else Shr(n / 2, k - 1)
  }

  /** Bit k of n. */
  function Bit(n: nat, k: nat): nat {
    Shr(n, k) % 2
  }

  lemma {:induction false} ShrSmall(n: nat, k: nat)
    ensures n < Pow2(k) ==> Shr(n, k) == 0
    ensures Pow2(k) <= n ==> Shr(n - Pow2(k), k) + 1 == Shr(n, k)
  {
    if k > 0 {
      ShrSmall(n / 2, k - 1);
      if Pow2(k) <= n { assert (n - Pow2(k)) / 2 == n / 2 - Pow2(k - 1); }
    }
  }

  /** Subtracting 2^k leaves the bits below k alone. */
  lemma {:induction false} LowBits(n: nat, k: nat, i: nat)
    requires i < k && Pow2(k) <= n
    ensures Bit(n - Pow2(k), i) == Bit(n, i)
  {
    assert (n - Pow2(k)) / 2 == n / 2 - Pow2(k - 1);
    if i > 0 { LowBits(n / 2, k - 1, i - 1); }
  }

  /** What the loop still has to hand over: the remainder fits the order reached so far. */
  predicate Pending(idx: nat, order: nat, n: nat) {
    && idx <= n && order <= TOP && Aligned(idx, order)
    && (order < TOP ==> n - idx < 2 * Pow2(order))
    && (order < TOP && n - idx >= Pow2(order) ==> Aligned(idx, order + 1))
  }

  predicate FirstReference(z: Zone, idx: nat, n: nat) {
    n <= |z.pages| && forall p | idx <= p < n :: z.pages[p].count == 1
  }

  /** Handing over one block: the reference count reaches zero and nothing merges. */
  lemma SeedPuts(z: Zone, idx: nat, order: nat, n: nat)
    requires Inv(z, n, Pages(0, idx)) && Pending(idx, order, n) && n - idx >= Pow2(order)
    requires FirstReference(z, idx, n)
    ensures FreePages(z, idx, order) == Put(WithCount(z, idx, 0), idx, order)
    ensures Inv(Put(WithCount(z, idx, 0), idx, order), n, Pages(0, idx + Pow2(order)))
  {
    CountInv(z, n, Pages(0, idx), idx, 0);
    NothingMerges(WithCount(z, idx, 0), idx, order, n);
    SeedInv(WithCount(z, idx, 0), idx, order, n);
  }

  lemma SeedInv(z: Zone, idx: nat, order: nat, n: nat)
    requires Inv(z, n, Pages(0, idx)) && Pending(idx, order, n) && n - idx >= Pow2(order)
    ensures Inv(Put(z, idx, order), n, Pages(0, idx + Pow2(order)))
  {
    if order < TOP { BuddyComesAfter(idx, order, n); }
    NextPages(idx, order);
    PutInv(z, n, Pages(0, idx), idx, order);
  }

  lemma NextPages(idx: nat, order: nat)
    ensures Pages(0, idx + Pow2(order)) == Pages(0, idx) + Block(idx, order)
    ensures Pages(0, idx) !! Block(idx, order)
  {
  }

  /** The buddy of a block that fits comes after it, so it is not free yet. */
  lemma BuddyComesAfter(idx: nat, order: nat, n: nat)
    requires Pending(idx, order, n) && n - idx >= Pow2(order) && order < TOP
    ensures Buddy(idx, order) == idx + Pow2(order) && !Full(Pages(0, idx), Buddy(idx, order), order)
  {
    assert idx + Pow2(order) !in Pages(0, idx);
  }

  lemma NothingMerges(z: Zone, idx: nat, order: nat, n: nat)
    requires Inv(z, n, Pages(0, idx)) && Pending(idx, order, n) && n - idx >= Pow2(order)
    ensures FreeOnePage(z, idx, order) == Put(z, idx, order)
  {
    if order < TOP {
      BuddyComesAfter(idx, order, n);
      BuddyTest(z, n, Pages(0, idx), idx, order);
    }
  }

  lemma PendingAfter(idx: nat, order: nat, n: nat)
    requires Pending(idx, order, n)
    ensures n - idx >= Pow2(order) ==> Pending(idx + Pow2(order), order, n)
    ensures n - idx < Pow2(order) && order > 0 ==> Pending(idx, order - 1, n)
  {
    EndsAligned(idx, order, order);
    if order > 0 { AlignedDown(idx, order, order - 1); }
  }

  /** How many blocks of order k the loop adds when `left` pages remain at `order`. */
  function Added(left: nat, order: nat, k: nat): nat {
    if k > order then 0 else if k == order then Shr(left, k) else Bit(left, k)
  }

  lemma {:induction false} SeedBlocks(z: Zone, idx: nat, order: nat, n: nat)
    requires Shape(z) && Inv(z, n, Pages(0, idx)) && Pending(idx, order, n) && FirstReference(z, idx, n)
    ensures Inv(Seed(z, idx, order, n), n, Pages(0, n))
    ensures forall k: nat | k <= TOP ::
              Seed(z, idx, order, n).area[k].nrFree == z.area[k].nrFree + Added(n - idx, order, k)
    decreases n - idx, order
  {
    var left := n - idx;
    PendingAfter(idx, order, n);
    if idx == n {
      forall k: nat | k <= TOP ensures Added(0, order, k) == 0 { ShrSmall(0, k); }
    } else if left >= Pow2(order) {
      SeedStep(z, idx, order);
      SeedPuts(z, idx, order, n);
      SeedBlocks(FreePages(z, idx, order), idx + Pow2(order), order, n);
      ShrSmall(left, order);
      forall k: nat | k < order
        ensures Added(left - Pow2(order), order, k) == Added(left, order, k)
      {
        LowBits(left, order, k);
      }
    } else {
      SeedBlocks(z, idx, order - 1, n);
      ShrSmall(left, order);
      ShrHalf(left, order - 1);
    }
  }

  /** Below 2^(k+1) only bit k is left above k. */
  lemma {:induction false} ShrHalf(n: nat, k: nat)
    requires n < 2 * Pow2(k)
    ensures Shr(n, k) == Bit(n, k)
  {
    if k > 0 { ShrHalf(n / 2, k - 1); }
  }

  /** Page heads as the boot code hands them over: the managed ones without an order, and one
      more that carries no mark. */
  predicate HeadsOk(heads: seq<Page>, n: nat) {
    && n < |heads|
    && (forall p | 0 <= p < n :: heads[p].priv == 0)
    && !PageBuddy(heads[n])
  }

  lemma InitInv(heads: seq<Page>, n: nat)
    requires HeadsOk(heads, n)
    ensures Inv(InitZone(heads, n), n, {})
  {
    var z := InitZone(heads, n);
    forall k: nat | k <= TOP
      ensures ListOk(z, {}, k)
    {
      forall p: nat ensures !Maximal({}, p, k) {
        if Maximal({}, p, k) { MaximalInRange(n, {}, p, k); }
      }
    }
    forall p: nat | p <= n
      ensures PageOk(z, n, p)
    {
    }
  }

  lemma {:induction false} ShrDivides(n: nat, k: nat)
    ensures Shr(n, k) == n / Pow2(k)
  {
    if k > 0 {
      ShrDivides(n / 2, k - 1);
      DivideTwice(n, Pow2(k - 1));
    }
  }

  lemma DivideTwice(n: nat, m: nat)
    requires m > 0
    ensures n / 2 / m == n / (2 * m)
  {
    DivModUnique(n / 2, m, n / 2 / m, n / 2 % m);
    var q, r := n / 2 / m, n / 2 % m;
    assert n == 2 * (q * m + r) + n % 2 && 2 * (q * m) == q * (2 * m);
    DivModUnique(n, 2 * m, q, 2 * r + n % 2);
  }

  /** Seeding any number of pages frees them all: of the largest blocks, 1024 pages each, as many
      as fit, and of each smaller order as many as n has ones at that bit. */
  lemma SeedAll(heads: seq<Page>, n: nat)
    requires HeadsOk(heads, n)
    ensures Aligned(0, TOP)
    ensures var z := Seed(InitZone(heads, n), 0, TOP, n);
            && Inv(z, n, Pages(0, n))
            && |z.area| == 11 && z.area[10].nrFree == n / 1024
            && (forall k: nat | k < 10 :: z.area[k].nrFree == n / Pow2(k) % 2)
  {
    ZeroAligned(TOP);
    forall k: nat ensures Shr(n, k) == n / Pow2(k) { ShrDivides(n, k); }
    assert Pow2(10) == 1024 by { assert Pow2(5) == 32; }
    InitInv(heads, n);
    assert Pages(0, 0) == {};
    SeedBlocks(InitZone(heads, n), 0, TOP, n);
  }

  lemma {:induction false} ZeroAligned(k: nat)
    ensures Aligned(0, k)
  {
    if k > 0 { ZeroAligned(k - 1); }
  }
}
