/** The mathematics of buddy blocks: for a set of free pages, which aligned blocks are
    maximal, and how that family changes when a block is taken out or put back. */
module FreeBlocks {
  import opened Bits

  /** Largest block order on a free list (MAX_ORDER - 1). */
  const TOP: nat := 10

  predicate Within(q: nat, lo: nat, n: nat) {
    lo <= q < lo + n
  }

  /** The pages lo, lo+1, ..., lo+n-1. */
  function Pages(lo: nat, n: nat): set<nat> {
    set q: nat | lo <= q < lo + n && Within(q, lo, n)
  }

  lemma {:induction false} PagesSize(lo: nat, n: nat)
    ensures |Pages(lo, n)| == n
  {
    if n > 0 {
      PagesSize(lo, n - 1);
      assert Pages(lo, n) == Pages(lo, n - 1) + {lo + n - 1};
    }
  }

  function Block(p: nat, k: nat): set<nat> {
    Pages(p, Pow2(k))
  }

  /** The other half of the pair that `p` belongs to at order `k`. */
  function Buddy(p: nat, k: nat): nat
    requires Aligned(p, k)
  {
    AlignedPair(p, k);
    if Aligned(p, k + 1) then p + Pow2(k) else p - Pow2(k)
  }

  /** The start of that pair. */
  function Parent(p: nat, k: nat): nat
    requires Aligned(p, k)
  {
    AlignedPair(p, k);
    if Aligned(p, k + 1) then p else p - Pow2(k)
  }

  predicate Full(free: set<nat>, p: nat, k: nat) {
    forall q: nat :: p <= q < p + Pow2(k) ==> q in free
  }

  /** An aligned free block that cannot be merged any further. */
  ghost predicate Maximal(free: set<nat>, p: nat, k: nat) {
    && k <= TOP
    && Aligned(p, k)
    && Full(free, p, k)
    && (k < TOP ==> !Full(free, Parent(p, k), k + 1))
  }

  lemma PairFacts(p: nat, k: nat)
    requires Aligned(p, k)
    ensures Aligned(Parent(p, k), k + 1) && Aligned(Buddy(p, k), k)
    ensures Buddy(Buddy(p, k), k) == p && Parent(Buddy(p, k), k) == Parent(p, k)
    ensures Block(Parent(p, k), k + 1) == Block(p, k) + Block(Buddy(p, k), k)
    ensures Block(p, k) !! Block(Buddy(p, k), k)
  {
    AlignedPair(p, k);
    AlignedDown(Parent(p, k), k + 1, k);
  }

  /** Both ends of an aligned block are aligned to every smaller order. */
  lemma EndsAligned(q: nat, k: nat, j: nat)
    requires j <= k && Aligned(q, k)
    ensures Aligned(q, j) && Aligned(q + Pow2(k), j)
  {
    AlignedDown(q, k, j);
    Pow2Aligned(k);
    AlignedSum(q, Pow2(k), k);
    AlignedDown(q + Pow2(k), k, j);
  }

  /** Two aligned blocks that share a page are nested. */
  lemma Nested(p: nat, j: nat, q: nat, k: nat, x: nat)
    requires j <= k && Aligned(p, j) && Aligned(q, k)
    requires x in Block(p, j) && x in Block(q, k)
    ensures q <= p && p + Pow2(j) <= q + Pow2(k)
    ensures Block(p, j) <= Block(q, k)
    ensures j == k ==> p == q
  {
    EndsAligned(q, k, j);
    if p < q {
      AlignedFits(p, q, j);
    } else {
      AlignedFits(p, q + Pow2(k), j);
    }
  }

  /** An aligned block that meets a larger full one has a full pair. */
  lemma FullInside(free: set<nat>, p: nat, j: nat, q: nat, k: nat, x: nat)
    requires j < k && Aligned(p, j) && Aligned(q, k) && Full(free, q, k)
    requires x in Block(p, j) && x in Block(q, k)
    ensures Full(free, p, j) && Full(free, Parent(p, j), j + 1)
  {
    Nested(p, j, q, k, x);
    PairFacts(p, j);
    assert x in Block(Parent(p, j), j + 1);
    Nested(Parent(p, j), j + 1, q, k, x);
  }

  lemma MaximalDisjoint(free: set<nat>, p: nat, j: nat, q: nat, k: nat)
    requires Maximal(free, p, j) && Maximal(free, q, k)
    ensures (p == q && j == k) || Block(p, j) !! Block(q, k)
  {
    if !(Block(p, j) !! Block(q, k)) {
      var x :| x in Block(p, j) && x in Block(q, k);
      if j < k {
        FullInside(free, p, j, q, k, x);
      } else if k < j {
        FullInside(free, q, k, p, j, x);
      } else {
        Nested(p, j, q, k, x);
      }
    }
  }

  lemma OthersStay(free: set<nat>, p: nat, k: nat, q: nat, j: nat)
    requires Maximal(free, p, k) && Maximal(free, q, j) && !(q == p && j == k)
    ensures Maximal(free - Block(p, k), q, j)
  {
    var rest := free - Block(p, k);
    MaximalDisjoint(free, p, k, q, j);
    assert Full(rest, q, j);
    if j < TOP { FullSubset(rest, free, Parent(q, j), j + 1); }
  }

  lemma NoneAppear(free: set<nat>, p: nat, k: nat, q: nat, j: nat)
    requires Maximal(free, p, k) && Maximal(free - Block(p, k), q, j)
    ensures Maximal(free, q, j) && !(q == p && j == k)
  {
    var rest := free - Block(p, k);
    assert q in Block(q, j) && q in rest;
    FullSubset(rest, free, q, j);
    if j < TOP && Full(free, Parent(q, j), j + 1) {
      var pp := Parent(q, j);
      PairFacts(q, j);
      var x :| x in Block(pp, j + 1) && x !in rest;
      assert x in Block(p, k);
      if k <= j {
        FullInside(free, p, k, pp, j + 1, x);
      } else {
        Nested(pp, j + 1, p, k, x);
      }
    }
  }

  /** Taking a maximal block out removes it from the family and changes nothing else. */
  lemma RemoveMaximal(free: set<nat>, p: nat, k: nat, q: nat, j: nat)
    requires Maximal(free, p, k)
    ensures Maximal(free - Block(p, k), q, j) <==> Maximal(free, q, j) && !(q == p && j == k)
  {
    if Maximal(free, q, j) && !(q == p && j == k) { OthersStay(free, p, k, q, j); }
    if Maximal(free - Block(p, k), q, j) { NoneAppear(free, p, k, q, j); }
  }

  lemma FullSubset(small: set<nat>, big: set<nat>, p: nat, k: nat)
    requires small <= big
    ensures Full(small, p, k) ==> Full(big, p, k)
  {
  }

  /** Putting back a block whose buddy is not free adds exactly that block to the family. */
  lemma AddIsolated(free: set<nat>, p: nat, k: nat, q: nat, j: nat)
    requires k <= TOP && Aligned(p, k) && free !! Block(p, k)
    requires k < TOP ==> !Full(free, Buddy(p, k), k)
    ensures Maximal(free + Block(p, k), q, j) <==> Maximal(free, q, j) || (q == p && j == k)
    ensures !Maximal(free, p, k)
  {
    AddedIsMaximal(free, p, k);
    var big := free + Block(p, k);
    assert big - Block(p, k) == free;
    RemoveMaximal(big, p, k, q, j);
    assert p in Block(p, k);
  }

  lemma AddedIsMaximal(free: set<nat>, p: nat, k: nat)
    requires k <= TOP && Aligned(p, k) && free !! Block(p, k)
    requires k < TOP ==> !Full(free, Buddy(p, k), k)
    ensures Maximal(free + Block(p, k), p, k)
  {
    if k < TOP {
      PairFacts(p, k);
      var x :| x in Block(Buddy(p, k), k) && x !in free;
      assert x in Block(Parent(p, k), k + 1) && x !in Block(p, k);
    }
  }

  /** A buddy is a block of the family exactly when it is free in full and its twin is not. */
  lemma BuddyMaximal(free: set<nat>, p: nat, k: nat)
    requires k < TOP && Aligned(p, k) && free !! Block(p, k)
    ensures Maximal(free, Buddy(p, k), k) <==> Full(free, Buddy(p, k), k)
  {
    PairFacts(p, k);
    assert p in Block(p, k) && p in Block(Parent(p, k), k + 1);
  }

  /** Every aligned free block up to the top order lies in a block of the family. */
  lemma {:induction false} MaximalAbove(free: set<nat>, p: nat, k: nat) returns (q: nat, j: nat)
    requires k <= TOP && Aligned(p, k) && Full(free, p, k)
    ensures k <= j && Maximal(free, q, j) && Block(p, k) <= Block(q, j)
    decreases TOP - k
  {
    q, j := p, k;
    if k < TOP && Full(free, Parent(p, k), k + 1) {
      PairFacts(p, k);
      q, j := MaximalAbove(free, Parent(p, k), k + 1);
    }
  }
}
