/** The free lists are the maximal free blocks: one invariant, kept by every operation. */
module BuddyInvariant {
  import opened Bits
  import opened FreeBlocks
  import opened BuddyModel

  predicate Distinct(s: seq<nat>) {
    forall i, j | 0 <= i < j < |s| :: s[i] != s[j]
  }

  /** The list of order k holds each maximal free block of that order once, and is counted. */
  ghost predicate ListOk(z: Zone, free: set<nat>, k: nat)
    requires k < |z.area|
  {
    && Distinct(z.area[k].list)
    && z.area[k].nrFree == |z.area[k].list|
    && forall p: nat :: p in z.area[k].list <==> Maximal(free, p, k)
  }

  /** The per-page mark and order agree with the lists; unmarked managed pages are clean. */
  ghost predicate PageOk(z: Zone, n: nat, p: nat)
    requires p < |z.pages| && |z.area| == TOP + 1
  {
    && (forall k: nat | k <= TOP :: PageIsBuddy(z.pages[p], k) <==> p in z.area[k].list)
    && (PageBuddy(z.pages[p]) ==> 0 <= z.pages[p].priv <= TOP)
    && (!PageBuddy(z.pages[p]) && p < n ==> z.pages[p].mapcount == -1 && z.pages[p].priv == 0)
  }

  /** `free` is the set of free pages among the n managed ones. Of the heads beyond those only
      head n matters: it is the only one that a merge can look at. */
  ghost predicate Inv(z: Zone, n: nat, free: set<nat>) {
    && Shape(z)
    && n < |z.pages|
    && (forall q | q in free :: q < n)
    && (forall k: nat | k <= TOP :: ListOk(z, free, k))
    && (forall p: nat | p <= n :: PageOk(z, n, p))
  }

  /** No mark up to head n stands for a block that leaves the managed pages. */
  predicate MarksFit(z: Zone, n: nat) {
    && Shape(z) && n < |z.pages|
    && forall q: nat | q <= n && PageBuddy(z.pages[q]) ::
         0 <= z.pages[q].priv <= TOP && q + Pow2(z.pages[q].priv) <= n
  }

  lemma PutFits(z: Zone, n: nat, p: nat, k: nat)
    requires MarksFit(z, n) && k <= TOP && p + Pow2(k) <= n
    ensures MarksFit(Put(z, p, k), n)
  {
  }

  lemma InvMarksFit(z: Zone, n: nat, free: set<nat>)
    requires Inv(z, n, free)
    ensures MarksFit(z, n)
  {
    forall q: nat | q <= n && PageBuddy(z.pages[q])
      ensures 0 <= z.pages[q].priv <= TOP && q + Pow2(z.pages[q].priv) <= n
    {
      assert PageOk(z, n, q);
      var k := z.pages[q].priv;
      assert PageIsBuddy(z.pages[q], k) && ListOk(z, free, k);
      MaximalInRange(n, free, q, k);
    }
  }

  lemma {:induction false} WithoutElement(s: seq<nat>, x: nat)
    requires Distinct(s) && x in s
    ensures Distinct(Without(s, x)) && |Without(s, x)| == |s| - 1
    ensures forall y: nat :: y in Without(s, x) <==> y in s && y != x
  {
    assert s == [s[0]] + s[1..];
    if s[0] != x {
      WithoutElement(s[1..], x);
      var w := Without(s[1..], x);
      assert s[0] !in w;
      assert forall j | 0 <= j < |w| :: w[j] in w;
    }
  }

  lemma MaximalInRange(n: nat, free: set<nat>, p: nat, k: nat)
    requires (forall q | q in free :: q < n) && Maximal(free, p, k)
    ensures p + Pow2(k) <= n && p in free
  {
    assert p + (Pow2(k) - 1) in free;
  }

  lemma TakeInv(z: Zone, n: nat, free: set<nat>, p: nat, k: nat)
    requires Inv(z, n, free) && k <= TOP && p in z.area[k].list
    ensures Maximal(free, p, k) && p + Pow2(k) <= n
    ensures Inv(Take(z, p, k), n, free - Block(p, k))
  {
    assert ListOk(z, free, k);
    MaximalInRange(n, free, p, k);
    WithoutElement(z.area[k].list, p);
    var z', rest := Take(z, p, k), free - Block(p, k);
    forall j: nat | j <= TOP
      ensures ListOk(z', rest, j)
    {
      assert ListOk(z, free, j);
      forall q: nat
        ensures q in z'.area[j].list <==> Maximal(rest, q, j)
      {
        RemoveMaximal(free, p, k, q, j);
      }
    }
    assert PageOk(z, n, p);
    forall q: nat | q <= n
      ensures PageOk(z', n, q)
    {
      assert PageOk(z, n, q);
    }
  }

  lemma PutInv(z: Zone, n: nat, free: set<nat>, p: nat, k: nat)
    requires Inv(z, n, free) && k <= TOP && Aligned(p, k) && p + Pow2(k) <= n
    requires free !! Block(p, k)
    requires k < TOP ==> !Full(free, Buddy(p, k), k)
    ensures Inv(Put(z, p, k), n, free + Block(p, k))
  {
    var z', more := Put(z, p, k), free + Block(p, k);
    assert p in Block(p, k);
    NotListed(z, n, free, p);
    forall j: nat | j <= TOP
      ensures ListOk(z', more, j)
    {
      assert ListOk(z, free, j);
      forall q: nat
        ensures q in z'.area[j].list <==> Maximal(more, q, j)
      {
        AddIsolated(free, p, k, q, j);
      }
    }
    forall q: nat | q <= n
      ensures PageOk(z', n, q)
    {
      assert PageOk(z, n, q);
    }
  }

  /** A page that is not free heads no listed block. */
  lemma NotListed(z: Zone, n: nat, free: set<nat>, p: nat)
    requires Inv(z, n, free) && p < n && p !in free
    ensures forall j: nat | j <= TOP :: p !in z.area[j].list
    ensures !PageBuddy(z.pages[p])
  {
    forall j: nat | j <= TOP
      ensures p !in z.area[j].list
    {
      assert ListOk(z, free, j);
      if Maximal(free, p, j) { MaximalInRange(n, free, p, j); }
    }
    assert PageOk(z, n, p);
    if PageBuddy(z.pages[p]) {
      assert PageIsBuddy(z.pages[p], z.pages[p].priv);
    }
  }

  /** The test on the buddy's mark and order asks exactly whether the buddy is free in full. */
  lemma BuddyTest(z: Zone, n: nat, free: set<nat>, p: nat, k: nat)
    requires Inv(z, n, free) && k < TOP && Aligned(p, k) && p + Pow2(k) <= n
    requires free !! Block(p, k)
    ensures Buddy(p, k) <= n
    ensures BuddyFree(z, p, k) <==> Full(free, Buddy(p, k), k)
    ensures BuddyFree(z, p, k) <==> Buddy(p, k) in z.area[k].list
  {
    BuddyMaximal(free, p, k);
    assert PageOk(z, n, Buddy(p, k));
    assert ListOk(z, free, k);
  }

  /** Merging upward: whatever the merge does on its way, it ends in the maximal blocks of
      the enlarged free set. */
  lemma {:induction false} FreeOnePageInv(z: Zone, n: nat, free: set<nat>, p: nat, k: nat)
    requires Inv(z, n, free) && k <= TOP && Aligned(p, k) && p + Pow2(k) <= n
    requires free !! Block(p, k)
    ensures Inv(FreeOnePage(z, p, k), n, free + Block(p, k))
    decreases TOP - k
  {
    if k < TOP {
      BuddyTest(z, n, free, p, k);
      var b := Buddy(p, k);
      if BuddyFree(z, p, k) {
        TakeInv(z, n, free, b, k);
        PairFacts(p, k);
        var rest := free - Block(b, k);
        assert rest + Block(Parent(p, k), k + 1) == free + Block(p, k);
        FreeOnePageInv(Take(z, b, k), n, rest, Parent(p, k), k + 1);
        return;
      }
    }
    PutInv(z, n, free, p, k);
  }

  /** One split: the upper half goes on its list, beside the lower half that stays taken. */
  lemma SplitHalf(z: Zone, n: nat, free: set<nat>, p: nat, h: nat, upper: nat)
    requires h < TOP && Aligned(p, h + 1) && p + Pow2(h + 1) <= n && upper == p + Pow2(h)
    requires Inv(z, n, free) && free !! Block(p, h + 1)
    ensures Aligned(p, h) && Block(p, h) <= Block(p, h + 1) && free + Block(upper, h) !! Block(p, h)
    ensures Block(upper, h) == Block(p, h + 1) - Block(p, h)
    ensures Inv(Put(z, upper, h), n, free + Block(upper, h))
  {
    AlignedDown(p, h + 1, h);
    AlignedPair(p, h);
    PairFacts(p, h);
    assert p in Block(p, h + 1);
    PutInv(z, n, free, upper, h);
  }

  /** Splitting downward: the upper halves become free blocks, the lower one stays taken. */
  lemma {:induction false} ExpandInv(z: Zone, n: nat, free: set<nat>, p: nat, low: nat, high: nat)
    requires low <= high <= TOP && Aligned(p, high) && p + Pow2(high) <= n
    requires Inv(z, n, free) && free !! Block(p, high)
    ensures Aligned(p, low) && Block(p, low) <= Block(p, high)
    ensures Inv(Expand(z, p, low, high), n, free + (Block(p, high) - Block(p, low)))
    decreases high
  {
    if high == low {
      assert free + (Block(p, high) - Block(p, low)) == free;
    } else {
      var h: nat := high - 1;
      var upper := p + Pow2(h);
      SplitHalf(z, n, free, p, h, upper);
      var free' := free + Block(upper, h);
      ExpandInv(Put(z, upper, h), n, free', p, low, h);
      assert free' + (Block(p, h) - Block(p, low)) == free + (Block(p, high) - Block(p, low));
    }
  }

  lemma InvInRange(z: Zone, n: nat, free: set<nat>)
    requires Inv(z, n, free)
    ensures ListsInRange(z)
  {
    forall k, i | 0 <= k <= TOP && 0 <= i < |z.area[k].list|
      ensures Aligned(z.area[k].list[i], k) && z.area[k].list[i] + Pow2(k) <= |z.pages|
    {
      assert ListOk(z, free, k);
      assert z.area[k].list[i] in z.area[k].list;
      MaximalInRange(n, free, z.area[k].list[i], k);
    }
  }

  /** Neither a page's reference count nor rewriting a clean page's fields matters here. */
  lemma CountInv(z: Zone, n: nat, free: set<nat>, p: nat, c: int)
    requires Inv(z, n, free) && p < |z.pages|
    ensures Inv(WithCount(z, p, c), n, free)
  {
    var z' := WithCount(z, p, c);
    forall k: nat | k <= TOP
      ensures ListOk(z', free, k)
    {
      assert ListOk(z, free, k);
    }
    forall q: nat | q <= n
      ensures PageOk(z', n, q)
    {
      assert PageOk(z, n, q);
    }
  }

  /** The free lists that a free set determines, and hence the counters. */
  lemma SameFreeSetSameLists(z1: Zone, n1: nat, z2: Zone, n2: nat, free: set<nat>, k: nat)
    requires Inv(z1, n1, free) && Inv(z2, n2, free) && k <= TOP
    ensures multiset(z1.area[k].list) == multiset(z2.area[k].list)
    ensures z1.area[k].nrFree == z2.area[k].nrFree
  {
    var s, t := z1.area[k].list, z2.area[k].list;
    assert ListOk(z1, free, k) && ListOk(z2, free, k);
    DistinctMultiset(s);
    DistinctMultiset(t);
    assert multiset(s) == multiset(t);
    assert |multiset(s)| == |s| && |multiset(t)| == |t|;
  }

  lemma {:induction false} DistinctMultiset(s: seq<nat>)
    requires Distinct(s)
    ensures forall x: nat :: multiset(s)[x] == if x in s then 1 else 0
  {
    if s != [] {
      DistinctMultiset(s[1..]);
      assert s == [s[0]] + s[1..];
      assert multiset(s) == multiset{s[0]} + multiset(s[1..]);
    }
  }
}
