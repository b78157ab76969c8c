/** What the byte allocator keeps over every run: the arena is tiled, neighbours are glued,
    allocations stay where they are, and releases undo allocations exactly. */
module SlobTheorems {
  import opened SlobModel
  import opened Options

  /** The blocks tile [lo, hi) in address order, none is tiny, and no two neighbours are
      free; `afterFree` says whether the block before `lo` is free. */
  predicate Laid(bs: seq<Block>, lo: nat, hi: nat, afterFree: bool) {
    if bs == [] then lo == hi
    else
      && bs[0].addr == lo
      && bs[0].length >= MIN_PART
      && (afterFree ==> bs[0].used)
      && Laid(bs[1..], End(bs[0]), hi, !bs[0].used)
  }

  predicate Inv(bs: seq<Block>, base: nat) {
    Laid(bs, base, base + ARENA, false)
  }

  function EndOf(bs: seq<Block>, lo: nat): nat {
    if bs == [] then lo else End(bs[|bs| - 1])
  }

  function LastFree(bs: seq<Block>, afterFree: bool): bool {
    if bs == [] then afterFree else !bs[|bs| - 1].used
  }

  lemma InitLaid(base: nat)
    ensures Inv(Init(base), base) && Init(base) == [Block(base, 1024 * 4096 - 12, false)]
  {
    assert Init(base)[1..] == [];
  }

  /** A layout can be cut and joined anywhere. */
  lemma {:induction false} LaidConcat(xs: seq<Block>, ys: seq<Block>, lo: nat, hi: nat, afterFree: bool)
    ensures Laid(xs + ys, lo, hi, afterFree) <==>
            Laid(xs, lo, EndOf(xs, lo), afterFree) && Laid(ys, EndOf(xs, lo), hi, LastFree(xs, afterFree))
  {
    if xs == [] {
      assert xs + ys == ys;
    } else {
      assert (xs + ys)[1..] == xs[1..] + ys;
      LaidConcat(xs[1..], ys, End(xs[0]), hi, !xs[0].used);
    }
  }

  lemma {:induction false} LaidInside(bs: seq<Block>, lo: nat, hi: nat, afterFree: bool, b: Block)
    requires Laid(bs, lo, hi, afterFree) && b in bs
    ensures lo <= b.addr && End(b) <= hi
    ensures b == bs[0] || End(bs[0]) <= b.addr
  {
    if b != bs[0] {
      assert b in bs[1..];
      LaidInside(bs[1..], End(bs[0]), hi, !bs[0].used, b);
    } else {
      LaidForward(bs[1..], End(bs[0]), hi, !bs[0].used);
    }
  }

  lemma {:induction false} LaidForward(bs: seq<Block>, lo: nat, hi: nat, afterFree: bool)
    requires Laid(bs, lo, hi, afterFree)
    ensures lo <= hi
  {
    if bs != [] { LaidForward(bs[1..], End(bs[0]), hi, !bs[0].used); }
  }

  /** Two different blocks of a layout do not overlap, headers included. */
  lemma {:induction false} BlocksDisjoint(bs: seq<Block>, lo: nat, hi: nat, afterFree: bool, b: Block, c: Block)
    requires Laid(bs, lo, hi, afterFree) && b in bs && c in bs && b != c
    ensures End(b) <= c.addr || End(c) <= b.addr
  {
    LaidInside(bs, lo, hi, afterFree, b);
    LaidInside(bs, lo, hi, afterFree, c);
    if b != bs[0] && c != bs[0] {
      assert b in bs[1..] && c in bs[1..];
      BlocksDisjoint(bs[1..], End(bs[0]), hi, !bs[0].used, b, c);
    }
  }

  /** Every length fits the 31-bit field and every block lies inside the arena. */
  lemma FitsField(bs: seq<Block>, base: nat, b: Block)
    requires Inv(bs, base) && b in bs
    ensures b.length <= ARENA - HEADER < 0x8000_0000
    ensures base <= b.addr && End(b) <= base + ARENA
  {
    LaidInside(bs, base, base + ARENA, false, b);
  }

  /** Cutting a layout around block i. */
  lemma Around(bs: seq<Block>, base: nat, i: nat)
    requires Inv(bs, base) && i < |bs|
    ensures bs == bs[..i] + ([bs[i]] + bs[i + 1..])
    ensures Laid(bs[..i], base, bs[i].addr, false) && EndOf(bs[..i], base) == bs[i].addr
    ensures Laid(bs[i + 1..], End(bs[i]), base + ARENA, !bs[i].used)
    ensures bs[i].length >= MIN_PART
    ensures LastFree(bs[..i], false) ==> bs[i].used
  {
    var mid := [bs[i]] + bs[i + 1..];
    assert bs == bs[..i] + mid;
    LaidConcat(bs[..i], mid, base, base + ARENA, false);
    assert mid[1..] == bs[i + 1..];
  }

  /** Replacing the middle of a layout. */
  lemma Rejoin(pre: seq<Block>, mid: seq<Block>, base: nat)
    requires Laid(pre, base, EndOf(pre, base), false)
    requires Laid(mid, EndOf(pre, base), base + ARENA, LastFree(pre, false))
    ensures Inv(pre + mid, base)
  {
    LaidConcat(pre, mid, base, base + ARENA, false);
  }

  lemma SplitInv(bs: seq<Block>, base: nat, i: nat, len: nat)
    requires Inv(bs, base) && i < |bs| && !bs[i].used && HEADER + MIN_PART <= len < bs[i].length
    ensures Inv(Split(bs, i, len), base)
  {
    var left := bs[i].length - len;
    if left >= HEADER + MIN_PART {
      Around(bs, base, i);
      var rest := [Block(bs[i].addr + len, left, false)] + bs[i + 1..];
      var mid := [Block(bs[i].addr, len - HEADER, true)] + rest;
      assert rest[1..] == bs[i + 1..] && mid[1..] == rest;
      Rejoin(bs[..i], mid, base);
      assert Split(bs, i, len) == bs[..i] + mid;
    }
  }

  /** Two neighbours and what lies around them. */
  lemma PairAt(bs: seq<Block>, pre: seq<Block>, b: Block, c: Block, post: seq<Block>)
    requires bs == pre + [b] + ([c] + post)
    ensures |bs| == |pre| + 2 + |post| && bs[|pre|] == b && bs[|pre| + 1] == c
    ensures bs[..|pre|] == pre && bs[|pre| + 2..] == post
  {
    assert bs == (pre + [b, c]) + post;
  }

  lemma GluePrevInv(bs: seq<Block>, pre: seq<Block>, b: Block, post: seq<Block>, base: nat)
    returns (pre': seq<Block>, b': Block)
    requires bs == pre + ([b] + post)
    requires Laid(pre, base, b.addr, false) && EndOf(pre, base) == b.addr
    requires Laid(post, End(b), base + ARENA, false)
    requires b.length >= MIN_PART && !b.used
    ensures GluePrev(bs, |pre|) == (pre' + ([b'] + post), |pre'|)
    ensures Laid(pre', base, b'.addr, false) && EndOf(pre', base) == b'.addr
    ensures End(b') == End(b) && b'.length >= MIN_PART && !b'.used && !LastFree(pre', false)
  {
    pre', b' := pre, b;
    if pre != [] && !pre[|pre| - 1].used {
      var p := pre[|pre| - 1];
      pre', b' := pre[..|pre| - 1], p.(length := p.length + b.length + HEADER);
      assert pre == pre' + [p];
      LaidConcat(pre', [p], base, b.addr, false);
      PairAt(bs, pre', p, b, post);
      assert MergeNext(bs, |pre'|) == pre' + ([b'] + post);
    }
  }

  /** All four cases of joining restore the layout around a block that stops being used. */
  lemma GlueInv(bs: seq<Block>, pre: seq<Block>, b: Block, post: seq<Block>, base: nat)
    requires bs == pre + ([b] + post)
    requires Laid(pre, base, b.addr, false) && EndOf(pre, base) == b.addr
    requires Laid(post, End(b), base + ARENA, false)
    requires b.length >= MIN_PART && !b.used
    ensures Inv(Glue(bs, |pre|), base)
  {
    var pre', b' := GluePrevInv(bs, pre, b, post, base);
    var bs1 := pre' + ([b'] + post);
    if post != [] && !post[0].used {
      var c := b'.(length := b'.length + post[0].length + HEADER);
      var mid := [c] + post[1..];
      assert bs1[..|pre'|] == pre' && bs1[|pre'| + 2..] == post[1..];
      assert GlueNext(bs1, |pre'|) == pre' + mid;
      assert mid[1..] == post[1..];
      Rejoin(pre', mid, base);
    } else {
      assert GlueNext(bs1, |pre'|) == bs1;
      assert ([b'] + post)[1..] == post;
      LaidAnyFlag(post, End(b), base + ARENA);
      Rejoin(pre', [b'] + post, base);
    }
  }

  lemma LaidAnyFlag(bs: seq<Block>, lo: nat, hi: nat)
    requires Laid(bs, lo, hi, false) && (bs != [] ==> bs[0].used)
    ensures Laid(bs, lo, hi, true)
  {
  }

  // ---- Each operation ----

  lemma KmallocInv(bs: seq<Block>, base: nat, size: nat)
    requires Inv(bs, base) && NoWrap(size)
    ensures Inv(Kmalloc(bs, size).0, base)
  {
    var len := Payload(size) + HEADER;
    var i := FirstFit(bs, 0, len);
    if i < |bs| { SplitInv(bs, base, i, len); }
  }

  lemma KfreeInv(bs: seq<Block>, base: nat, addr: nat, stale: bool)
    requires Inv(bs, base) && Releasable(bs, addr, stale)
    ensures Inv(Kfree(bs, addr, stale), base)
  {
    if AllocatedBit(bs, addr, stale) {
      var i := HeaderAt(bs, addr - HEADER);
      var bs0 := bs[i := bs[i].(used := false)];
      Around(bs, base, i);
      assert bs0 == bs[..i] + ([bs0[i]] + bs[i + 1..]);
      GlueInv(bs0, bs[..i], bs0[i], bs[i + 1..], base);
    }
  }

  // ---- Canonical layout ----

  /** The used blocks alone determine the whole layout. */
  lemma {:induction false} UsedDetermineLayout(xs: seq<Block>, ys: seq<Block>, lo: nat, hi: nat, afterFree: bool)
    requires Laid(xs, lo, hi, afterFree) && Laid(ys, lo, hi, afterFree)
    requires forall b: Block | b.used :: b in xs <==> b in ys
    ensures xs == ys
  {
    if xs == [] || ys == [] {
      if xs != [] { LaidInside(xs, lo, hi, afterFree, xs[0]); }
      if ys != [] { LaidInside(ys, lo, hi, afterFree, ys[0]); }
    } else {
      SameHead(xs, ys, lo, hi, afterFree);
      forall b: Block | b.used
        ensures b in xs[1..] <==> b in ys[1..]
      {
        if b in xs[1..] { LaidInside(xs[1..], End(xs[0]), hi, !xs[0].used, b); assert b in xs; }
        if b in ys[1..] { LaidInside(ys[1..], End(ys[0]), hi, !ys[0].used, b); assert b in ys; }
      }
      UsedDetermineLayout(xs[1..], ys[1..], End(xs[0]), hi, !xs[0].used);
      assert xs == [xs[0]] + xs[1..] && ys == [ys[0]] + ys[1..];
    }
  }

  lemma SameHead(xs: seq<Block>, ys: seq<Block>, lo: nat, hi: nat, afterFree: bool)
    requires Laid(xs, lo, hi, afterFree) && Laid(ys, lo, hi, afterFree) && xs != [] && ys != []
    requires forall b: Block | b.used :: b in xs <==> b in ys
    ensures xs[0] == ys[0]
  {
    if xs[0].used {
      LaidInside(ys, lo, hi, afterFree, xs[0]);
    } else if ys[0].used {
      LaidInside(xs, lo, hi, afterFree, ys[0]);
    } else {
      NotShorter(xs, ys, lo, hi, afterFree);
      NotShorter(ys, xs, lo, hi, afterFree);
    }
  }

  /** A free block ends where a used one starts, so it cannot end inside another free block. */
  lemma NotShorter(xs: seq<Block>, ys: seq<Block>, lo: nat, hi: nat, afterFree: bool)
    requires Laid(xs, lo, hi, afterFree) && Laid(ys, lo, hi, afterFree) && xs != [] && ys != []
    requires !xs[0].used && !ys[0].used
    requires forall b: Block | b.used :: b in xs ==> b in ys
    ensures xs[0].length >= ys[0].length
  {
    LaidInside(ys, lo, hi, afterFree, ys[0]);
    if xs[1..] != [] {
      var b := xs[1..][0];
      assert b in xs;
      LaidInside(ys, lo, hi, afterFree, b);
    }
  }

  /** With nothing in use, the arena is one free block, whatever happened before. */
  lemma NothingUsed(bs: seq<Block>, base: nat)
    requires Inv(bs, base) && forall b | b in bs :: !b.used
    ensures bs == Init(base)
  {
    UsedDetermineLayout(bs, Init(base), base, base + ARENA, false);
  }

  // ---- Allocation ----

  /** NULL exactly when no free block is longer than the size, 32 at least, and a header; otherwise
      the lowest-addressed one that is. */
  lemma KmallocResult(bs: seq<Block>, base: nat, size: nat)
    requires Inv(bs, base) && NoWrap(size)
    ensures var (bs', r) := Kmalloc(bs, size);
            var need := (if size > 32 then size else 32) + 12;
            && (r.None? <==> forall b | b in bs && !b.used :: b.length <= need)
            && (r.None? ==> bs' == bs)
            && (r.Some? ==>
                  exists b :: b in bs && !b.used && b.length > need && r.value == b.addr + 12
                    && forall c | c in bs && !c.used && c.length > need :: b.addr <= c.addr)
  {
    var need := (if size > 32 then size else 32) + 12;
    var i := FirstFit(bs, 0, need);
    assert RequestLen(size) == need;
    if i < |bs| {
      forall c | c in bs && !c.used && c.length > need
        ensures bs[i].addr <= c.addr
      {
        LowestFit(bs, base, i, need, c);
      }
    }
  }

  /** No block that would do lies below the one found. */
  lemma LowestFit(bs: seq<Block>, base: nat, i: nat, len: nat, c: Block)
    requires Inv(bs, base) && i == FirstFit(bs, 0, len) < |bs|
    requires c in bs && !c.used && c.length > len
    ensures bs[i].addr <= c.addr
  {
    Around(bs, base, i);
    MembersAround(bs, i, bs[i], c);
    if c in bs[i + 1..] { LaidInside(bs[i + 1..], End(bs[i]), base + ARENA, !bs[i].used, c); }
  }

  /** The block that a request of `size` bytes would be served from. */
  function Chosen(bs: seq<Block>, size: nat): Option<Block>
    requires size < WORD
  {
    var i := FirstFit(bs, 0, RequestLen(size));
    if i == |bs| then None else Some(bs[i])
  }

  /** The remainder leaves room for another chunk. */
  predicate Splits(b: Block, size: nat) {
    b.length >= Payload(size) + HEADER + (HEADER + MIN_PART)
  }

  /** What an allocation does to the used blocks: those in use stay, and if and only if 44 bytes or
      more remain, the served block becomes used with exactly the requested payload, 32 bytes at
      least, and what remains becomes a free block behind it. */
  lemma KmallocUsed(bs: seq<Block>, base: nat, size: nat)
    requires Inv(bs, base) && NoWrap(size) && Chosen(bs, size).Some?
    ensures var (bs', r) := Kmalloc(bs, size);
            var b := Chosen(bs, size).value;
            var granted := if size > 32 then size else 32;
            var served := Block(b.addr, granted, true);
            var rest := Block(b.addr + 12 + granted, b.length - 12 - granted, false);
            && (Splits(b, size) <==> b.length - (12 + granted) >= 44)
            && r == Some(b.addr + 12)
            && (forall c: Block | c.used :: c in bs' <==> c in bs || (c == served && Splits(b, size)))
            && served !in bs
            && (Splits(b, size) <==> bs' != bs)
            && (Splits(b, size) <==> exists c :: c in bs' && c.used && c.addr + 12 == r.value)
            && (Splits(b, size) ==> rest in bs')
  {
    var granted := if size > 32 then size else 32;
    var i := FirstFit(bs, 0, granted + 12);
    var b := bs[i];
    var served, rest := Block(b.addr, granted, true), Block(b.addr + 12 + granted, b.length - 12 - granted, false);
    assert RequestLen(size) == granted + 12;
    OnlyAt(bs, base, b);
    assert served !in bs;
    if Splits(b, size) {
      SplitMembers(bs, i, b, served, rest, Split(bs, i, granted + 12));
      assert served in Kmalloc(bs, size).0;
    } else {
      assert Kmalloc(bs, size).0 == bs;
    }
  }

  /** No other block has its address. */
  lemma OnlyAt(bs: seq<Block>, base: nat, b: Block)
    requires Inv(bs, base) && b in bs
    ensures forall c | c in bs && c.addr == b.addr :: c == b
  {
    forall c | c in bs && c.addr == b.addr ensures c == b {
      if c != b { BlocksDisjoint(bs, base, base + ARENA, false, b, c); }
    }
  }

  /** One block gives way to two. */
  lemma SplitMembers(bs: seq<Block>, i: nat, b: Block, served: Block, rest: Block, bs': seq<Block>)
    requires i < |bs| && bs[i] == b && bs' == bs[..i] + [served, rest] + bs[i + 1..] && !b.used && !rest.used
    ensures served in bs' && rest in bs' && |bs'| == |bs| + 1
    ensures forall c: Block | c.used :: c in bs' <==> c in bs || c == served
  {
    assert bs'[i] == served && bs'[i + 1] == rest;
    assert bs == bs[..i] + [b] + bs[i + 1..];
  }

  /** The same address is handed out twice in a row exactly when the remainder of the served
      block is too small to split off. */
  lemma UnsplitServedTwice(bs: seq<Block>, base: nat, size: nat)
    requires Inv(bs, base) && NoWrap(size) && Chosen(bs, size).Some?
    ensures Kmalloc(Kmalloc(bs, size).0, size).1 == Kmalloc(bs, size).1 <==> !Splits(Chosen(bs, size).value, size)
  {
    KmallocUsed(bs, base, size);
    var (bs', r) := Kmalloc(bs, size);
    if Splits(Chosen(bs, size).value, size) {
      var c :| c in bs' && c.used && c.addr + HEADER == r.value;
      KmallocInv(bs, base, size);
      var next := Chosen(bs', size);
      if next.Some? { BlocksDisjoint(bs', base, base + ARENA, false, c, next.value); }
    }
  }

  /** A block that serves a request has room for it exactly when size + 12 does not wrap: a larger
      size is cut down to less than a header and then fits anywhere. */
  lemma ServedHasRoom(bs: seq<Block>, base: nat, size: nat)
    requires Inv(bs, base) && size < WORD && Chosen(bs, size).Some?
    ensures Chosen(bs, size).value.length > size <==> size + 12 < 0x1_0000_0000
  {
    FitsField(bs, base, Chosen(bs, size).value);
  }

  /** The largest 32-bit size is served by a fresh arena. */
  lemma WrappedSizeServed(base: nat)
    ensures Chosen(Init(base), WORD - 1) == Some(Init(base)[0])
  {
  }

  /** A release removes the freed block from the used ones and touches no other. */
  lemma KfreeUsed(bs: seq<Block>, base: nat, addr: nat, stale: bool)
    requires Inv(bs, base) && Releasable(bs, addr, stale)
    ensures forall c: Block | c.used :: c in Kfree(bs, addr, stale) <==> c in bs && c.addr != addr - HEADER
  {
    forall c | c in bs && c.addr == addr - HEADER
      ensures HasHeader(bs, addr - HEADER) && c == bs[HeaderAt(bs, addr - HEADER)]
    {
      OnlyHeader(bs, base, addr - HEADER, c);
    }
    if AllocatedBit(bs, addr, stale) {
      var i := HeaderAt(bs, addr - HEADER);
      var bs0 := bs[i := bs[i].(used := false)];
      forall c: Block | c.used
        ensures c in bs0 <==> c in bs && c.addr != addr - HEADER
      {
        FreedFromUsed(bs, base, i, c);
      }
      var (bs1, i1) := GluePrev(bs0, i);
      forall c: Block | c.used
        ensures c in Glue(bs0, i) <==> c in bs0
      {
        if i > 0 && !bs0[i - 1].used { MergeKeepsUsed(bs0, i - 1, c); }
        if i1 + 1 < |bs1| && !bs1[i1 + 1].used { MergeKeepsUsed(bs1, i1, c); }
      }
    }
  }

  /** Releasing what is not in use changes nothing, on the list or off it. */
  lemma KfreeUnused(bs: seq<Block>, addr: nat, stale: bool)
    requires Releasable(bs, addr, stale)
    requires forall c | c in bs && c.addr == addr - 12 :: !c.used
    ensures Kfree(bs, addr, stale) == bs
  {
    if HasHeader(bs, addr - HEADER) { assert bs[HeaderAt(bs, addr - HEADER)] in bs; }
  }

  lemma OnlyHeader(bs: seq<Block>, base: nat, a: nat, c: Block)
    requires Inv(bs, base) && c in bs && c.addr == a
    ensures HasHeader(bs, a) && c == bs[HeaderAt(bs, a)]
  {
    var j :| 0 <= j < |bs| && bs[j] == c;
    assert HasHeader(bs, a);
    var b := bs[HeaderAt(bs, a)];
    if c != b { BlocksDisjoint(bs, base, base + ARENA, false, b, c); }
  }

  lemma FreedFromUsed(bs: seq<Block>, base: nat, i: nat, c: Block)
    requires Inv(bs, base) && i < |bs| && c.used
    ensures c in bs[i := bs[i].(used := false)] <==> c in bs && c.addr != bs[i].addr
  {
    OthersElsewhere(bs, base, i, c);
    MembersAround(bs, i, bs[i], c);
    MembersAround(bs[i := bs[i].(used := false)], i, bs[i].(used := false), c);
    assert bs[i := bs[i].(used := false)][..i] == bs[..i] && bs[i := bs[i].(used := false)][i + 1..] == bs[i + 1..];
  }

  lemma MembersAround(bs: seq<Block>, i: nat, b: Block, c: Block)
    requires i < |bs| && bs[i] == b
    ensures c in bs <==> c in bs[..i] || c == b || c in bs[i + 1..]
  {
    assert bs == bs[..i] + [b] + bs[i + 1..];
  }

  lemma OthersElsewhere(bs: seq<Block>, base: nat, i: nat, c: Block)
    requires Inv(bs, base) && i < |bs|
    ensures c in bs[..i] || c in bs[i + 1..] ==> c.addr != bs[i].addr
  {
    Around(bs, base, i);
    if c in bs[..i] { LaidInside(bs[..i], base, bs[i].addr, false, c); }
    if c in bs[i + 1..] { LaidInside(bs[i + 1..], End(bs[i]), base + ARENA, !bs[i].used, c); }
  }

  lemma MergeKeepsUsed(bs: seq<Block>, i: nat, c: Block)
    requires i + 1 < |bs| && !bs[i].used && !bs[i + 1].used && c.used
    ensures c in MergeNext(bs, i) <==> c in bs
  {
    assert bs == bs[..i] + [bs[i], bs[i + 1]] + bs[i + 2..];
  }

  lemma ServedHasHeader(bs: seq<Block>, size: nat)
    requires NoWrap(size) && Chosen(bs, size).Some?
    ensures var (bs', r) := Kmalloc(bs, size);
            r.Some? && r.value >= HEADER && HasHeader(bs', r.value - HEADER)
  {
    assert Kmalloc(bs, size).0[FirstFit(bs, 0, RequestLen(size))].addr == Chosen(bs, size).value.addr;
  }

  lemma UsedRestored(bs: seq<Block>, base: nat, size: nat, stale: bool, bs': seq<Block>, a: nat)
    requires Inv(bs, base) && NoWrap(size) && Chosen(bs, size).Some?
    requires Kmalloc(bs, size) == (bs', Some(a)) && Releasable(bs', a, stale)
    ensures forall c: Block | c.used :: c in Kfree(bs', a, stale) <==> c in bs
  {
    KmallocInv(bs, base, size);
    KmallocUsed(bs, base, size);
    KfreeUsed(bs', base, a, stale);
    var b := Chosen(bs, size).value;
    forall c: Block | c.used && c in bs
      ensures c.addr != b.addr
    {
      BlocksDisjoint(bs, base, base + ARENA, false, b, c);
    }
  }

  /** Releasing what was just allocated restores the list exactly, split or not. */
  lemma KmallocThenKfree(bs: seq<Block>, base: nat, size: nat, stale: bool)
    requires Inv(bs, base) && NoWrap(size)
    ensures var (bs', r) := Kmalloc(bs, size);
            r.Some? ==> r.value >= HEADER && HasHeader(bs', r.value - HEADER) && Kfree(bs', r.value, stale) == bs
  {
    var (bs', r) := Kmalloc(bs, size);
    if r.Some? {
      ServedHasHeader(bs, size);
      KmallocInv(bs, base, size);
      KfreeInv(bs', base, r.value, stale);
      UsedRestored(bs, base, size, stale, bs', r.value);
      UsedDetermineLayout(Kfree(bs', r.value, stale), bs, base, base + ARENA, false);
    }
  }
}
