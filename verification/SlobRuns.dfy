/** The byte allocator over whole runs, beside the callers' record of what they hold. */
module SlobRuns {
  import opened SlobModel
  import opened SlobTheorems
  import opened Options

  /** `held` maps each address a caller holds to the size it asked for. */
  datatype Heap = Heap(blocks: seq<Block>, held: map<nat, nat>)

  /** A release comes with the allocated bit that the memory in front of the address holds, which
      matters only where no header of the list is. */
  datatype Op = Malloc(size: nat) | Free(addr: nat, stale: bool)

  predicate Enabled(h: Heap, op: Op) {
    match op
    case Malloc(size) => NoWrap(size)
    case Free(a, stale) => Releasable(h.blocks, a, stale)
  }

  function Step(h: Heap, op: Op): Heap
    requires Enabled(h, op)
  {
    match op
    case Malloc(size) =>
      var (bs, r) := Kmalloc(h.blocks, size);
      Heap(bs, if r.Some? then h.held[r.value := size] else h.held)
    case Free(a, stale) => Heap(Kfree(h.blocks, a, stale), h.held - {a})
  }

  lemma StepInv(h: Heap, base: nat, op: Op)
    requires Inv(h.blocks, base) && Enabled(h, op)
    ensures Inv(Step(h, op).blocks, base)
  {
    match op
    case Malloc(size) => KmallocInv(h.blocks, base, size);
    case Free(a, stale) => KfreeInv(h.blocks, base, a, stale);
  }

  predicate Legal(h: Heap, ops: seq<Op>)
    decreases |ops|
  {
    ops == [] || (Enabled(h, ops[0]) && Legal(Step(h, ops[0]), ops[1..]))
  }

  function Run(h: Heap, ops: seq<Op>): Heap
    requires Legal(h, ops)
    decreases |ops|
  {
    if ops == [] then h else Run(Step(h, ops[0]), ops[1..])
  }

  /** Every run keeps the arena tiled in address order with all free neighbours joined. */
  lemma {:induction false} RunInv(h: Heap, base: nat, ops: seq<Op>)
    requires Inv(h.blocks, base) && Legal(h, ops)
    ensures Inv(Run(h, ops).blocks, base)
    decreases |ops|
  {
    if ops != [] {
      StepInv(h, base, ops[0]);
      RunInv(Step(h, ops[0]), base, ops[1..]);
    }
  }

  /** Without splitting the list can lose a header that a caller still counts on. On a fresh arena,
      allocate 100 bytes, then all but 13 bytes of the rest, and release the first: the second
      block's header is gone, and its memory is handed out again. */
  lemma UnsplitLosesHeader(base: nat)
    ensures var size := ARENA - HEADER - (100 + HEADER) - HEADER - 1;
            var (bs1, r1) := Kmalloc(Init(base), 100);
            var (bs2, r2) := Kmalloc(bs1, size);
            && r1.Some? && r2.Some? && r2.value >= HEADER && HasHeader(bs2, r2.value - HEADER)
            && r1.value >= HEADER && HasHeader(bs2, r1.value - HEADER)
            && var bs3 := Kfree(bs2, r1.value, false);
               && bs3 == Init(base) && !HasHeader(bs3, r2.value - HEADER)
               && Kmalloc(bs3, 200).1 == r1 && r1.value < r2.value < r1.value + 200
  {
    var size := ARENA - HEADER - (100 + HEADER) - HEADER - 1;
    var first, rest := Block(base, 100, true), Block(base + 100 + HEADER, ARENA - HEADER - 100 - HEADER, false);
    var both := [first, rest];
    assert Kmalloc(Init(base), 100).0 == both;
    assert FirstFit(both, 0, size + HEADER) == 1;
    assert Kmalloc(both, size).0 == both;
    assert both[0].addr == base && both[1].addr == rest.addr;
    assert both[0 := first.(used := false)] == [first.(used := false), rest];
    assert Glue([first.(used := false), rest], 0) == Init(base);
  }

  // ---- Runs in which every successful allocation splits its block ----

  /** The list has a used block whose payload is the `len` bytes at `a`. */
  predicate Marked(bs: seq<Block>, a: nat, len: nat) {
    a >= HEADER && Block(a - HEADER, len, true) in bs
  }

  /** What callers hold is exactly what the list marks as used, each with room for its size. */
  ghost predicate HeldInv(h: Heap, base: nat) {
    && Inv(h.blocks, base)
    && forall a: nat, len: nat :: a in h.held && Payload(h.held[a]) == len <==> Marked(h.blocks, a, len)
  }

  /** An allocation that splits if it succeeds, or the release of something held. */
  predicate Careful(h: Heap, op: Op) {
    match op
    case Malloc(size) => NoWrap(size) && (Chosen(h.blocks, size).Some? ==> Splits(Chosen(h.blocks, size).value, size))
    case Free(a, _) => a in h.held
  }

  /** What is held has its header on the list, so kfree never reads anything stale. */
  lemma CarefulEnabled(h: Heap, base: nat, op: Op)
    requires HeldInv(h, base) && Careful(h, op)
    ensures Enabled(h, op)
    ensures op.Free? ==> op.addr >= HEADER && HasHeader(h.blocks, op.addr - HEADER)
  {
    if op.Free? {
      var a := op.addr;
      assert Marked(h.blocks, a, Payload(h.held[a]));
      var i :| 0 <= i < |h.blocks| && h.blocks[i] == Block(a - HEADER, Payload(h.held[a]), true);
    }
  }

  /** A fresh allocation is not at an address already held. */
  lemma FreshAddress(h: Heap, base: nat, size: nat)
    requires HeldInv(h, base) && NoWrap(size) && Chosen(h.blocks, size).Some?
    ensures Chosen(h.blocks, size).value.addr + HEADER !in h.held
  {
    var b := Chosen(h.blocks, size).value;
    var a := b.addr + HEADER;
    if a in h.held {
      assert Marked(h.blocks, a, Payload(h.held[a]));
      BlocksDisjoint(h.blocks, base, base + ARENA, false, b, Block(a - HEADER, Payload(h.held[a]), true));
    }
  }

  lemma MallocStep(h: Heap, base: nat, size: nat)
    requires HeldInv(h, base) && Careful(h, Malloc(size))
    ensures HeldInv(Step(h, Malloc(size)), base)
    ensures forall a | a in h.held :: a in Step(h, Malloc(size)).held && Step(h, Malloc(size)).held[a] == h.held[a]
  {
    KmallocInv(h.blocks, base, size);
    if Chosen(h.blocks, size).Some? {
      KmallocUsed(h.blocks, base, size);
      FreshAddress(h, base, size);
      var h' := Step(h, Malloc(size));
      var newest := Chosen(h.blocks, size).value.addr + HEADER;
      forall a: nat, len: nat
        ensures a in h'.held && Payload(h'.held[a]) == len <==> Marked(h'.blocks, a, len)
      {
        assert a in h.held && Payload(h.held[a]) == len <==> Marked(h.blocks, a, len);
        if a == newest { assert a !in h.held; }
      }
    }
  }

  lemma FreeStep(h: Heap, base: nat, a: nat, stale: bool)
    requires HeldInv(h, base) && Enabled(h, Free(a, stale)) && a in h.held
    ensures HeldInv(Step(h, Free(a, stale)), base)
  {
    KfreeInv(h.blocks, base, a, stale);
    KfreeUsed(h.blocks, base, a, stale);
    var h' := Step(h, Free(a, stale));
    forall c: nat, len: nat
      ensures c in h'.held && Payload(h'.held[c]) == len <==> Marked(h'.blocks, c, len)
    {
      assert c in h.held && Payload(h.held[c]) == len <==> Marked(h.blocks, c, len);
    }
  }

  /** When allocations split, what callers hold stays exactly what is marked as used, and nothing
      but its own release touches a held block. */
  lemma CarefulStep(h: Heap, base: nat, op: Op)
    requires HeldInv(h, base) && Careful(h, op)
    ensures Enabled(h, op) && HeldInv(Step(h, op), base)
    ensures op.Free? ==> op.addr >= HEADER && HasHeader(h.blocks, op.addr - HEADER)
    ensures forall a | a in h.held && !(op.Free? && op.addr == a) ::
              a in Step(h, op).held && Step(h, op).held[a] == h.held[a]
  {
    CarefulEnabled(h, base, op);
    match op
    case Malloc(size) => MallocStep(h, base, size);
    case Free(a, stale) => FreeStep(h, base, a, stale);
  }

  ghost predicate CarefulRun(h: Heap, base: nat, ops: seq<Op>)
    requires HeldInv(h, base)
    decreases |ops|
  {
    ops == [] ||
    (Careful(h, ops[0]) && (CarefulStep(h, base, ops[0]); CarefulRun(Step(h, ops[0]), base, ops[1..])))
  }

  lemma {:induction false} CarefulRunInv(h: Heap, base: nat, ops: seq<Op>)
    requires HeldInv(h, base) && CarefulRun(h, base, ops)
    ensures Legal(h, ops) && HeldInv(Run(h, ops), base)
    decreases |ops|
  {
    if ops != [] {
      CarefulStep(h, base, ops[0]);
      CarefulRunInv(Step(h, ops[0]), base, ops[1..]);
    }
  }

  /** A held block is neither moved nor resized, and stays marked, until it is released. */
  lemma {:induction false} StaysPut(h: Heap, base: nat, ops: seq<Op>, a: nat)
    requires HeldInv(h, base) && CarefulRun(h, base, ops) && a in h.held
    requires forall op | op in ops :: !(op.Free? && op.addr == a)
    ensures Legal(h, ops)
    ensures var h' := Run(h, ops);
            && a in h'.held && h'.held[a] == h.held[a] && a >= 12
            && Block(a - 12, if h.held[a] > 32 then h.held[a] else 32, true) in h'.blocks
    decreases |ops|
  {
    if ops != [] {
      CarefulStep(h, base, ops[0]);
      StaysPut(Step(h, ops[0]), base, ops[1..], a);
    } else {
      assert Marked(h.blocks, a, Payload(h.held[a]));
    }
  }

  /** All the bytes callers asked for lie inside the 4 MiB of the arena, apart from each other and
      from every 12-byte header. */
  lemma HeldDisjoint(h: Heap, base: nat, a: nat)
    requires HeldInv(h, base) && a in h.held
    ensures base + 12 <= a && a + h.held[a] <= base + 4194304
    ensures forall c | c in h.held && c != a :: a + h.held[a] + 12 <= c || c + h.held[c] + 12 <= a
    ensures forall b | b in h.blocks :: b.addr + 12 <= a || a + h.held[a] <= b.addr
  {
    assert Marked(h.blocks, a, Payload(h.held[a]));
    var mine := Block(a - HEADER, Payload(h.held[a]), true);
    LaidInside(h.blocks, base, base + ARENA, false, mine);
    forall b | b in h.blocks && b != mine
      ensures End(b) <= mine.addr || End(mine) <= b.addr
    {
      BlocksDisjoint(h.blocks, base, base + ARENA, false, b, mine);
    }
    forall c | c in h.held && c != a
      ensures a + h.held[a] + 12 <= c || c + h.held[c] + 12 <= a
    {
      assert Marked(h.blocks, c, Payload(h.held[c]));
    }
  }

  /** The arena after slob_init, with nothing handed out. */
  ghost function Fresh(base: nat): (h: Heap)
    ensures HeldInv(h, base) && h.held == map[]
  {
    InitLaid(base);
    Heap(Init(base), map[])
  }

  /** From initialisation through any careful run: disjoint payloads throughout, and once
      everything is released, in whatever order, the arena is one free block again. */
  lemma CarefulFromInit(base: nat, ops: seq<Op>)
    requires CarefulRun(Fresh(base), base, ops)
    ensures Legal(Fresh(base), ops)
    ensures var h := Run(Fresh(base), ops);
            && HeldInv(h, base)
            && (forall a, c | a in h.held && c in h.held && a != c ::
                  a + h.held[a] + 12 <= c || c + h.held[c] + 12 <= a)
            && (h.held == map[] ==> h.blocks == Init(base))
  {
    CarefulRunInv(Fresh(base), base, ops);
    var h := Run(Fresh(base), ops);
    forall a, c | a in h.held && c in h.held && a != c
      ensures a + h.held[a] + 12 <= c || c + h.held[c] + 12 <= a
    {
      HeldDisjoint(h, base, a);
    }
    if h.held == map[] {
      forall b | b in h.blocks ensures !b.used { assert Marked(h.blocks, b.addr + HEADER, b.length) <==> b.used; }
      NothingUsed(h.blocks, base);
    }
  }

  /** Two careful histories that leave the same blocks held leave the same list. */
  lemma HeldDetermineLayout(h1: Heap, h2: Heap, base: nat)
    requires HeldInv(h1, base) && HeldInv(h2, base) && h1.held == h2.held
    ensures h1.blocks == h2.blocks
  {
    forall b: Block | b.used
      ensures b in h1.blocks <==> b in h2.blocks
    {
      assert b == Block(b.addr + HEADER - HEADER, b.length, true);
      assert Marked(h1.blocks, b.addr + HEADER, b.length) <==> Marked(h2.blocks, b.addr + HEADER, b.length);
    }
    UsedDetermineLayout(h1.blocks, h2.blocks, base, base + ARENA, false);
  }
}
