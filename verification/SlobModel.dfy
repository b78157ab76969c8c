/** The byte allocator: first fit over an address-ordered list of headers in one arena. */
module SlobModel {
  import opened Options

  /** A header at `addr` with its 31-bit length and its allocated bit. */
  datatype Block = Block(addr: nat, length: nat, used: bool)

  const HEADER: nat := 12        // sizeof(slob_block_t)
  const MIN_PART: nat := 32      // SLOB_MIN_PART
  const ARENA: nat := 1024 * 4096
  const WORD: nat := 0x1_0000_0000

  function End(b: Block): nat {
    b.addr + HEADER + b.length
  }

  function Payload(size: nat): nat {
    if size > MIN_PART then size else MIN_PART
  }

  /** Bytes to cut off for a request, as 32-bit words add. */
  function RequestLen(size: nat): (r: nat)
    requires size < WORD
    ensures r == if NoWrap(size) then Payload(size) + HEADER else size + HEADER - WORD
  {
    (Payload(size) + HEADER) % WORD
  }

  predicate NoWrap(size: nat) {
    size + HEADER < WORD
  }

  function Init(base: nat): seq<Block> {
    [Block(base, ARENA - HEADER, false)]
  }

  /** Cut `len` bytes, header included, off free block i; too small a remainder changes
      nothing, not even the allocated bit. */
  function Split(bs: seq<Block>, i: nat, len: nat): seq<Block>
    requires i < |bs| && HEADER <= len < bs[i].length
  {
    var b := bs[i];
    var left := b.length - len;
    if left < HEADER + MIN_PART then bs
    else bs[..i] + [Block(b.addr, len - HEADER, true), Block(b.addr + len, left, false)] + bs[i + 1..]
  }

  function FirstFit(bs: seq<Block>, i: nat, len: nat): (r: nat)
    requires i <= |bs|
    ensures i <= r <= |bs|
    ensures forall j | i <= j < r :: bs[j].used || bs[j].length <= len
    ensures r < |bs| ==> !bs[r].used && bs[r].length > len
    decreases |bs| - i
  {
    if i == |bs| || (!bs[i].used && bs[i].length > len) then i else FirstFit(bs, i + 1, len)
  }

  function Kmalloc(bs: seq<Block>, size: nat): (seq<Block>, Option<nat>)
    requires NoWrap(size)
  {
    var len := RequestLen(size);
    var i := FirstFit(bs, 0, len);
    if i == |bs| then (bs, None) else (Split(bs, i, len), Some(bs[i].addr + HEADER))
  }

  function MergeNext(bs: seq<Block>, i: nat): seq<Block>
    requires i + 1 < |bs|
  {
    bs[..i] + [bs[i].(length := bs[i].length + bs[i + 1].length + HEADER)] + bs[i + 2..]
  }

  /** Join block i into a free block before it; the second result is where it now is. */
  function GluePrev(bs: seq<Block>, i: nat): (seq<Block>, nat)
    requires i < |bs|
  {
    if i > 0 && !bs[i - 1].used then (MergeNext(bs, i - 1), i - 1) else (bs, i)
  }

  /** Join a free block after block i into it. */
  function GlueNext(bs: seq<Block>, i: nat): seq<Block>
    requires i < |bs|
  {
    if i + 1 < |bs| && !bs[i + 1].used then MergeNext(bs, i) else bs
  }

  function Glue(bs: seq<Block>, i: nat): seq<Block>
    requires i < |bs|
  {
    var (bs1, i1) := GluePrev(bs, i);
    GlueNext(bs1, i1)
  }

  predicate HasHeader(bs: seq<Block>, a: nat) {
    exists i | 0 <= i < |bs| :: bs[i].addr == a
  }

  function HeaderAt(bs: seq<Block>, a: nat): (i: nat)
    requires HasHeader(bs, a)
    ensures i < |bs| && bs[i].addr == a
  {
    if bs[0].addr == a then 0 else
      assert HasHeader(bs[1..], a) by {
        var i :| 0 <= i < |bs| && bs[i].addr == a;
        assert bs[1..][i - 1].addr == a;
      }
      HeaderAt(bs[1..], a) + 1
  }

  /** The allocated bit that kfree reads for payload address `addr`: that of the header there, or
      `stale`, whatever the memory holds, when no header of the list is there. */
  function AllocatedBit(bs: seq<Block>, addr: nat, stale: bool): bool
    requires addr >= HEADER
  {
    if HasHeader(bs, addr - HEADER) then bs[HeaderAt(bs, addr - HEADER)].used else stale
  }

  /** What kfree takes for a block in use is one. Gluing leaves the headers it drops marked free,
      so releasing those is harmless until their memory is written again. */
  predicate Releasable(bs: seq<Block>, addr: nat, stale: bool) {
    addr >= HEADER && (AllocatedBit(bs, addr, stale) ==> HasHeader(bs, addr - HEADER))
  }

  function Kfree(bs: seq<Block>, addr: nat, stale: bool): seq<Block>
    requires Releasable(bs, addr, stale)
  {
    if !AllocatedBit(bs, addr, stale) then bs
    else
      var i := HeaderAt(bs, addr - HEADER);
      Glue(bs[i := bs[i].(used := false)], i)
  }
}
