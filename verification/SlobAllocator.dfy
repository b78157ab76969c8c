/** The byte allocator as it runs: headers and the address-ordered list updated in place. */
module SlobAllocator {
  import opened SlobModel
  import opened Options

  class Slob {
    var blocks: seq<Block>

    /** slob_init over an arena that starts at `base`. */
    constructor (base: nat)
      ensures blocks == Init(base)
    {
      blocks := [Block(base, ARENA - HEADER, false)];
    }

    method SplitChunk(i: nat, len: nat)
      requires i < |blocks| && HEADER <= len < blocks[i].length
      modifies this
      ensures blocks == Split(old(blocks), i, len)
    {
      var left := blocks[i].length - len;
      if left < HEADER + MIN_PART { return; }
      var newChunk := Block(blocks[i].addr + len, left, false);
      blocks := blocks[..i + 1] + [newChunk] + blocks[i + 1..];
      blocks := blocks[i := blocks[i].(length := len - HEADER)];
      blocks := blocks[i := blocks[i].(used := true)];
    }

    method GlueChunk(i: nat)
      requires i < |blocks|
      modifies this
      ensures blocks == Glue(old(blocks), i)
    {
      var at := i;
      if at > 0 {
        if !blocks[at - 1].used {
          JoinWithNext(at - 1);
          at := at - 1;
        }
      }
      if at + 1 < |blocks| {
        if !blocks[at + 1].used {
          JoinWithNext(at);
        }
      }
    }

    /** Lengthen header i over its successor and unlink the successor. */
    method JoinWithNext(i: nat)
      requires i + 1 < |blocks|
      modifies this
      ensures blocks == MergeNext(old(blocks), i)
    {
      blocks := blocks[i := blocks[i].(length := blocks[i].length + (blocks[i + 1].length + HEADER))];
      blocks := blocks[..i + 1] + blocks[i + 2..];
    }

    method Kmalloc(size: nat) returns (r: Option<nat>)
      requires NoWrap(size)
      modifies this
      ensures (blocks, r) == SlobModel.Kmalloc(old(blocks), size)
    {
      var len := if size > MIN_PART then size else MIN_PART;
      len := (len + HEADER) % WORD;
      var i := 0;
      while i < |blocks|
        invariant i <= |blocks| && blocks == old(blocks)
        invariant FirstFit(blocks, i, len) == FirstFit(old(blocks), 0, len)
      {
        if !blocks[i].used && blocks[i].length > len {
          var addr := blocks[i].addr + HEADER;
          SplitChunk(i, len);
          return Some(addr);
        }
        i := i + 1;
      }
      return None;
    }

    method Kfree(addr: nat, stale: bool)
      requires Releasable(blocks, addr, stale)
      modifies this
      ensures blocks == SlobModel.Kfree(old(blocks), addr, stale)
    {
      if !AllocatedBit(blocks, addr, stale) { return; }
      var i := HeaderAt(blocks, addr - HEADER);
      blocks := blocks[i := blocks[i].(used := false)];
      GlueChunk(i);
    }
  }
}
