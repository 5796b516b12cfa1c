// The kernel heap in memory: headers at the front of each block, chained through next.

module Heap {
  import opened Bits
  import opened HeapSpec

  const MAGIC := 0xC0FF_EE00

  // block_header_t; next is an address, 0 for NULL.
  datatype Header = Header(magic: nat, size: nat, used: bool, next: nat)

  // The header of block i holds what the list says, and points to the next block.
  predicate HeaderOk(bs: seq<Block>, headers: map<nat, Header>, i: nat)
    requires i < |bs|
  {
    && bs[i].addr in headers
    && headers[bs[i].addr] == Header(MAGIC, bs[i].size, bs[i].used, if i + 1 < |bs| then bs[i + 1].addr else 0)
  }

  ghost predicate Chained(bs: seq<Block>, headers: map<nat, Header>) {
    forall i | 0 <= i < |bs| :: HeaderOk(bs, headers, i)
  }

  class KernelHeap {
    var headers: map<nat, Header>  // the headers in the 4 MB, by address
    var head: nat
    ghost var blocks: seq<Block>

    ghost predicate Valid()
      reads this
    {
      && Tiles(blocks)
      && head == blocks[0].addr
      && Chained(blocks, headers)
    }

    constructor ()
      ensures Valid() && blocks == INITIAL
    {
      headers := map[HEAP_START := Header(MAGIC, HEAP_SIZE - HEADER, false, 0)];
      head := HEAP_START;
      blocks := INITIAL;
    }

    /** First fit over the chain. */
    method KMalloc(size: nat) returns (ptr: nat)
      requires Valid() && size < WORD32
      modifies this
      ensures Valid() && (blocks, ptr) == Malloc(old(blocks), size)
    {
      var current := head;
      ghost var i := 0;
      InBounds(blocks, 0);
      while current != 0
        invariant i <= |blocks| && blocks == old(blocks) && headers == old(headers) && Valid()
        invariant current == if i < |blocks| then blocks[i].addr else 0
        invariant i < |blocks| ==> current != 0
        invariant FirstFit(blocks, size, i) == FirstFit(blocks, size, 0)
        decreases |blocks| - i
      {
        InBounds(blocks, i);
        assert HeaderOk(blocks, headers, i);
        var h := headers[current];
        if !h.used && h.size >= size {
          Take(current, size, i);
          return current + HEADER;
        }
        current := h.next;
        i := i + 1;
        if i < |blocks| { InBounds(blocks, i); }
      }
      return 0;
    }

    // The body of the search loop of kmalloc, once a block fits.
    method Take(current: nat, size: nat, ghost i: nat)
      requires Valid() && size < WORD32 && i < |blocks| && current == blocks[i].addr && Fits(blocks[i], size)
      modifies this
      ensures Valid() && blocks == Carve(old(blocks), i, size)
    {
      InBounds(blocks, i);
      CarveTiles(blocks, i, size);
      assert HeaderOk(blocks, headers, i);
      var h := headers[current];
      if h.size > Add32(Add32(size, HEADER), 16) {
        SplitHeaders(blocks, i, size, headers);
        var split := current + HEADER + size;
        headers := headers[split := Header(MAGIC, h.size - size - HEADER, false, h.next)];
        headers := headers[current := Header(h.magic, size, true, split)];
      } else {
        WholeHeaders(blocks, i, size, headers);
        headers := headers[current := h.(used := true)];
      }
      blocks := Carve(blocks, i, size);
    }

    /** kfree of NULL or of a live payload; the block behind is merged in when it is free. */
    method KFree(ptr: nat)
      requires Valid() && (ptr == 0 || IsLive(blocks, ptr))
      modifies this
      ensures Valid()
      ensures blocks == if ptr == 0 then old(blocks) else Free(old(blocks), ptr)
    {
      if ptr == 0 { return; }
      ghost var i := IndexOf(blocks, ptr);
      assert HeaderOk(blocks, headers, i);
      if i + 1 < |blocks| {
        InBounds(blocks, i + 1);
        assert HeaderOk(blocks, headers, i + 1) && Adjacent(blocks, i);
      }
      var addr := ptr - HEADER;
      if headers[addr].magic != MAGIC { return; }
      var h := headers[addr].(used := false);
      headers := headers[addr := h];
      if h.next != 0 && !headers[h.next].used {
        var n := headers[h.next];
        headers := headers[addr := Header(h.magic, h.size + HEADER + n.size, false, n.next)];
      }
      ReleaseTiles(blocks, i);
      blocks := Release(blocks, i);
      ReleasedHeaders(old(blocks), i, old(headers), headers);
    }

    method UsedTotal() returns (used: nat)
      requires Valid()
      ensures used == UsedBytes(blocks)
    {
      used := 0;
      var current := head;
      ghost var i := 0;
      InBounds(blocks, 0);
      while current != 0
        invariant i <= |blocks| && current == if i < |blocks| then blocks[i].addr else 0
        invariant i < |blocks| ==> current != 0
        invariant used == UsedBytes(blocks[..i])
        decreases |blocks| - i
      {
        InBounds(blocks, i);
        assert HeaderOk(blocks, headers, i);
        if headers[current].used { used := used + headers[current].size; }
        assert blocks[..i + 1][..i] == blocks[..i];
        current := headers[current].next;
        i := i + 1;
        if i < |blocks| { InBounds(blocks, i); }
      }
      assert blocks[..i] == blocks;
    }
  }

  // Every other header lies elsewhere than block i and whatever is cut from it.
  lemma OtherAddrs(bs: seq<Block>, i: nat)
    requires Tiles(bs) && i < |bs|
    ensures forall k | 0 <= k < |bs| && k != i :: bs[k].addr < bs[i].addr || bs[i].End() <= bs[k].addr
  {
    forall k | 0 <= k < |bs| && k != i
      ensures bs[k].addr < bs[i].addr || bs[i].End() <= bs[k].addr
    {
      if k < i { InOrder(bs, k, i); } else { InOrder(bs, i, k); }
    }
  }

  lemma SplitHeaders(bs: seq<Block>, i: nat, size: nat, before: map<nat, Header>)
    requires Tiles(bs) && Chained(bs, before) && i < |bs| && Fits(bs[i], size) && Splits(bs[i], size)
    ensures var (b, split) := (bs[i], bs[i].Payload() + size);
      HeaderOk(bs, before, i) && Chained(Carve(bs, i, size),
        before[split := Header(MAGIC, b.size - size - HEADER, false, before[b.addr].next)]
              [b.addr := Header(MAGIC, size, true, split)])
  {
    var (b, split) := (bs[i], bs[i].Payload() + size);
    var bs' := Carve(bs, i, size);
    assert HeaderOk(bs, before, i);
    var mid := before[split := Header(MAGIC, b.size - size - HEADER, false, before[b.addr].next)];
    var after := mid[b.addr := Header(MAGIC, size, true, split)];
    OtherAddrs(bs, i);
    forall k | 0 <= k < |bs'| ensures HeaderOk(bs', after, k) {
      if k < i {
        assert HeaderOk(bs, before, k);
        assert bs'[k] == bs[k] && bs'[k + 1].addr == bs[k + 1].addr;
      } else if k > i + 1 {
        assert HeaderOk(bs, before, k - 1);
        assert bs'[k] == bs[k - 1];
      }
    }
  }

  lemma WholeHeaders(bs: seq<Block>, i: nat, size: nat, before: map<nat, Header>)
    requires Tiles(bs) && Chained(bs, before) && i < |bs| && Fits(bs[i], size) && !Splits(bs[i], size)
    ensures HeaderOk(bs, before, i)
    ensures Chained(Carve(bs, i, size), before[bs[i].addr := before[bs[i].addr].(used := true)])
  {
    OtherAddrs(bs, i);
    var bs' := Carve(bs, i, size);
    assert HeaderOk(bs, before, i);
    var after := before[bs[i].addr := before[bs[i].addr].(used := true)];
    forall k | 0 <= k < |bs'| ensures HeaderOk(bs', after, k) {
      assert HeaderOk(bs, before, k);
    }
  }

  lemma ReleasedHeaders(bs: seq<Block>, i: nat, before: map<nat, Header>, after: map<nat, Header>)
    requires Tiles(bs) && Chained(bs, before) && i < |bs| && HeaderOk(bs, before, i)
    requires MergesWithNext(bs, i) ==> HeaderOk(bs, before, i + 1)
    requires after == if MergesWithNext(bs, i)
      then before[bs[i].addr := Header(MAGIC, bs[i].size + HEADER + bs[i + 1].size, false, before[bs[i + 1].addr].next)]
      else before[bs[i].addr := before[bs[i].addr].(used := false)]
    ensures Chained(Release(bs, i), after)
  {
    OtherAddrs(bs, i);
    var bs' := Release(bs, i);
    if MergesWithNext(bs, i) { assert HeaderOk(bs, before, i + 1); }
    forall k | 0 <= k < |bs'| ensures HeaderOk(bs', after, k) {
      assert HeaderOk(bs, before, if k > i && MergesWithNext(bs, i) then k + 1 else k);
    }
  }
}
