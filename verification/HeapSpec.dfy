// The kernel heap as a list of blocks: what kmalloc and kfree do to it, and what holds of it
// over every run.

module HeapSpec {

  const HEAP_START := 0x40_0000
  const HEAP_SIZE := 0x40_0000
  const HEADER := 16

  // addr is where the header lies; the payload follows it.
  datatype Block = Block(addr: nat, size: nat, used: bool) {
    function Payload(): nat { addr + HEADER }
    function End(): nat { addr + HEADER + size }
  }

  predicate Adjacent(bs: seq<Block>, i: nat)
    requires i + 1 < |bs|
  {
    bs[i + 1].addr == bs[i].End()
  }

  // The blocks lie end to end and fill the heap.
  ghost predicate Tiles(bs: seq<Block>) {
    && |bs| > 0
    && bs[0].addr == HEAP_START
    && (forall i | 0 <= i < |bs| - 1 :: Adjacent(bs, i))
    && bs[|bs| - 1].End() == HEAP_START + HEAP_SIZE
  }

  ghost function Live(bs: seq<Block>): set<Block> {
    set b | b in bs && b.used
  }

  predicate IsLive(bs: seq<Block>, ptr: nat) {
    exists b :: b in bs && b.used && b.Payload() == ptr
  }

  const INITIAL := [Block(HEAP_START, HEAP_SIZE - HEADER, false)]

  predicate Fits(b: Block, size: nat) { !b.used && b.size >= size }

  predicate Splits(b: Block, size: nat) { b.size > size + HEADER + 16 }

  function FirstFit(bs: seq<Block>, size: nat, from: nat): (i: nat)
    requires from <= |bs|
    ensures from <= i <= |bs|
    ensures i < |bs| ==> Fits(bs[i], size)
    ensures forall j | from <= j < i :: !Fits(bs[j], size)
    decreases |bs| - from
  {
    if from == |bs| || Fits(bs[from], size) then from else FirstFit(bs, size, from + 1)
  }

  // Block i handed out: cut in two when enough is left over for another block.
  function Carve(bs: seq<Block>, i: nat, size: nat): (r: seq<Block>)
    requires i < |bs| && bs[i].size >= size
    ensures |r| == |bs| + if Splits(bs[i], size) then 1 else 0
  {
    var b := bs[i];
    if Splits(b, size) then
      var rest := Block(b.Payload() + size, b.size - size - HEADER, false);
      seq(|bs| + 1, k requires 0 <= k <= |bs| =>
        if k < i then bs[k] else if k == i then Block(b.addr, size, true) else if k == i + 1 then rest else bs[k - 1])
    else
      bs[i := b.(used := true)]
  }

  // kmalloc: the new list and the payload address, 0 for NULL.
  function Malloc(bs: seq<Block>, size: nat): (seq<Block>, nat) {
    var i := FirstFit(bs, size, 0);
    if i == |bs| then (bs, 0) else (Carve(bs, i, size), bs[i].Payload())
  }

  predicate MergesWithNext(bs: seq<Block>, i: nat) {
    i + 1 < |bs| && !bs[i + 1].used
  }

  function Release(bs: seq<Block>, i: nat): (r: seq<Block>)
    requires i < |bs|
    ensures |r| == |bs| - if MergesWithNext(bs, i) then 1 else 0
  {
    if MergesWithNext(bs, i) then
      var merged := Block(bs[i].addr, bs[i].size + HEADER + bs[i + 1].size, false);
      seq(|bs| - 1, k requires 0 <= k < |bs| - 1 => if k < i then bs[k] else if k == i then merged else bs[k + 1])
    else
      bs[i := bs[i].(used := false)]
  }

  function IndexOf(bs: seq<Block>, ptr: nat): (i: nat)
    requires IsLive(bs, ptr)
    ensures i < |bs| && bs[i].used && bs[i].Payload() == ptr
  {
    if bs[0].used && bs[0].Payload() == ptr then 0 else
      assert bs == [bs[0]] + bs[1..];
      1 + IndexOf(bs[1..], ptr)
  }

  // kfree of a live payload.
  function Free(bs: seq<Block>, ptr: nat): seq<Block>
    requires IsLive(bs, ptr)
  {
    Release(bs, IndexOf(bs, ptr))
  }

  function UsedBytes(bs: seq<Block>): nat {
    if |bs| == 0 then 0 else UsedBytes(bs[..|bs| - 1]) + if bs[|bs| - 1].used then bs[|bs| - 1].size else 0
  }

  function FreeBytes(bs: seq<Block>): nat {
    if |bs| == 0 then 0 else FreeBytes(bs[..|bs| - 1]) + if bs[|bs| - 1].used then 0 else bs[|bs| - 1].size
  }

  // ---- tiling ----

  lemma {:induction false} InOrder(bs: seq<Block>, i: nat, j: nat)
    requires Tiles(bs) && i < j < |bs|
    ensures bs[i].End() <= bs[j].addr
  {
    assert Adjacent(bs, j - 1);
    if i + 1 < j { InOrder(bs, i, j - 1); }
  }

  lemma InBounds(bs: seq<Block>, i: nat)
    requires Tiles(bs) && i < |bs|
    ensures HEAP_START <= bs[i].addr && bs[i].End() <= HEAP_START + HEAP_SIZE
  {
    if i > 0 { InOrder(bs, 0, i); }
    if i + 1 < |bs| { InOrder(bs, i, |bs| - 1); }
  }

  /** Live blocks are in bounds and apart, headers included. */
  lemma LiveApart(bs: seq<Block>, b: Block, c: Block)
    requires Tiles(bs) && b in bs && c in bs
    ensures HEAP_START < b.Payload() && b.End() <= HEAP_START + HEAP_SIZE
    ensures b == c || b.End() <= c.addr || c.End() <= b.addr
    ensures b.addr == c.addr ==> b == c
  {
    var i: nat :| i < |bs| && bs[i] == b;
    var j: nat :| j < |bs| && bs[j] == c;
    InBounds(bs, i);
    if i < j { InOrder(bs, i, j); } else if j < i { InOrder(bs, j, i); }
  }

  // The one place where the payload address given out by kmalloc can lie.
  lemma IndexIs(bs: seq<Block>, i: nat)
    requires Tiles(bs) && i < |bs| && bs[i].used
    ensures IndexOf(bs, bs[i].Payload()) == i
  {
    var j := IndexOf(bs, bs[i].Payload());
    if i < j { InOrder(bs, i, j); } else if j < i { InOrder(bs, j, i); }
  }

  lemma CarveTiles(bs: seq<Block>, i: nat, size: nat)
    requires Tiles(bs) && i < |bs| && Fits(bs[i], size)
    ensures Tiles(Carve(bs, i, size))
  {
    var bs' := Carve(bs, i, size);
    var shift := if Splits(bs[i], size) then 1 else 0;
    forall k | 0 <= k < |bs'| - 1 ensures Adjacent(bs', k) {
      if k < i { assert Adjacent(bs, k); } else if k >= i + shift { assert Adjacent(bs, k - shift); }
    }
  }

  lemma CarveLive(bs: seq<Block>, i: nat, size: nat)
    requires Tiles(bs) && i < |bs| && Fits(bs[i], size)
    ensures var b := Carve(bs, i, size)[i];
      && b.used && b.Payload() == bs[i].Payload() && size <= b.size <= size + 32
      && b !in Live(bs) && Live(Carve(bs, i, size)) == Live(bs) + {b}
  {
    var bs' := Carve(bs, i, size);
    var b := bs'[i];
    if b in bs { LiveApart(bs, b, bs[i]); }
    forall c ensures c in Live(bs') <==> c in Live(bs) || c == b {
      if c in Live(bs) {
        var j: nat :| j < |bs| && bs[j] == c;
        assert j < i ==> bs'[j] == c;
        assert j > i ==> bs'[if Splits(bs[i], size) then j + 1 else j] == c;
      }
    }
  }

  /** kmalloc keeps the tiling; it fails exactly when no free block is large enough, and then
      changes nothing; otherwise it adds one live block of at least size and at most size + 32
      bytes, and moves or resizes no other. */
  lemma MallocStep(bs: seq<Block>, size: nat)
    requires Tiles(bs)
    ensures var (bs', ptr) := Malloc(bs, size);
      && Tiles(bs')
      && (ptr == 0 <==> forall b | b in bs :: !Fits(b, size))
      && (ptr == 0 ==> bs' == bs)
      && (ptr != 0 ==> exists b :: b in Live(bs') && b.Payload() == ptr && size <= b.size <= size + 32
                        && b !in Live(bs) && Live(bs') == Live(bs) + {b})
  {
    var i := FirstFit(bs, size, 0);
    if i < |bs| {
      InBounds(bs, i);
      CarveTiles(bs, i, size);
      CarveLive(bs, i, size);
    }
  }

  lemma ReleaseTiles(bs: seq<Block>, i: nat)
    requires Tiles(bs) && i < |bs|
    ensures Tiles(Release(bs, i))
  {
    var bs' := Release(bs, i);
    var shift := if MergesWithNext(bs, i) then 1 else 0;
    if shift == 1 { assert Adjacent(bs, i); }
    forall k | 0 <= k < |bs'| - 1 ensures Adjacent(bs', k) {
      assert Adjacent(bs, if k < i then k else k + shift);
    }
  }

  lemma ReleaseLive(bs: seq<Block>, i: nat)
    requires Tiles(bs) && i < |bs|
    ensures Live(Release(bs, i)) == Live(bs) - {bs[i]}
  {
    var bs' := Release(bs, i);
    var shift := if MergesWithNext(bs, i) then 1 else 0;
    forall c ensures c in Live(bs') <==> c in Live(bs) && c != bs[i] {
      if c in Live(bs) && c != bs[i] {
        var j: nat :| j < |bs| && bs[j] == c;
        assert if j < i then bs'[j] == c else bs'[j - shift] == c;
      }
      if c in Live(bs') {
        var j: nat :| j < |bs'| && bs'[j] == c;
        assert j != i;
        if j < i {
          InOrder(bs, j, i);
          assert bs[j] == c;
        } else {
          InOrder(bs, i, j + shift);
          assert bs[j + shift] == c;
        }
      }
    }
  }

  /** kfree of a live block keeps the tiling and takes exactly that block out of the live set. */
  lemma FreeStep(bs: seq<Block>, b: Block)
    requires Tiles(bs) && b in Live(bs)
    ensures Tiles(Free(bs, b.Payload())) && Live(Free(bs, b.Payload())) == Live(bs) - {b}
  {
    var i := IndexOf(bs, b.Payload());
    LiveApart(bs, b, bs[i]);
    ReleaseTiles(bs, i);
    ReleaseLive(bs, i);
  }

  // ---- block by block ----

  ghost function Blocks(bs: seq<Block>): set<Block> { set b | b in bs }

  // The free block that is large enough and lies lowest.
  ghost predicate LowestFit(bs: seq<Block>, size: nat, b: Block) {
    && b in bs && !b.used && b.size >= size
    && forall c | c in bs && !c.used && c.size >= size :: b.addr <= c.addr
  }

  // Of this block the front is used now, and what is left over free, or all of it is used.
  ghost predicate TakenFrom(before: seq<Block>, after: seq<Block>, b: Block, size: nat) {
    Blocks(after) ==
      if b.size > size + 32
      then Blocks(before) - {b} + {Block(b.addr, size, true), Block(b.addr + 16 + size, b.size - size - 16, false)}
      else Blocks(before) - {b} + {Block(b.addr, b.size, true)}
  }

  lemma {:induction false} ElsewhereDiffers(bs: seq<Block>, i: nat, k: nat)
    requires Tiles(bs) && i < |bs| && k < |bs| && i != k
    ensures bs[k] != bs[i] && (bs[i].addr <= bs[k].addr <==> i < k)
  {
    if i < k { InOrder(bs, i, k); } else { InOrder(bs, k, i); }
  }

  /** kmalloc takes the lowest free block that is large enough: its front, if more than 32 bytes are left
      over, which stay free behind a header of 16, and otherwise all of it. Every other block is left as
      it was. NULL and no change if no free block is large enough. */
  lemma MallocExact(bs: seq<Block>, size: nat)
    requires Tiles(bs)
    ensures var (bs', ptr) := Malloc(bs, size);
      if forall b | b in bs && !b.used :: b.size < size then bs' == bs && ptr == 0
      else exists b :: LowestFit(bs, size, b) && ptr == b.addr + 16 && TakenFrom(bs, bs', b, size)
  {
    var i := FirstFit(bs, size, 0);
    if i < |bs| {
      var b := bs[i];
      forall c | c in bs && !c.used && c.size >= size ensures b.addr <= c.addr {
        var k: nat :| k < |bs| && bs[k] == c;
        assert Fits(bs[k], size);
        if k != i { ElsewhereDiffers(bs, i, k); }
      }
      CarvedBlocks(bs, i, size);
      assert LowestFit(bs, size, b);
    } else {
      forall b | b in bs && !b.used ensures b.size < size { assert !Fits(b, size); }
    }
  }

  lemma CarvedBlocks(bs: seq<Block>, i: nat, size: nat)
    requires Tiles(bs) && i < |bs| && Fits(bs[i], size)
    ensures TakenFrom(bs, Carve(bs, i, size), bs[i], size)
  {
    var (bs', b) := (Carve(bs, i, size), bs[i]);
    var shift := |bs'| - |bs|;
    forall c | c in Blocks(bs') ensures (c in bs && c != b) || c == bs'[i] || c == bs'[i + shift] {
      var k: nat :| k < |bs'| && bs'[k] == c;
      if k < i { ElsewhereDiffers(bs, i, k); } else if k > i + shift { ElsewhereDiffers(bs, i, k - shift); }
    }
    assert bs'[i] in bs' && bs'[i + shift] in bs';
    forall c | c in bs && c != b ensures c in Blocks(bs') {
      var k: nat :| k < |bs| && bs[k] == c;
      assert bs'[if k < i then k else k + shift] == c;
    }
  }

  /** kfree makes its block free, and one with the block behind it if that is free; no other changes. */
  lemma FreeExact(bs: seq<Block>, b: Block)
    requires Tiles(bs) && b in Live(bs)
    ensures var bs' := Free(bs, b.Payload());
      if c :| c in bs && !c.used && c.addr == b.End()
      then Blocks(bs') == Blocks(bs) - {b, c} + {Block(b.addr, b.size + 16 + c.size, false)}
      else Blocks(bs') == Blocks(bs) - {b} + {Block(b.addr, b.size, false)}
  {
    var i := IndexOf(bs, b.Payload());
    LiveApart(bs, b, bs[i]);
    ReleasedBlocks(bs, i);
    forall c | c in bs && c.addr == b.End() ensures i + 1 < |bs| && bs[i + 1] == c {
      var k: nat :| k < |bs| && bs[k] == c;
      ElsewhereDiffers(bs, i, k);
      assert Adjacent(bs, i);
      if k > i + 1 { ElsewhereDiffers(bs, i + 1, k); InOrder(bs, i + 1, k); }
    }
    if i + 1 < |bs| { assert Adjacent(bs, i) && bs[i + 1] in bs; }
  }

  lemma ReleasedBlocks(bs: seq<Block>, i: nat)
    requires Tiles(bs) && i < |bs|
    ensures Blocks(Release(bs, i)) ==
      if MergesWithNext(bs, i)
      then Blocks(bs) - {bs[i], bs[i + 1]} + {Block(bs[i].addr, bs[i].size + 16 + bs[i + 1].size, false)}
      else Blocks(bs) - {bs[i]} + {Block(bs[i].addr, bs[i].size, false)}
  {
    var bs' := Release(bs, i);
    var shift := |bs| - |bs'|;
    forall c | c in Blocks(bs') && c != bs'[i] ensures c in bs && c != bs[i] && (shift == 1 ==> c != bs[i + 1]) {
      var k: nat :| k < |bs'| && bs'[k] == c;
      var j := if k < i then k else k + shift;
      ElsewhereDiffers(bs, i, j);
      if shift == 1 { ElsewhereDiffers(bs, i + 1, j); }
    }
    forall c | c in bs && c != bs[i] && (shift == 1 ==> c != bs[i + 1]) ensures c in bs' {
      var k: nat :| k < |bs| && bs[k] == c;
      assert bs'[if k < i then k else k - shift] == c;
    }
    assert bs'[i] in bs';
  }

  /** Payload in use, payload free and headers together are the 4 MB. */
  lemma {:induction false} Conservation(bs: seq<Block>)
    requires Tiles(bs)
    ensures UsedBytes(bs) + FreeBytes(bs) + HEADER * |bs| == HEAP_SIZE
  {
    SumTo(bs, |bs|);
    assert bs[..|bs|] == bs;
  }

  lemma {:induction false} SumTo(bs: seq<Block>, n: nat)
    requires Tiles(bs) && 0 < n <= |bs|
    ensures UsedBytes(bs[..n]) + FreeBytes(bs[..n]) + HEADER * n == bs[n - 1].End() - HEAP_START
  {
    assert bs[..n][..n - 1] == bs[..n - 1];
    if n > 1 {
      SumTo(bs, n - 1);
      assert Adjacent(bs, n - 2);
    }
  }

  lemma {:induction false} CarveCounts(bs: seq<Block>, i: nat, size: nat, n: nat)
    requires i < n <= |bs| && Fits(bs[i], size)
    ensures var (c, m) := (Carve(bs, i, size), n + |Carve(bs, i, size)| - |bs|);
      UsedBytes(c[..m]) == UsedBytes(bs[..n]) + c[i].size
  {
    var c := Carve(bs, i, size);
    var m := n + |c| - |bs|;
    assert bs[..n][..n - 1] == bs[..n - 1] && c[..m][..m - 1] == c[..m - 1];
    if n > i + 1 {
      CarveCounts(bs, i, size, n - 1);
    } else {
      assert c[..i] == bs[..i] && c[..i + 1][..i] == c[..i];
    }
  }

  lemma {:induction false} ReleaseCounts(bs: seq<Block>, i: nat, n: nat)
    requires i < n <= |bs| && bs[i].used && (MergesWithNext(bs, i) ==> i + 1 < n)
    ensures var (r, m) := (Release(bs, i), n + |Release(bs, i)| - |bs|);
      UsedBytes(r[..m]) == UsedBytes(bs[..n]) - bs[i].size
  {
    var r := Release(bs, i);
    var m := n + |r| - |bs|;
    var last := if MergesWithNext(bs, i) then i + 2 else i + 1;
    assert bs[..n][..n - 1] == bs[..n - 1] && r[..m][..m - 1] == r[..m - 1];
    if n > last {
      ReleaseCounts(bs, i, n - 1);
    } else {
      assert r[..i] == bs[..i] && bs[..i + 1][..i] == bs[..i];
    }
  }

  /** What heap_used_bytes adds up: nothing at first, the block handed out more after a kmalloc, and the
      block given back less after a kfree. */
  lemma UsedBytesCount(bs: seq<Block>, size: nat, b: Block)
    requires Tiles(bs)
    ensures UsedBytes(INITIAL) == 0
    ensures var (bs', ptr) := Malloc(bs, size);
      if ptr == 0 then UsedBytes(bs') == UsedBytes(bs)
      else exists c :: c in Live(bs') && c.Payload() == ptr && UsedBytes(bs') == UsedBytes(bs) + c.size
    ensures b in Live(bs) ==> UsedBytes(Free(bs, b.Payload())) == UsedBytes(bs) - b.size
  {
    var i := FirstFit(bs, size, 0);
    assert bs[..|bs|] == bs;
    if i < |bs| {
      var c := Carve(bs, i, size);
      CarveCounts(bs, i, size, |bs|);
      CarveTiles(bs, i, size);
      InBounds(bs, i);
      assert c[..|c|] == c && c[i] in c;
    }
    if b in Live(bs) {
      var k := IndexOf(bs, b.Payload());
      LiveApart(bs, b, bs[k]);
      ReleaseCounts(bs, k, |bs|);
      assert Release(bs, k)[..|Release(bs, k)|] == Release(bs, k);
    }
  }

  // ---- every run ----

  datatype Op = Alloc(size: nat) | Dealloc(ptr: nat)

  ghost function Step(bs: seq<Block>, op: Op): seq<Block> {
    match op
    case Alloc(size) => Malloc(bs, size).0
    case Dealloc(ptr) => if IsLive(bs, ptr) then Free(bs, ptr) else bs
  }

  // kfree is given NULL or a live payload.
  ghost predicate Legal(bs: seq<Block>, ops: seq<Op>)
    decreases |ops|
  {
    |ops| > 0 ==>
      && (ops[0].Dealloc? && ops[0].ptr != 0 ==> IsLive(bs, ops[0].ptr))
      && Legal(Step(bs, ops[0]), ops[1..])
  }

  ghost function Run(bs: seq<Block>, ops: seq<Op>): seq<Block>
    decreases |ops|
  {
    if |ops| == 0 then bs else Run(Step(bs, ops[0]), ops[1..])
  }

  // The calls of a run are kmalloc, and kfree of a live payload; kfree(NULL) does nothing.
  lemma StepIs(bs: seq<Block>, op: Op)
    requires Tiles(bs)
    ensures match op
      case Alloc(size) => Step(bs, op) == Malloc(bs, size).0
      case Dealloc(ptr) => if IsLive(bs, ptr) then Step(bs, op) == Free(bs, ptr) else Step(bs, op) == bs
    ensures Step(bs, Dealloc(0)) == bs
  {
    forall b | b in bs ensures b.Payload() != 0 { LiveApart(bs, b, b); }
  }

  // The payloads some op of the run releases.
  ghost predicate Releases(ops: seq<Op>, ptr: nat) {
    exists k :: 0 <= k < |ops| && ops[k] == Dealloc(ptr)
  }

  /** Over every legal run the blocks tile the heap, and a block that is live and is not freed
      stays where it is, at the size it has. */
  lemma {:induction false} RunKeepsTiling(bs: seq<Block>, ops: seq<Op>)
    requires Tiles(bs) && Legal(bs, ops)
    ensures Tiles(Run(bs, ops))
    ensures forall b | b in Live(bs) && !Releases(ops, b.Payload()) :: b in Live(Run(bs, ops))
    decreases |ops|
  {
    if |ops| > 0 {
      var (op, rest) := (ops[0], ops[1..]);
      match op {
        case Alloc(size) => MallocStep(bs, size);
        case Dealloc(ptr) =>
          if b :| b in bs && b.used && b.Payload() == ptr { FreeStep(bs, b); }
      }
      RunKeepsTiling(Step(bs, op), rest);
      forall b | b in Live(bs) && !Releases(ops, b.Payload())
        ensures b in Live(Run(bs, ops))
      {
        assert op != Dealloc(b.Payload());
        assert forall k | 0 <= k < |rest| :: rest[k] == ops[k + 1];
        assert !Releases(rest, b.Payload());
        assert b in Live(Step(bs, op));
      }
    }
  }

  // ---- freeing what was just allocated ----

  /** From any heap, freeing a fresh allocation gives the heap back exactly when the block was
      cut from a larger one or has no free block behind it; otherwise the only change is that
      the two free blocks have become one. Either way the live blocks are the same, and so is what
      heap_used_bytes reports. */
  lemma MallocThenFree(bs: seq<Block>, size: nat)
    requires Tiles(bs) && Malloc(bs, size).1 != 0
    ensures var i := FirstFit(bs, size, 0);
      var (bs', ptr) := Malloc(bs, size);
      && i < |bs| && IsLive(bs', ptr)
      && Live(Free(bs', ptr)) == Live(bs) && UsedBytes(Free(bs', ptr)) == UsedBytes(bs)
      && (Free(bs', ptr) == bs <==> Splits(bs[i], size) || !MergesWithNext(bs, i))
      && (Free(bs', ptr) != bs ==> Free(bs', ptr) == Release(bs, i))
  {
    var i := FirstFit(bs, size, 0);
    FreshBlock(bs, i, size);
    FreeStep(Carve(bs, i, size), Carve(bs, i, size)[i]);
    CarveLive(bs, i, size);
    CarveThenRelease(bs, i, size);
    if MergesWithNext(bs, i) { MergeKeepsUsedBytes(bs, i); }
  }

  // The block handed out is the one kfree finds.
  lemma FreshBlock(bs: seq<Block>, i: nat, size: nat)
    requires Tiles(bs) && i < |bs| && Fits(bs[i], size)
    ensures var bs' := Carve(bs, i, size);
      && Tiles(bs') && i < |bs'| && bs'[i] in Live(bs') && bs'[i].Payload() == bs[i].Payload()
      && IsLive(bs', bs[i].Payload()) && Free(bs', bs[i].Payload()) == Release(bs', i)
  {
    var bs' := Carve(bs, i, size);
    CarveTiles(bs, i, size);
    assert bs'[i] in bs';
    IndexIs(bs', i);
  }

  lemma MergeKeepsUsedBytes(bs: seq<Block>, i: nat)
    requires i < |bs| && MergesWithNext(bs, i) && !bs[i].used
    ensures UsedBytes(Release(bs, i)) == UsedBytes(bs)
  {
    MergeKeepsUsed(bs, i, |bs|);
    assert bs[..|bs|] == bs && Release(bs, i)[..|Release(bs, i)|] == Release(bs, i);
  }

  // Merging two free blocks leaves the bytes in use.
  lemma {:induction false} MergeKeepsUsed(bs: seq<Block>, i: nat, n: nat)
    requires i + 1 < n <= |bs| && MergesWithNext(bs, i) && !bs[i].used
    ensures UsedBytes(Release(bs, i)[..n - 1]) == UsedBytes(bs[..n])
  {
    var r := Release(bs, i);
    assert bs[..n][..n - 1] == bs[..n - 1] && r[..n - 1][..n - 2] == r[..n - 2];
    if n == i + 2 {
      assert bs[..n - 1][..n - 2] == bs[..n - 2] && r[..n - 2] == bs[..n - 2];
    } else {
      MergeKeepsUsed(bs, i, n - 1);
    }
  }

  lemma CarveThenRelease(bs: seq<Block>, i: nat, size: nat)
    requires Tiles(bs) && i < |bs| && Fits(bs[i], size)
    ensures Release(Carve(bs, i, size), i)
      == if Splits(bs[i], size) || !MergesWithNext(bs, i) then bs else Release(bs, i)
    ensures MergesWithNext(bs, i) ==> |Release(bs, i)| == |bs| - 1
  {
    var mid := Carve(bs, i, size);
    var back := Release(mid, i);
    if Splits(bs[i], size) || !MergesWithNext(bs, i) {
      SameBlocks(back, bs);
    } else {
      SameBlocks(back, Release(bs, i));
    }
  }

  lemma SameBlocks(a: seq<Block>, b: seq<Block>)
    requires |a| == |b| && forall k | 0 <= k < |a| :: a[k] == b[k]
    ensures a == b
  {
  }

  // Only the last block may be free: what the heap looks like under stack discipline.
  ghost predicate StackShaped(bs: seq<Block>) {
    Tiles(bs) && forall i | 0 <= i < |bs| - 1 :: bs[i].used
  }

  lemma PushPop(bs: seq<Block>, size: nat)
    requires StackShaped(bs) && Malloc(bs, size).1 != 0
    ensures var (bs', ptr) := Malloc(bs, size);
      StackShaped(bs') && IsLive(bs', ptr) && Free(bs', ptr) == bs
  {
    MallocThenFree(bs, size);
    MallocStep(bs, size);
  }

  // Calls that allocate, run other such calls, and free what they allocated.
  datatype Nest = Done | Call(size: nat, inner: Nest, rest: Nest)

  ghost function RunNest(bs: seq<Block>, n: Nest): seq<Block>
    decreases n
  {
    match n
    case Done => bs
    case Call(size, inner, rest) =>
      var (b1, ptr) := Malloc(bs, size);
      var b2 := RunNest(b1, inner);
      RunNest(if IsLive(b2, ptr) then Free(b2, ptr) else b2, rest)
  }

  /** Under stack discipline, however the calls nest and whether or not their allocations
      succeed, each one gives the heap back exactly as it found it. */
  lemma {:induction false} NestRestores(bs: seq<Block>, n: Nest)
    requires StackShaped(bs)
    ensures RunNest(bs, n) == bs
    decreases n
  {
    match n
    case Done =>
    case Call(size, inner, rest) =>
      var (b1, ptr) := Malloc(bs, size);
      MallocStep(bs, size);
      if ptr != 0 { PushPop(bs, size); }
      NestRestores(b1, inner);
      if ptr == 0 { forall b | b in b1 ensures b.Payload() != ptr {} }
      NestRestores(bs, rest);
  }

  // ---- last in, first out ----

  // A block handed out: the pointer and the size asked for.
  datatype Taken = Taken(ptr: nat, size: nat)

  // The heap and what is live in it, the newest last.
  datatype Stacked = Stacked(heap: seq<Block>, live: seq<Taken>)

  datatype Turn = Push(size: nat) | Pop

  // Pop frees the newest live block; without one it is kfree of NULL.
  ghost function Take(t: Stacked, c: Turn): Stacked {
    match c
    case Push(size) =>
      var (heap, ptr) := Malloc(t.heap, size);
      if ptr == 0 then t else Stacked(heap, t.live + [Taken(ptr, size)])
    case Pop =>
      if |t.live| == 0 then t else
        var n := |t.live| - 1;
        Stacked(if IsLive(t.heap, t.live[n].ptr) then Free(t.heap, t.live[n].ptr) else t.heap, t.live[..n])
  }

  ghost function TakeAll(t: Stacked, cs: seq<Turn>): Stacked
    decreases |cs|
  {
    if |cs| == 0 then t else TakeAll(Take(t, cs[0]), cs[1..])
  }

  // The heap these allocations alone make.
  ghost function Replay(base: seq<Block>, live: seq<Taken>): seq<Block>
    decreases |live|
  {
    if |live| == 0 then base else
      var n := |live| - 1;
      Malloc(Replay(base, live[..n]), live[n].size).0
  }

  // And they all succeed, with these pointers.
  ghost predicate Replays(base: seq<Block>, live: seq<Taken>)
    decreases |live|
  {
    |live| > 0 ==>
      var n := |live| - 1;
      Replays(base, live[..n]) && live[n].ptr != 0 && Malloc(Replay(base, live[..n]), live[n].size).1 == live[n].ptr
  }

  lemma {:induction false} ReplayShaped(base: seq<Block>, live: seq<Taken>)
    requires StackShaped(base) && Replays(base, live)
    ensures StackShaped(Replay(base, live))
    decreases |live|
  {
    if |live| > 0 {
      var n := |live| - 1;
      ReplayShaped(base, live[..n]);
      PushPop(Replay(base, live[..n]), live[n].size);
    }
  }

  lemma TakeKeeps(base: seq<Block>, t: Stacked, c: Turn)
    requires StackShaped(base) && Replays(base, t.live) && t.heap == Replay(base, t.live)
    ensures Replays(base, Take(t, c).live) && Take(t, c).heap == Replay(base, Take(t, c).live)
  {
    match c
    case Push(size) =>
      var ptr := Malloc(t.heap, size).1;
      assert (t.live + [Taken(ptr, size)])[..|t.live|] == t.live;
    case Pop =>
      if |t.live| > 0 {
        var n := |t.live| - 1;
        ReplayShaped(base, t.live[..n]);
        PushPop(Replay(base, t.live[..n]), t.live[n].size);
      }
  }

  /** At every point of a last-in-first-out run, from a heap of used blocks before at most one free
      tail, the heap has that shape, and is exactly the heap that the allocations still live make by
      themselves, in their order: whatever came and went in between has left no trace. */
  lemma {:induction false} LifoLeavesNoTrace(base: seq<Block>, t: Stacked, cs: seq<Turn>)
    requires StackShaped(base) && Replays(base, t.live) && t.heap == Replay(base, t.live)
    ensures var t' := TakeAll(t, cs);
      StackShaped(t'.heap) && Replays(base, t'.live) && t'.heap == Replay(base, t'.live)
    decreases |cs|
  {
    ReplayShaped(base, t.live);
    if |cs| > 0 {
      TakeKeeps(base, t, cs[0]);
      LifoLeavesNoTrace(base, Take(t, cs[0]), cs[1..]);
    }
  }

  // ---- from heap_init ----

  lemma InitialShape()
    ensures StackShaped(INITIAL) && Live(INITIAL) == {}
  {
  }

  /** From heap_init, the blocks tile the 4 MB in every legal run. */
  lemma BootedTiles(ops: seq<Op>)
    requires Legal(INITIAL, ops)
    ensures Tiles(Run(INITIAL, ops))
  {
    InitialShape();
    RunKeepsTiling(INITIAL, ops);
  }

  /** And in every last-in-first-out run they are used blocks before at most one free tail; once
      everything is freed, the one block heap_init made. */
  lemma BootedLifo(cs: seq<Turn>)
    ensures var t := TakeAll(Stacked(INITIAL, []), cs);
      StackShaped(t.heap) && (t.live == [] ==> t.heap == INITIAL)
  {
    InitialShape();
    LifoLeavesNoTrace(INITIAL, Stacked(INITIAL, []), cs);
  }

  lemma BootedNest(n: Nest)
    ensures RunNest(INITIAL, n) == INITIAL
  {
    InitialShape();
    NestRestores(INITIAL, n);
  }
}
