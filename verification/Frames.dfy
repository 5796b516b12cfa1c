// The physical frame allocator: a bitmap of 32768 frames in 32-bit words, and what every run of
// it keeps.

module Frames {
  import opened Bits

  const FRAME_SIZE := 4096
  const MEMORY_SIZE := 0x800_0000
  const TOTAL_FRAMES := 32768
  const RESERVED_END := 0xC0_0000
  const BITMAP_BYTES := 4096

  // ---- the bitmap as a set of frames ----

  ghost predicate WfBitmap(bm: seq<nat>) {
    |bm| == TOTAL_FRAMES / 32 && forall i | 0 <= i < |bm| :: bm[i] < WORD32
  }

  predicate FrameUsed(bm: seq<nat>, f: nat)
    requires |bm| == TOTAL_FRAMES / 32 && f < TOTAL_FRAMES
  {
    Bit(bm[f / 32], f % 32)
  }

  ghost function UsedSet(bm: seq<nat>): (s: set<nat>)
    requires |bm| == TOTAL_FRAMES / 32
    ensures forall f: nat :: f in s <==> f < TOTAL_FRAMES && FrameUsed(bm, f)
  {
    set f: nat | f < TOTAL_FRAMES && FrameUsed(bm, f)
  }

  ghost function Below(n: nat): (s: set<nat>)
    ensures forall f: nat :: f in s <==> f < n
  {
    set f: nat | f < n && LessThan(f, n)
  }

  predicate LessThan(f: nat, n: nat) { f < n }

  lemma {:induction false} BelowSize(n: nat)
    ensures |Below(n)| == n
  {
    if n > 0 {
      BelowSize(n - 1);
      assert Below(n) == Below(n - 1) + {n - 1};
    }
  }

  lemma BitmapUpdate(bm: seq<nat>, f: nat, val: bool)
    requires WfBitmap(bm) && f < TOTAL_FRAMES
    ensures var w := if val then SetBit(bm[f / 32], f % 32) else ClearBit(bm[f / 32], f % 32);
      && WfBitmap(bm[f / 32 := w])
      && UsedSet(bm[f / 32 := w]) == if val then UsedSet(bm) + {f} else UsedSet(bm) - {f}
  {
    var word := bm[f / 32];
    Widths();
    BitOpsStayInWidth(word, f % 32, 32);
    var w := if val then SetBit(word, f % 32) else ClearBit(word, f % 32);
    var bm' := bm[f / 32 := w];
    forall g: nat | g < TOTAL_FRAMES
      ensures FrameUsed(bm', g) == if g == f then val else FrameUsed(bm, g)
    {
      if g / 32 == f / 32 {
        SetBitBits(word, f % 32, g % 32);
        ClearBitBits(word, f % 32, g % 32);
        assert g == f <==> g % 32 == f % 32;
      }
    }
  }

  // ---- the allocator on sets ----

  ghost predicate IsLowestFree(used: set<nat>, f: nat) {
    && f <= TOTAL_FRAMES && (f < TOTAL_FRAMES ==> f !in used)
    && forall g: nat | g < f :: g in used
  }

  // The lowest free frame, or TOTAL_FRAMES.
  ghost function LowestFree(used: set<nat>): (f: nat)
    ensures IsLowestFree(used, f)
  {
    SomeLowest(used, TOTAL_FRAMES);
    var f: nat :| IsLowestFree(used, f);
    f
  }

  lemma {:induction false} SomeLowest(used: set<nat>, n: nat)
    requires n <= TOTAL_FRAMES
    ensures (exists f: nat :: IsLowestFree(used, f)) || forall g: nat | g < n :: g in used
    ensures n == TOTAL_FRAMES ==> exists f: nat :: IsLowestFree(used, f)
  {
    if n > 0 {
      SomeLowest(used, n - 1);
      if n - 1 !in used && forall g: nat | g < n - 1 :: g in used { assert IsLowestFree(used, n - 1); }
    }
    if forall g: nat | g < n :: g in used {
      if n == TOTAL_FRAMES { assert IsLowestFree(used, n); }
    }
  }

  // pmm_alloc_frame: the new set of used frames and the address returned.
  ghost function AllocStep(used: set<nat>): (set<nat>, nat) {
    var f := LowestFree(used);
    if f == TOTAL_FRAMES then (used, 0) else (used + {f}, f * FRAME_SIZE)
  }

  ghost function FreeStep(used: set<nat>, addr: nat): set<nat> {
    used - {addr / FRAME_SIZE}
  }

  function RoundUp(addr: nat): (r: nat)
    ensures addr <= r < addr + FRAME_SIZE && r % FRAME_SIZE == 0
  {
    addr + FRAME_SIZE - 1 - (addr + FRAME_SIZE - 1) % FRAME_SIZE
  }

  // The first address pmm_init gives out.
  function FreeStart(kernelEnd: nat): (r: nat)
    ensures r % FRAME_SIZE == 0 && r >= RESERVED_END && r >= kernelEnd + BITMAP_BYTES
  {
    var start := RoundUp(kernelEnd + BITMAP_BYTES);
    if start < RESERVED_END then RESERVED_END else start
  }

  // The frames that no legal run gives out.
  ghost function Reserved(kernelEnd: nat): (s: set<nat>)
    ensures forall f: nat :: f in s <==> f < TOTAL_FRAMES && f * FRAME_SIZE < FreeStart(kernelEnd)
  {
    set f: nat | f < TOTAL_FRAMES && f * FRAME_SIZE < FreeStart(kernelEnd)
  }

  /** Reserved are the 12 MB at the bottom and what lies below the end of the bitmap, which follows the
      kernel, to the last frame it begins in; and no other. */
  lemma ReservedIs(kernelEnd: nat, f: nat)
    ensures f in Reserved(kernelEnd) <==> f < 32768 && (f < 3072 || f * 4096 < kernelEnd + 4096)
  {
    var end := kernelEnd + 4096;
    assert RoundUp(end) % 4096 == 0;
    assert f * 4096 < RoundUp(end) <==> f * 4096 < end by {
      var q := RoundUp(end) / 4096;
      assert RoundUp(end) == 4096 * q;
    }
  }

  datatype Op = Alloc | Free(addr: nat)

  // A free is legal for an address handed out and not yet freed.
  ghost predicate Legal(used: set<nat>, reserved: set<nat>, op: Op) {
    op.Free? ==> op.addr / FRAME_SIZE in used - reserved && op.addr / FRAME_SIZE < TOTAL_FRAMES
  }

  ghost predicate LegalRun(used: set<nat>, reserved: set<nat>, ops: seq<Op>)
    decreases |ops|
  {
    |ops| > 0 ==> Legal(used, reserved, ops[0]) && LegalRun(Step(used, ops[0]), reserved, ops[1..])
  }

  ghost function Step(used: set<nat>, op: Op): set<nat> {
    match op
    case Alloc => AllocStep(used).0
    case Free(addr) => FreeStep(used, addr)
  }

  ghost function Run(used: set<nat>, ops: seq<Op>): set<nat>
    decreases |ops|
  {
    if |ops| == 0 then used else Run(Step(used, ops[0]), ops[1..])
  }

  /** An allocation returns 0 exactly when every frame is in use; otherwise the lowest frame not
      in use, page-aligned, inside memory, and outside everything that was reserved: the first
      12 MB (with the kernel heap) and the bitmap's own storage. */
  lemma AllocIsSafe(used: set<nat>, kernelEnd: nat)
    requires Reserved(kernelEnd) <= used
    ensures var (used', addr) := AllocStep(used);
      SafeAlloc(used, kernelEnd, addr) && used' == if addr == 0 then used else used + {addr / FRAME_SIZE}
  {
    var f := LowestFree(used);
    if f < TOTAL_FRAMES {
      assert f !in Reserved(kernelEnd);
      assert f * FRAME_SIZE / FRAME_SIZE == f;
      assert f in Below(TOTAL_FRAMES);
    }
  }

  /** A frame given back is the one an allocation takes next, if no lower one is free. */
  lemma FreedIsNext(used: set<nat>, f: nat)
    requires 0 < f < TOTAL_FRAMES && f in used && forall g: nat | g < f :: g in used
    ensures Step(used, Free(f * FRAME_SIZE)) == used - {f}
    ensures AllocStep(used - {f}) == (used, f * FRAME_SIZE) && Step(used - {f}, Alloc) == used
  {
    assert f * FRAME_SIZE / FRAME_SIZE == f;
    AllocIs(used - {f}, f);
    assert used - {f} + {f} == used;
  }

  // How many frames are free; pmm_free_frames reports it.
  ghost function FreeCount(used: set<nat>): nat { |Below(TOTAL_FRAMES) - used| }

  /** An allocation succeeds exactly while some frame is free, and leaves one less. */
  lemma AllocCounts(used: set<nat>)
    requires 0 in used
    ensures var (used', addr) := AllocStep(used);
      (addr == 0 <==> FreeCount(used) == 0) && FreeCount(used') == if addr == 0 then 0 else FreeCount(used) - 1
  {
    var f := LowestFree(used);
    var free := Below(TOTAL_FRAMES) - used;
    if f < TOTAL_FRAMES {
      assert f in free;
      assert Below(TOTAL_FRAMES) - (used + {f}) == free - {f};
    } else {
      assert free == {};
    }
  }

  ghost predicate AllBelowUsed(used: set<nat>, n: nat) {
    forall g: nat | g < n :: g in used
  }

  // The scan stops at the frame AllocStep takes.
  lemma AllocIs(used: set<nat>, f: nat)
    requires f <= TOTAL_FRAMES && AllBelowUsed(used, f) && (f < TOTAL_FRAMES ==> f !in used)
    ensures AllocStep(used) == if f == TOTAL_FRAMES then (used, 0) else (used + {f}, f * FRAME_SIZE)
  {
    assert IsLowestFree(used, f);
  }

  // One allocation as AllocIsSafe describes it.
  ghost predicate SafeAlloc(used: set<nat>, kernelEnd: nat, addr: nat) {
    && (addr == 0 <==> Below(TOTAL_FRAMES) <= used)
    && (addr != 0 ==>
          && addr % FRAME_SIZE == 0 && addr / FRAME_SIZE !in used
          && (forall f: nat | f < addr / FRAME_SIZE :: f in used)
          && RESERVED_END <= addr && addr + FRAME_SIZE <= MEMORY_SIZE && kernelEnd + BITMAP_BYTES <= addr)
  }

  // Every allocation of the run.
  ghost predicate AllocsSafe(used: set<nat>, kernelEnd: nat, ops: seq<Op>)
    decreases |ops|
  {
    |ops| > 0 ==>
      && (ops[0].Alloc? ==> SafeAlloc(used, kernelEnd, AllocStep(used).1))
      && AllocsSafe(Step(used, ops[0]), kernelEnd, ops[1..])
  }

  /** Over every legal run from pmm_init, what is reserved stays reserved, and every allocation is 0
      exactly when no frame is free and otherwise the lowest one that is, so that none is handed out
      twice without being freed in between nor lies in the reserved part. */
  lemma {:induction false} RunIsSafe(used: set<nat>, kernelEnd: nat, ops: seq<Op>)
    requires Reserved(kernelEnd) <= used <= Below(TOTAL_FRAMES) && LegalRun(used, Reserved(kernelEnd), ops)
    ensures Reserved(kernelEnd) <= Run(used, ops) <= Below(TOTAL_FRAMES)
    ensures AllocsSafe(used, kernelEnd, ops)
    decreases |ops|
  {
    if |ops| > 0 {
      AllocIsSafe(used, kernelEnd);
      RunIsSafe(Step(used, ops[0]), kernelEnd, ops[1..]);
    }
  }

  // ---- the allocator in memory ----

  class FrameAllocator {
    const bitmap: array<nat>
    const total: nat
    var used: nat
    const kernelEnd: nat

    ghost predicate Valid()
      reads this, bitmap
    {
      && total == TOTAL_FRAMES && WfBitmap(bitmap[..])
      && used == |UsedSet(bitmap[..])|
      && Reserved(kernelEnd) <= UsedSet(bitmap[..])
    }

    ghost function InUse(): (s: set<nat>)
      requires Valid()
      reads this, bitmap
    {
      UsedSet(bitmap[..])
    }

    predicate IsUsed(frame: nat)
      requires bitmap.Length == TOTAL_FRAMES / 32 && frame < TOTAL_FRAMES
      reads bitmap
    {
      Bit(bitmap[frame / 32], frame % 32)
    }

    method SetUsed(frame: nat)
      requires WfBitmap(bitmap[..]) && frame < TOTAL_FRAMES
      modifies bitmap
      ensures WfBitmap(bitmap[..]) && UsedSet(bitmap[..]) == UsedSet(old(bitmap[..])) + {frame}
    {
      BitmapUpdate(bitmap[..], frame, true);
      bitmap[frame / 32] := SetBit(bitmap[frame / 32], frame % 32);
      assert bitmap[..] == old(bitmap[..])[frame / 32 := bitmap[frame / 32]];
    }

    method SetFree(frame: nat)
      requires WfBitmap(bitmap[..]) && frame < TOTAL_FRAMES
      modifies bitmap
      ensures WfBitmap(bitmap[..]) && UsedSet(bitmap[..]) == UsedSet(old(bitmap[..])) - {frame}
    {
      BitmapUpdate(bitmap[..], frame, false);
      bitmap[frame / 32] := ClearBit(bitmap[frame / 32], frame % 32);
      assert bitmap[..] == old(bitmap[..])[frame / 32 := bitmap[frame / 32]];
    }

    /** pmm_init: exactly the reserved frames start out in use, and the counter says how many. */
    constructor (kernelEnd: nat)
      requires kernelEnd + BITMAP_BYTES + FRAME_SIZE <= WORD32
      ensures Valid() && this.kernelEnd == kernelEnd && fresh(bitmap)
      ensures InUse() == Reserved(kernelEnd)
    {
      this.kernelEnd := kernelEnd;
      bitmap := new nat[TOTAL_FRAMES / 32];
      total := TOTAL_FRAMES;
      used := TOTAL_FRAMES;
      new;
      MarkAll();
      var start := kernelEnd + BITMAP_BYTES + FRAME_SIZE - 1;
      start := start - start % FRAME_SIZE;
      if start < RESERVED_END { start := RESERVED_END; }
      ReleaseFrom(start);
      assert UsedSet(bitmap[..]) == Reserved(kernelEnd);
    }

    // The first loop of pmm_init.
    method MarkAll()
      requires bitmap.Length == TOTAL_FRAMES / 32 && total == TOTAL_FRAMES && used == TOTAL_FRAMES
      modifies bitmap
      ensures WfBitmap(bitmap[..]) && UsedSet(bitmap[..]) == Below(TOTAL_FRAMES) && used == |UsedSet(bitmap[..])|
    {
      Widths();
      for i := 0 to total / 32
        invariant forall j | 0 <= j < i :: bitmap[j] == Ones(32)
      {
        bitmap[i] := 0xFFFF_FFFF;
      }
      AllOnes(bitmap[..]);
      BelowSize(TOTAL_FRAMES);
    }

    // The second: every frame from start on is free.
    method ReleaseFrom(start: nat)
      requires start % FRAME_SIZE == 0 && WfBitmap(bitmap[..])
      requires UsedSet(bitmap[..]) == Below(TOTAL_FRAMES) && used == |UsedSet(bitmap[..])|
      modifies this`used, bitmap
      ensures WfBitmap(bitmap[..]) && used == |UsedSet(bitmap[..])|
      ensures forall f: nat :: f in UsedSet(bitmap[..]) <==> f < TOTAL_FRAMES && f * FRAME_SIZE < start
    {
      ghost var first := start / FRAME_SIZE;
      ghost var k := first;
      var addr := start;
      while addr < MEMORY_SIZE
        invariant addr == k * FRAME_SIZE && first <= k
        invariant WfBitmap(bitmap[..]) && used == |UsedSet(bitmap[..])|
        invariant forall f: nat :: f in UsedSet(bitmap[..]) <==> f < TOTAL_FRAMES && !(first <= f < k)
      {
        assert addr / FRAME_SIZE == k;
        assert k in UsedSet(bitmap[..]);
        SetFree(addr / FRAME_SIZE);
        used := used - 1;
        addr := addr + FRAME_SIZE;
        k := k + 1;
      }
    }

    method Alloc() returns (addr: nat)
      requires Valid()
      modifies this, bitmap
      ensures Valid() && (InUse(), addr) == AllocStep(old(InUse()))
    {
      ghost var inUse := UsedSet(bitmap[..]);
      for i := 0 to total
        invariant bitmap[..] == old(bitmap[..]) && used == old(used)
        invariant AllBelowUsed(inUse, i)
      {
        assert IsUsed(i) <==> i in inUse;
        if !IsUsed(i) {
          AllocIs(inUse, i);
          SetUsed(i);
          used := used + 1;
          return i * FRAME_SIZE;
        }
      }
      AllocIs(inUse, total);
      return 0;
    }

    /** pmm_free_frame takes any address. The counter and the reservation stay right exactly when
        the address is beyond memory or lies in a frame that was handed out and not freed. */
    method Free(addr: nat)
      requires Valid() && addr < WORD32
      modifies this, bitmap
      ensures WfBitmap(bitmap[..])
      ensures UsedSet(bitmap[..]) ==
        if addr / FRAME_SIZE < TOTAL_FRAMES then old(InUse()) - {addr / FRAME_SIZE} else old(InUse())
      ensures Valid() <==>
        addr / FRAME_SIZE >= TOTAL_FRAMES || addr / FRAME_SIZE in old(InUse()) - Reserved(kernelEnd)
    {
      var frame := addr / FRAME_SIZE;
      if frame >= total { return; }
      SetFree(frame);
      CardinalityBound(UsedSet(bitmap[..]));
      used := if used == 0 then WORD32 - 1 else used - 1;
    }

    method FreeFrames() returns (n: nat)
      requires Valid()
      ensures n == FreeCount(InUse())
    {
      BelowSize(TOTAL_FRAMES);
      CardinalityBound(InUse());
      assert InUse() + (Below(TOTAL_FRAMES) - InUse()) == Below(TOTAL_FRAMES);
      n := total - used;
    }
  }

  /** A frame handed out and then freed twice: the second time the counter leaves the bits behind. */
  method FreedTwice(frames: FrameAllocator) returns (frame: nat)
    requires frames.Valid() && FreeCount(frames.InUse()) > 0
    modifies frames, frames.bitmap
    ensures frame != 0 && !frames.Valid()
  {
    ghost var used := frames.InUse();
    AllocIsSafe(used, frames.kernelEnd);
    AllocCounts(used);
    frame := frames.Alloc();
    frames.Free(frame);
    frames.Free(frame);
  }

  lemma {:induction false} CardinalityBound(s: set<nat>)
    requires s <= Below(TOTAL_FRAMES)
    ensures |s| <= TOTAL_FRAMES
  {
    BelowSize(TOTAL_FRAMES);
    assert Below(TOTAL_FRAMES) == s + (Below(TOTAL_FRAMES) - s);
  }

  lemma AllOnes(bm: seq<nat>)
    requires |bm| == TOTAL_FRAMES / 32 && forall i | 0 <= i < |bm| :: bm[i] == Ones(32)
    ensures WfBitmap(bm) && UsedSet(bm) == Below(TOTAL_FRAMES)
  {
    Widths();
    forall f: nat | f < TOTAL_FRAMES ensures FrameUsed(bm, f) { OnesBits(32, f % 32); }
  }
}
