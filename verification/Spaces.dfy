// Address spaces over whole runs, and the page-table code of vmm.c itself.

module Spaces {
  import opened Bits
  import opened Frames
  import opened Paging

  // ---- every run ----

  datatype Op =
    | MapKernel(virt: nat, phys: nat, flags: nat)
    | UnmapKernel(virt: nat)
    | NewSpace
    | MapIn(dir: nat, virt: nat, phys: nat, flags: nat)

  ghost predicate Legal(s: State, op: Op) {
    match op
    case MapKernel(virt, _, _) => virt < WORD32
    case UnmapKernel(virt) => virt < WORD32
    case NewSpace => true
    case MapIn(dir, virt, _, _) => dir in s.dirs && virt < WORD32
  }

  ghost function Step(s: State, op: Op): State
    requires Inv(s) && Legal(s, op)
  {
    match op
    case MapKernel(virt, phys, flags) => MapPage(s, s.kernel, virt, phys, flags, false).0
    case UnmapKernel(virt) => Unmap(s, virt)
    case NewSpace => CreateSpace(s).0
    case MapIn(dir, virt, phys, flags) => MapPage(s, dir, virt, phys, flags, Bit(flags, PAGE_USER_BIT)).0
  }

  lemma StepKeeps(s: State, op: Op)
    requires Inv(s) && Legal(s, op)
    ensures Inv(Step(s, op)) && SlotsKept(s, Step(s, op))
  {
    match op
    case MapKernel(virt, phys, flags) => MapPageEffect(s, s.kernel, virt, phys, flags, false);
    case UnmapKernel(virt) => UnmapEffect(s, virt);
    case NewSpace => CreateSpaceEffect(s);
    case MapIn(dir, virt, phys, flags) => MapPageEffect(s, dir, virt, phys, flags, Bit(flags, PAGE_USER_BIT));
  }

  // The operations of a run are the four calls.
  lemma StepIs(s: State, op: Op)
    requires Inv(s) && Legal(s, op)
    ensures match op
      case MapKernel(virt, phys, flags) => Step(s, op) == MapPage(s, s.kernel, virt, phys, flags, false).0
      case UnmapKernel(virt) => Step(s, op) == Unmap(s, virt)
      case NewSpace => Step(s, op) == CreateSpace(s).0
      case MapIn(dir, virt, phys, flags) => Step(s, op) == MapPage(s, dir, virt, phys, flags, Bit(flags, 2)).0
  {
  }

  ghost predicate LegalRun(s: State, ops: seq<Op>)
    requires Inv(s)
    decreases |ops|
  {
    |ops| > 0 ==> Legal(s, ops[0]) && (StepKeeps(s, ops[0]); LegalRun(Step(s, ops[0]), ops[1..]))
  }

  ghost function Run(s: State, ops: seq<Op>): State
    requires Inv(s) && LegalRun(s, ops)
    decreases |ops|
  {
    if |ops| == 0 then s else StepKeeps(s, ops[0]); Run(Step(s, ops[0]), ops[1..])
  }

  /** Over every run, tables keep their owners and a present directory slot never changes. */
  lemma {:induction false} RunKeeps(s: State, ops: seq<Op>)
    requires Inv(s) && LegalRun(s, ops)
    ensures Inv(Run(s, ops)) && SlotsKept(s, Run(s, ops))
    decreases |ops|
  {
    if |ops| > 0 {
      StepKeeps(s, ops[0]);
      RunKeeps(Step(s, ops[0]), ops[1..]);
      SlotsKeptTransitive(s, Step(s, ops[0]), Run(s, ops));
    }
  }

  lemma SlotsKeptTransitive(a: State, b: State, c: State)
    requires SlotsKept(a, b) && SlotsKept(b, c)
    ensures SlotsKept(a, c)
  {
    forall d: nat, i: nat, t: nat | Reaches(a, d, i, t)
      ensures Word(c.mem, d, i) == Word(a.mem, d, i)
    {
      assert Reaches(b, d, i, t);
    }
  }

  /** A slot a space took over from the kernel translates as the kernel's does, forever. */
  lemma InheritedForever(s: State, ops: seq<Op>, d: nat, i: nat, t: nat, page: nat)
    requires Inv(s) && LegalRun(s, ops)
    requires Reaches(s, d, i, t) && Reaches(s, s.kernel, i, t) && page / ENTRIES == i
    ensures var s' := Run(s, ops);
      s'.kernel == s.kernel && Translate(s'.mem, d, page) == Translate(s'.mem, s.kernel, page)
  {
    RunKeeps(s, ops);
  }

  /** Mapping in a space where the kernel has no table touches that one page of that one space. */
  lemma PrivateMapping(s: State, d: nat, virt: nat, phys: nat, flags: nat, user: bool)
    requires Inv(s) && d in s.dirs && d != s.kernel && virt < WORD32
    requires !Present(Word(s.mem, s.kernel, DirIndex(virt)))
    ensures var (s', ok) := MapPage(s, d, virt, phys, flags, user);
      && (forall e: nat, p: nat | e in s.dirs && (e != d || p != virt / FRAME_SIZE) ::
            Translate(s'.mem, e, p) == Translate(s.mem, e, p))
      && (ok ==>
            && Translate(s'.mem, d, virt / FRAME_SIZE) == Some(PageEntry(phys, flags))
            && Grants(PageEntry(phys, flags), phys, flags))
  {
    MapPageEffect(s, d, virt, phys, flags, user);
    forall e: nat | e in s.dirs && e != d ensures !SharesSlot(s, d, e, DirIndex(virt)) {
      var t := Base(Word(s.mem, d, DirIndex(virt)));
      if Present(Word(s.mem, d, DirIndex(virt))) && Reaches(s, e, DirIndex(virt), t) {
        assert Reaches(s, d, DirIndex(virt), t);
        assert false;
      }
    }
  }

  // ---- the code ----

  // vmm.c. Physical memory is addressed directly; TLB maintenance has no effect here.
  class Vmm {
    const frames: FrameAllocator
    var mem: Memory
    var kernelDir: nat
    ghost var dirs: set<nat>

    ghost function Now(): State
      requires frames.Valid()
      reads this, frames, frames.bitmap
    {
      State(mem, kernelDir, dirs, frames.InUse())
    }

    ghost predicate Valid()
      reads this, frames, frames.bitmap
    {
      frames.Valid() && Inv(Now())
    }

    constructor (frames: FrameAllocator)
      requires frames.Valid()
      ensures this.frames == frames && mem == map[] && dirs == {}
    {
      this.frames := frames;
      mem := map[];
      kernelDir := 0;
      dirs := {};
    }

    method AllocTable() returns (frame: nat)
      requires frames.Valid()
      modifies frames, frames.bitmap, this`mem
      ensures frames.Valid() && (frames.InUse(), frame) == AllocStep(old(frames.InUse()))
      ensures mem == if frame == 0 then old(mem) else old(mem)[frame := Words(ZeroTable())]
    {
      frame := frames.Alloc();
      if frame != 0 { mem := mem[frame := Words(ZeroTable())]; }
    }

    // The processor finds the page at this address, with the access the flags ask for.
    ghost predicate Mapped(dir: nat, virt: nat, phys: nat, flags: nat)
      reads this`mem
    {
      var te := Translate(mem, dir, virt / 4096);
      te.Some? && Grants(te.value, phys, flags)
    }

    // Through a table that is writable, and open to user mode as said.
    ghost predicate TableFor(dir: nat, virt: nat, user: bool)
      reads this`mem
    {
      var de := Word(mem, dir, virt / 0x40_0000);
      Present(de) && Bit(de, 1) && (Bit(de, 2) <==> user)
    }

    /** vmm_map_page_in_dir; false where the source returns without having mapped. */
    method MapPageInDir(dir: nat, virt: nat, phys: nat, flags: nat) returns (ok: bool)
      requires Valid() && dir in dirs && virt < WORD32
      modifies frames, frames.bitmap, this`mem
      ensures Valid()
      ensures (Now(), ok) == Paging.MapPage(old(Now()), dir, virt, phys, flags, Bit(flags, PAGE_USER_BIT))
      ensures ok ==> Mapped(dir, virt, phys, flags)
      ensures ok && !Present(Word(old(mem), dir, virt / 0x40_0000)) ==> TableFor(dir, virt, Bit(flags, 2))
    {
      ok := MapIn(dir, virt, phys, flags, Bit(flags, PAGE_USER_BIT));
    }

    /** vmm_map_page, on the kernel's own directory. */
    method MapPage(virt: nat, phys: nat, flags: nat) returns (ok: bool)
      requires Valid() && virt < WORD32
      modifies frames, frames.bitmap, this`mem
      ensures Valid()
      ensures (Now(), ok) == Paging.MapPage(old(Now()), kernelDir, virt, phys, flags, false)
      ensures ok ==> Mapped(kernelDir, virt, phys, flags)
      ensures ok && !Present(Word(old(mem), kernelDir, virt / 0x40_0000)) ==> TableFor(kernelDir, virt, false)
    {
      ok := MapIn(kernelDir, virt, phys, flags, false);
    }

    method MapIn(dir: nat, virt: nat, phys: nat, flags: nat, user: bool) returns (ok: bool)
      requires Valid() && dir in dirs && virt < WORD32
      modifies frames, frames.bitmap, this`mem
      ensures Valid()
      ensures (Now(), ok) == Paging.MapPage(old(Now()), dir, virt, phys, flags, user)
      ensures ok ==> Mapped(dir, virt, phys, flags)
      ensures ok && !Present(Word(old(mem), dir, virt / 0x40_0000)) ==> TableFor(dir, virt, user)
    {
      ghost var s := Now();
      MapPageEffect(s, dir, virt, phys, flags, user);
      EnsureTableKeeps(s, dir, virt / 0x40_0000, user);
      NewFrame(s);
      var i, j := virt / 0x40_0000, virt / FRAME_SIZE % ENTRIES;
      if !Present(mem[dir].w[i]) {
        var frame := AllocTable();
        if frame == 0 { return false; }
        mem := SetWord(mem, dir, i, DirEntry(frame, user));
      }
      assert (Now(), true) == EnsureTable(s, dir, i, user);
      var t := Base(mem[dir].w[i]);
      assert Reaches(Now(), dir, i, t);
      mem := SetWord(mem, t, j, PageEntry(phys, flags));
      return true;
    }

    method UnmapPage(virt: nat)
      requires Valid() && virt < WORD32
      modifies this`mem
      ensures Valid() && Now() == Unmap(old(Now()), virt)
    {
      UnmapEffect(Now(), virt);
      var i := virt / 0x40_0000;
      if !Present(mem[kernelDir].w[i]) { return; }
      var t := Base(mem[kernelDir].w[i]);
      assert Reaches(Now(), kernelDir, i, t);
      mem := SetWord(mem, t, virt / FRAME_SIZE % ENTRIES, 0);
    }

    method CreateAddressSpace() returns (dir: nat)
      requires Valid()
      modifies frames, frames.bitmap, this`mem, this`dirs
      ensures Valid() && (Now(), dir) == CreateSpace(old(Now()))
    {
      ghost var s := Now();
      CreateSpaceEffect(s);
      NewFrame(s);
      assert IsTable(s.mem, kernelDir);
      dir := AllocTable();
      if dir != 0 {
        CopyKernelSpace(dir);
        dirs := dirs + {dir};
        assert mem == s.mem[dir := s.mem[s.kernel]];
      }
      assert (Now(), dir) == CreateSpace(s);
    }

    method CopyKernelSpace(dir: nat)
      requires IsTable(mem, dir) && IsTable(mem, kernelDir)
      modifies this`mem
      ensures mem == old(mem)[dir := old(mem)[kernelDir]]
    {
      var copy := mem[dir].w;
      for i := 0 to ENTRIES
        invariant |copy| == ENTRIES && forall k | 0 <= k < i :: copy[k] == mem[kernelDir].w[k]
      {
        copy := copy[i := mem[kernelDir].w[i]];
      }
      assert copy == mem[kernelDir].w;
      mem := mem[dir := Words(copy)];
    }

    // A table whose 1024 entries map 4 MB of memory to itself, present, writable, user.
    method IdentityTable(mb: nat) returns (w: seq<nat>)
      ensures |w| == ENTRIES
      ensures forall k | 0 <= k < ENTRIES :: w[k] == DirEntry((mb * ENTRIES + k) * FRAME_SIZE, true)
    {
      w := ZeroTable();
      for k := 0 to ENTRIES
        invariant |w| == ENTRIES
        invariant forall j | 0 <= j < k :: w[j] == DirEntry((mb * ENTRIES + j) * FRAME_SIZE, true)
      {
        w := w[k := DirEntry((mb * ENTRIES + k) * FRAME_SIZE, true)];
      }
    }

    /** vmm_init: with nine free frames, the identity on the first 32 MB and nothing above, at the
        cost of those nine; with fewer it fails and has taken them all. */
    method Init() returns (ok: bool)
      requires frames.Valid() && mem == map[] && dirs == {}
      modifies frames, frames.bitmap, this
      ensures frames.Valid()
      ensures ok <==> old(FreeCount(frames.InUse())) >= 9
      ensures FreeCount(frames.InUse()) == if ok then old(FreeCount(frames.InUse())) - 9 else 0
      ensures ok ==>
        && Valid() && dirs == {kernelDir}
        && IdentityOnly(mem, kernelDir) && TablesTo(mem, kernelDir, 8)
    {
      AllocIsSafe(frames.InUse(), frames.kernelEnd);
      ReservedCounts(frames);
      kernelDir := AllocTable();
      if kernelDir == 0 { return false; }
      dirs := {kernelDir};
      ok := FillKernelDirectory();
    }

    // The loops of vmm_init.
    method FillKernelDirectory() returns (ok: bool)
      requires frames.Valid() && kernelDir != 0 && dirs == {kernelDir} && mem == map[kernelDir := Words(ZeroTable())]
      requires kernelDir % FRAME_SIZE == 0 && RESERVED_END <= kernelDir && kernelDir / FRAME_SIZE in frames.InUse()
      modifies frames, frames.bitmap, this`mem
      ensures frames.Valid()
      ensures ok <==> old(FreeCount(frames.InUse())) >= 8
      ensures FreeCount(frames.InUse()) == if ok then old(FreeCount(frames.InUse())) - 8 else 0
      ensures ok ==> Valid()
      ensures ok ==> IdentityOnly(mem, kernelDir) && TablesTo(mem, kernelDir, 8)
    {
      ReservedLow(frames.kernelEnd);
      EmptyKernel(Now());
      for mb := 0 to 8
        invariant Valid() && FreeCount(frames.InUse()) == old(FreeCount(frames.InUse())) - mb
        invariant IdentityUpTo(Now(), mb)
      {
        ok := AddIdentityTable(mb);
        if !ok { return; }
      }
      MarkAbsent();
      return true;
    }

    // One turn of the first loop.
    method AddIdentityTable(mb: nat) returns (ok: bool)
      requires Valid() && mb < 8 && IdentityUpTo(Now(), mb)
      modifies frames, frames.bitmap, this`mem
      ensures frames.Valid() && (ok <==> old(FreeCount(frames.InUse())) > 0)
      ensures FreeCount(frames.InUse()) == if ok then old(FreeCount(frames.InUse())) - 1 else 0
      ensures ok ==> Valid() && IdentityUpTo(Now(), mb + 1)
    {
      ghost var s := Now();
      NewFrame(s);
      ReservedCounts(frames);
      AllocIsSafe(frames.InUse(), frames.kernelEnd);
      var pt := frames.Alloc();
      if pt == 0 { return false; }
      var w := IdentityTable(mb);
      mem := mem[pt := Words(w)];
      mem := SetWord(mem, kernelDir, mb, DirEntry(pt, true));
      NextIdentityTable(s, Now(), mb, pt, w);
      return true;
    }

    // The last loop of vmm_init.
    method MarkAbsent()
      requires Valid() && IdentityUpTo(Now(), 8)
      modifies this`mem
      ensures Valid() && IdentityOnly(mem, kernelDir) && TablesTo(mem, kernelDir, 8)
    {
      ghost var s := Now();
      for i := 8 to ENTRIES
        invariant Now() == s.(mem := mem) && mem.Keys == s.mem.Keys && IsTable(mem, kernelDir)
        invariant forall f | f in s.mem && f != kernelDir :: mem[f] == s.mem[f]
        invariant forall k | 0 <= k < ENTRIES ::
          mem[kernelDir].w[k] == if 8 <= k < i then 2 else s.mem[kernelDir].w[k]
      {
        mem := SetWord(mem, kernelDir, i, 2);
      }
      IdentityDone(s, Now());
    }
  }

  // Pages of the first 32 MB translate to themselves, present, writable and user; no other does.
  ghost predicate IdentityOnly(mem: Memory, dir: nat) {
    forall page: nat :: Translate(mem, dir, page) == IdentityAt(page)
  }

  function IdentityAt(page: nat): Option<nat> {
    if page < 8 * ENTRIES then Some(DirEntry(page * FRAME_SIZE, true)) else None
  }

  lemma ReservedLow(kernelEnd: nat)
    ensures Below(RESERVED_END / FRAME_SIZE) <= Reserved(kernelEnd)
  {
  }

  // Frame 0 is never free, so that allocations count.
  lemma ReservedCounts(frames: FrameAllocator)
    requires frames.Valid()
    ensures var (used', addr) := AllocStep(frames.InUse());
      && (addr == 0 <==> FreeCount(frames.InUse()) == 0)
      && FreeCount(used') == if addr == 0 then 0 else FreeCount(frames.InUse()) - 1
  {
    ReservedLow(frames.kernelEnd);
    assert 0 in Below(RESERVED_END / FRAME_SIZE);
    AllocCounts(frames.InUse());
  }

  /** So the first 32 MB are mapped to themselves, for everyone to write. */
  lemma IdentityGrants(mem: Memory, dir: nat, page: nat)
    requires IdentityOnly(mem, dir) && page < 8 * ENTRIES
    ensures var te := Translate(mem, dir, page);
      te.Some? && te.value % 2 == 1 && te.value / 4096 == page && Bit(te.value, 1) && Bit(te.value, 2)
  {
    assert page * FRAME_SIZE % FRAME_SIZE == 0 && page * FRAME_SIZE / 4096 == page;
    DirEntryGrants(page * FRAME_SIZE, true);
  }

  // The directory has tables for its first n slots, open to user mode, and for no other.
  ghost predicate TablesTo(mem: Memory, dir: nat, n: nat) {
    forall i: nat ::
      (Present(Word(mem, dir, i)) <==> i < n) && (i < n ==> Bit(Word(mem, dir, i), 1) && Bit(Word(mem, dir, i), 2))
  }

  // The kernel's directory after mb turns of the first loop of vmm_init.
  ghost predicate IdentityUpTo(s: State, mb: nat) {
    && s.dirs == {s.kernel} && IsTable(s.mem, s.kernel)
    && TablesTo(s.mem, s.kernel, mb)
    && (forall page: nat | page < mb * ENTRIES ::
          Translate(s.mem, s.kernel, page) == Some(DirEntry(page * FRAME_SIZE, true)))
  }

  lemma EmptyKernel(s: State)
    requires s.kernel != 0 && s.dirs == {s.kernel} && s.mem == map[s.kernel := Words(ZeroTable())]
    requires s.kernel % FRAME_SIZE == 0 && RESERVED_END <= s.kernel && s.kernel / FRAME_SIZE in s.used
    requires Below(RESERVED_END / FRAME_SIZE) <= s.used
    ensures Inv(s) && IdentityUpTo(s, 0)
  {
    ZeroBits(0);
    assert forall d: nat, i: nat, t: nat :: !Reaches(s, d, i, t);
  }

  lemma NextIdentityTable(s: State, s': State, mb: nat, pt: nat, w: seq<nat>)
    requires Inv(s) && IdentityUpTo(s, mb) && mb < 8
    requires pt != 0 && (s'.used, pt) == AllocStep(s.used)
    requires |w| == ENTRIES && forall k | 0 <= k < ENTRIES :: w[k] == DirEntry((mb * ENTRIES + k) * FRAME_SIZE, true)
    requires s' == State(SetWord(s.mem[pt := Words(w)], s.kernel, mb, DirEntry(pt, true)), s.kernel, s.dirs, s'.used)
    ensures Inv(s') && IdentityUpTo(s', mb + 1)
  {
    NewFrame(s);
    EntryParts(pt, 0, true);
    DirEntryGrants(pt, true);
    assert forall i: nat ::
      Word(s'.mem, s.kernel, i) == if i == mb then DirEntry(pt, true) else Word(s.mem, s.kernel, i);
    assert forall d: nat, i: nat, t: nat ::
      Reaches(s', d, i, t) <==> Reaches(s, d, i, t) || (d == s.kernel && i == mb && t == pt);
    assert forall d: nat, i: nat, t: nat :: Reaches(s, d, i, t) ==> t != pt;
    forall page: nat | page < (mb + 1) * ENTRIES
      ensures Translate(s'.mem, s.kernel, page) == Some(DirEntry(page * FRAME_SIZE, true))
    {
      if page < mb * ENTRIES {
        assert Reaches(s, s.kernel, page / ENTRIES, Base(Word(s.mem, s.kernel, page / ENTRIES)));
      } else {
        FreshIdentityPage(s'.mem, s.kernel, mb, pt, w, page);
      }
    }
  }

  lemma FreshIdentityPage(mem: Memory, dir: nat, mb: nat, pt: nat, w: seq<nat>, page: nat)
    requires mb * ENTRIES <= page < (mb + 1) * ENTRIES && mb < 8
    requires Word(mem, dir, mb) == DirEntry(pt, true) && pt % FRAME_SIZE == 0
    requires |w| == ENTRIES && forall k | 0 <= k < ENTRIES :: w[k] == DirEntry((mb * ENTRIES + k) * FRAME_SIZE, true)
    requires pt in mem && mem[pt] == Words(w)
    ensures Translate(mem, dir, page) == Some(DirEntry(page * FRAME_SIZE, true))
  {
    EntryParts(pt, 0, true);
    PageInTable(page, mb);
    assert Word(mem, pt, page % ENTRIES) == w[page % ENTRIES];
    EntryParts(page * FRAME_SIZE, 0, true);
  }

  lemma PageInTable(page: nat, mb: nat)
    requires mb * ENTRIES <= page < (mb + 1) * ENTRIES
    ensures page / ENTRIES == mb && page == mb * ENTRIES + page % ENTRIES && page * FRAME_SIZE % FRAME_SIZE == 0
  {
  }

  lemma IdentityDone(s: State, s': State)
    requires Inv(s) && IdentityUpTo(s, 8)
    requires s' == s.(mem := s'.mem) && s'.mem.Keys == s.mem.Keys
    requires IsTable(s'.mem, s.kernel) && forall f | f in s.mem && f != s.kernel :: s'.mem[f] == s.mem[f]
    requires forall k | 0 <= k < ENTRIES :: s'.mem[s.kernel].w[k] == if 8 <= k then 2 else s.mem[s.kernel].w[k]
    ensures Inv(s') && IdentityOnly(s'.mem, s.kernel) && TablesTo(s'.mem, s.kernel, 8)
  {
    assert forall i: nat :: Word(s'.mem, s.kernel, i) == if 8 <= i < ENTRIES then 2 else Word(s.mem, s.kernel, i);
    assert !Present(2);
    assert forall d: nat, i: nat, t: nat :: Reaches(s', d, i, t) <==> Reaches(s, d, i, t);
    forall page: nat
      ensures Translate(s'.mem, s.kernel, page) == IdentityAt(page)
    {
      var i := page / ENTRIES;
      assert i < 8 <==> page < 8 * ENTRIES;
      if i < 8 { assert Reaches(s, s.kernel, i, Base(Word(s.mem, s.kernel, i))); }
    }
  }
}
