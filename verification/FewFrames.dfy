// Two runs from boot in which exec has too few frames: with two left it starts a program without a
// stack page, with one left it fails and that frame is lost.

module FewFrames {
  import opened Bits
  import L = TetFsLayout
  import F = TetFsSpec
  import T = TetFsTheorems
  import W = TetFsWitnesses
  import opened TetFsDriver
  import H = HeapSpec
  import opened Heap
  import opened Frames
  import P = Paging
  import opened Spaces
  import opened Elf
  import opened Budget
  import S = SchedSpec
  import opened Scheduler
  import opened Exec

  // ---- the frames ----

  // Frames taken by others leave the address spaces as they are.
  lemma MoreInUse(s: P.State, used: set<nat>)
    requires P.Inv(s) && s.used <= used
    ensures P.Inv(s.(used := used))
  {
    var s' := s.(used := used);
    assert forall d: nat, i: nat, t: nat :: P.Reaches(s', d, i, t) <==> P.Reaches(s, d, i, t);
  }

  // The rest of the kernel takes frames until so many are left.
  method TakeFrames(vmm: Vmm, left: nat)
    requires vmm.Valid() && FreeCount(vmm.frames.InUse()) >= left
    modifies vmm.frames, vmm.frames.bitmap
    ensures vmm.Valid() && FreeCount(vmm.frames.InUse()) == left
  {
    var n := vmm.frames.FreeFrames();
    while n > left
      invariant vmm.Valid() && n == FreeCount(vmm.frames.InUse()) >= left
    {
      ghost var s := vmm.Now();
      ReservedCounts(vmm.frames);
      var frame := vmm.frames.Alloc();
      MoreInUse(s, vmm.frames.InUse());
      n := vmm.frames.FreeFrames();
    }
  }

  lemma ManyFrames(kernelEnd: nat)
    requires kernelEnd + BITMAP_BYTES <= RESERVED_END
    ensures FreeCount(Reserved(kernelEnd)) == TOTAL_FRAMES - RESERVED_END / FRAME_SIZE
  {
    var low := Below(RESERVED_END / FRAME_SIZE);
    assert Reserved(kernelEnd) == low;
    assert Below(TOTAL_FRAMES) == low + (Below(TOTAL_FRAMES) - low);
    BelowSize(TOTAL_FRAMES);
    BelowSize(RESERVED_END / FRAME_SIZE);
  }

  // pmm_init and vmm_init, and all but left frames taken.
  method BootMemory(kernelEnd: nat, left: nat) returns (vmm: Vmm)
    requires kernelEnd + BITMAP_BYTES <= RESERVED_END && left <= 2
    ensures vmm.Valid() && fresh(vmm) && fresh(vmm.frames) && fresh(vmm.frames.bitmap)
    ensures Spare(vmm.Now()) == left && P.Inv(vmm.Now()) && !P.Present(P.Word(vmm.mem, vmm.kernelDir, STACK_SLOT))
  {
    ManyFrames(kernelEnd);
    var frames := new FrameAllocator(kernelEnd);
    vmm := new Vmm(frames);
    var ok := vmm.Init();
    TakeFrames(vmm, left);
  }

  // ---- the file ----

  // A write renames nothing.
  lemma FoundAfterWrite(v: L.View, i: nat, buf: seq<byte>, name: seq<byte>)
    requires F.Inv(v) && |buf| < WORD32
    ensures F.Find(F.DoWrite(v, i, buf).0, name, L.ROOT_INODE, 1) == F.Find(v, name, L.ROOT_INODE, 1)
  {
    var v' := F.DoWrite(v, i, buf).0;
    assert forall j: nat :: F.Matches(v', j, name, L.ROOT_INODE) <==> F.Matches(v, j, name, L.ROOT_INODE);
  }

  lemma StoredFile(v: L.View, name: seq<byte>, file: seq<byte>)
    requires F.Formatted(v) && 0 !in name && 0 < |name| < L.NAME_SIZE && HEADER_SIZE <= |file| <= L.BLOCK_SIZE
    ensures var (v1, i) := F.DoCreate(v, name, L.ROOT_INODE, L.TYPE_FILE);
      && i >= 1
      && var (v2, r) := F.DoWrite(v1, i, file);
      && F.Inv(v2) && FindCode(v2, name) == i && IsProgram(v2, i)
      && FileOf(v2, i) == file && v2.inodes[i].size == |file|
  {
    W.FirstWrite(v, name, file);
    var (v1, i) := F.DoCreate(v, name, L.ROOT_INODE, L.TYPE_FILE);
    T.FormatEstablishes(v);
    T.FoundIffStored(v, name, L.ROOT_INODE, L.TYPE_FILE);
    W.FirstCreate(v, name);
    FoundAfterWrite(v1, i, file, name);
  }

  // The disk holds the file without program headers under this name.
  ghost predicate TinyOn(fs: TetFs, name: seq<byte>)
    reads fs
  {
    && fs.Valid()
    && var v := L.ViewOf(fs.disk);
    var i := FindCode(v, name);
    IsProgram(v, i) && FileOf(v, i) == HeaderOnly() && v.inodes[i].size == HEADER_SIZE
  }

  method BootDisk(fs: TetFs, name: seq<byte>)
    requires L.WfDisk(fs.disk) && 0 !in name && 0 < |name| < L.NAME_SIZE
    modifies fs
    ensures TinyOn(fs, name)
  {
    fs.Format();
    StoredFile(L.ViewOf(fs.disk), name, HeaderOnly());
    var idx := fs.Create(name, L.ROOT_INODE, L.TYPE_FILE);
    var r := fs.Write(idx, HeaderOnly());
  }

  // ---- the processes ----

  // After boot there is a slot and room for the file and a stack.
  lemma RoomAtBoot()
    ensures var t := WithBuffer(S.Booted(H.INITIAL), HEADER_SIZE);
      && H.Malloc(H.INITIAL, HEADER_SIZE).1 != 0 && S.DoCreate(t, true, S.Ready).1 != -1
  {
    var (heap, ptr) := H.Malloc(H.INITIAL, HEADER_SIZE);
    H.MallocStep(H.INITIAL, HEADER_SIZE);
    assert H.INITIAL[0] in H.INITIAL;
    H.MallocStep(heap, S.PROC_STACK);
    assert heap[1] in heap && H.Fits(heap[1], S.PROC_STACK);
    var ps := S.Booted(H.INITIAL).procs;
    assert !S.HasSlot(ps, 1);
    assert S.IsFreeSlot(ps, S.FreeSlot(ps));
  }

  // ---- the run ----

  // That file starts with two frames left.
  lemma StartsWithTwo(v: L.View, name: seq<byte>, s: P.State)
    requires F.Inv(v) && IsProgram(v, FindCode(v, name)) && FileOf(v, FindCode(v, name)) == HeaderOnly()
    requires v.inodes[FindCode(v, name)].size == HEADER_SIZE
    requires P.Inv(s) && Spare(s) == 2 && !P.Present(P.Word(s.mem, s.kernel, STACK_SLOT))
    ensures Sound(s, HeaderOnly()) && Result(v, name, s, S.Booted(H.INITIAL)) >= 0
  {
    HeaderOnlyLoads(s);
    RoomAtBoot();
    H.BootedTiles([]);
    S.BootedInv(H.INITIAL);
    StartsIff(v, name, s, S.Booted(H.INITIAL));
  }

  method BootKernel(fs: TetFs, kernelEnd: nat, left: nat) returns (k: Kernel)
    requires kernelEnd + BITMAP_BYTES <= RESERVED_END && left <= 2
    ensures fresh(k.vmm) && fresh(k.vmm.frames) && fresh(k.vmm.frames.bitmap)
    ensures fresh(k.procs) && fresh(k.procs.table) && fresh(k.procs.heap)
    ensures k.fs == fs && k.vmm.Valid() && k.procs.Valid() && k.procs.Now() == S.Booted(H.INITIAL)
    ensures Spare(k.vmm.Now()) == left && !P.Present(P.Word(k.vmm.mem, k.vmm.kernelDir, STACK_SLOT))
  {
    var vmm := BootMemory(kernelEnd, left);
    var heap := new KernelHeap();
    var procs := new Processes(heap, vmm.kernelDir);
    k := new Kernel(fs, vmm, procs);
  }

  /** From pmm_init, vmm_init, process_init and a formatted disk with a file of 52 bytes on it, once all
      but two frames are taken: exec returns a pid, and the page under the new process's stack
      pointer is not mapped in its space. */
  method StartsWithoutStack(fs: TetFs, name: seq<byte>, kernelEnd: nat) returns (k: Kernel, pid: int)
    requires L.WfDisk(fs.disk) && 0 !in name && 0 < |name| < L.NAME_SIZE && kernelEnd + BITMAP_BYTES <= RESERVED_END
    modifies fs
    ensures k.vmm.Valid() && k.procs.Valid() && pid >= 0 && |k.procs.procs| == 2
    ensures var p := k.procs.procs[1];
      p.pid == pid && p.status == S.Ready && P.Translate(k.vmm.mem, p.dir, STACK_PAGE) == P.None
  {
    BootDisk(fs, name);
    k := BootKernel(fs, kernelEnd, 2);
    pid := RunTiny(k, name);
  }

  // Running that file on the kernel just booted.
  method RunTiny(k: Kernel, name: seq<byte>) returns (pid: int)
    requires 0 !in name && TinyOn(k.fs, name)
    requires k.vmm.Valid() && k.procs.Valid() && k.procs.Now() == S.Booted(H.INITIAL)
    requires Spare(k.vmm.Now()) == 2 && !P.Present(P.Word(k.vmm.mem, k.vmm.kernelDir, STACK_SLOT))
    modifies k.vmm, k.vmm.frames, k.vmm.frames.bitmap, k.procs, k.procs.table, k.procs.heap
    ensures k.vmm.Valid() && k.procs.Valid() && pid >= 0 && |k.procs.procs| == 2
    ensures var p := k.procs.procs[1];
      p.pid == pid && p.status == S.Ready && P.Translate(k.vmm.mem, p.dir, STACK_PAGE) == P.None
  {
    StartsWithTwo(L.ViewOf(k.fs.disk), name, k.vmm.Now());
    HeaderOnlyLoads(k.vmm.Now());
    pid := k.ExecElfFromDisk(name);
  }

  // With one frame left it does not start.
  lemma FailsWithOne(v: L.View, name: seq<byte>, s: P.State)
    requires F.Inv(v) && IsProgram(v, FindCode(v, name)) && FileOf(v, FindCode(v, name)) == HeaderOnly()
    requires v.inodes[FindCode(v, name)].size == HEADER_SIZE
    requires P.Inv(s) && Spare(s) == 1 && !P.Present(P.Word(s.mem, s.kernel, STACK_SLOT))
    ensures Sound(s, HeaderOnly()) && Result(v, name, s, S.Booted(H.INITIAL)) == -12
    ensures LeavesOf(v, FindCode(v, name), s, -12) == 0
  {
    HeaderOnlyLoads(s);
    RoomAtBoot();
    SpaceFails(s);
  }

  lemma SpaceFails(s: P.State)
    requires P.Inv(s) && Spare(s) == 1 && !P.Present(P.Word(s.mem, s.kernel, STACK_SLOT))
    ensures TableInFile(HeaderOnly()) && SpaceCode(s, HeaderOnly()) == -12
  {
    HeaderOnlyLoads(s);
    NewSpaceCost(s, HeaderOnly());
  }

  /** The same with one frame left: exec fails with -12, the process table is as it was, and the frame
      that was free is not any more. */
  method LosesFrame(fs: TetFs, name: seq<byte>, kernelEnd: nat) returns (k: Kernel, r: int)
    requires L.WfDisk(fs.disk) && 0 !in name && 0 < |name| < L.NAME_SIZE && kernelEnd + BITMAP_BYTES <= RESERVED_END
    modifies fs
    ensures k.vmm.Valid() && k.procs.Valid() && r == -12 && k.procs.procs == S.Booted(H.INITIAL).procs
    ensures Spare(k.vmm.Now()) == 0
  {
    BootDisk(fs, name);
    k := BootKernel(fs, kernelEnd, 1);
    r := FailTiny(k, name);
  }

  method FailTiny(k: Kernel, name: seq<byte>) returns (r: int)
    requires 0 !in name && TinyOn(k.fs, name)
    requires k.vmm.Valid() && k.procs.Valid() && k.procs.Now() == S.Booted(H.INITIAL)
    requires Spare(k.vmm.Now()) == 1 && !P.Present(P.Word(k.vmm.mem, k.vmm.kernelDir, STACK_SLOT))
    modifies k.vmm, k.vmm.frames, k.vmm.frames.bitmap, k.procs, k.procs.table, k.procs.heap
    ensures k.vmm.Valid() && k.procs.Valid() && r == -12 && k.procs.procs == S.Booted(H.INITIAL).procs
    ensures Spare(k.vmm.Now()) == 0
  {
    FailsWithOne(L.ViewOf(k.fs.disk), name, k.vmm.Now());
    r := k.ExecElfFromDisk(name);
  }
}
