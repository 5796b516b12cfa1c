// exec_elf_from_disk: the file system, the heap, the paging code and the process table together.

module Exec {
  import opened Bits
  import L = TetFsLayout
  import F = TetFsSpec
  import T = TetFsTheorems
  import opened TetFsDriver
  import H = HeapSpec
  import opened Heap
  import opened Frames
  import P = Paging
  import opened Spaces
  import opened Elf
  import opened Budget
  import opened Loader
  import S = SchedSpec
  import SchedTable
  import opened Scheduler
  import opened Context

  // ---- the heap under the process table ----

  // A buffer allocated beside the stacks.
  lemma BufferTaken(s: S.Sched, size: nat) returns (b: H.Block)
    requires S.Inv(s) && H.Malloc(s.heap, size).1 != 0
    ensures var (heap', ptr) := H.Malloc(s.heap, size);
      && S.Inv(s.(heap := heap')) && b.Payload() == ptr && b !in H.Live(s.heap)
      && H.Live(heap') == H.Live(s.heap) + {b} && NoStack(s.procs, b)
  {
    var (heap', ptr) := H.Malloc(s.heap, size);
    H.MallocStep(s.heap, size);
    b :| b in H.Live(heap') && b.Payload() == ptr && b !in H.Live(s.heap) && H.Live(heap') == H.Live(s.heap) + {b};
    H.LiveApart(heap', b, b);
    S.AllocateKeeps(s, size);
    forall k | 0 <= k < |s.procs| ensures s.procs[k].stack != ptr {
      assert S.ProcOk(s.procs, k, s.nextPid, s.heap);
      S.StackSurvives(s.heap, heap', s.procs[k].stack, b);
    }
  }

  predicate NoStack(ps: seq<S.Proc>, b: H.Block) {
    forall k :: 0 <= k < |ps| ==> ps[k].stack != b.Payload()
  }

  // And released again.
  lemma BufferGiven(s: S.Sched, b: H.Block)
    requires S.Inv(s) && b in H.Live(s.heap) && NoStack(s.procs, b)
    ensures H.IsLive(s.heap, b.Payload())
    ensures var heap' := H.Free(s.heap, b.Payload());
      S.Inv(s.(heap := heap')) && H.Live(heap') == H.Live(s.heap) - {b}
  {
    assert b in s.heap && b.used;
    H.FreeStep(s.heap, b);
    S.ReleaseKeeps(s, b.Payload());
  }

  lemma GivenBack(before: set<H.Block>, b: H.Block, st: H.Block)
    requires b !in before
    ensures before + {b} - {b} == before
    ensures st !in before + {b} ==> before + {b} + {st} - {b} == before + {st} && st !in before
  {
  }

  // A process created while the buffer is live does not get it for a stack.
  lemma CreatedBeside(s: S.Sched, b: H.Block) returns (st: H.Block)
    requires S.Inv(s) && b in H.Live(s.heap) && NoStack(s.procs, b) && S.DoCreate(s, true, S.Ready).1 != -1
    ensures var s' := S.DoCreate(s, true, S.Ready).0;
      && NoStack(s'.procs, b) && b in H.Live(s'.heap) && H.Live(s'.heap) == H.Live(s.heap) + {st}
      && st !in H.Live(s.heap) && st.Payload() == s'.procs[1].stack
  {
    st := S.NewStack(s.heap);
    var s' := S.DoCreate(s, true, S.Ready).0;
    H.LiveApart(s'.heap, b, st);
    forall k | 0 <= k < |s'.procs| ensures s'.procs[k].stack != b.Payload() {}
  }

  lemma DirKeeps(s: S.Sched, k: nat, dir: nat)
    requires S.Inv(s) && k < |s.procs|
    ensures S.Inv(s.(procs := s.procs[k := s.procs[k].(dir := dir)]))
  {
    var s' := s.(procs := s.procs[k := s.procs[k].(dir := dir)]);
    forall j | 1 <= j < |s'.procs| ensures S.Waiting(s'.procs, j) { assert S.Waiting(s.procs, j); }
    S.SameMembers(s, s', 0);
  }

  /** No frame the loader fills overlaps a heap block: the buffer the file is in stays as read. */
  lemma BufferApartFromFrames(s: P.State, heap: seq<H.Block>, b: H.Block)
    requires P.Inv(s) && H.Tiles(heap) && b in heap
    ensures var frame := AllocStep(s.used).1; frame != 0 ==> b.End() <= frame
  {
    P.NewFrame(s);
    H.LiveApart(heap, b, b);
  }

  // ---- what is run ----

  // The content of inode i in the table of files.
  ghost function FileOf(v: L.View, i: nat): seq<byte>
    requires F.Inv(v) && F.Live(v, i)
  {
    F.EntryOf(v, i).content
  }

  predicate HasMagic(file: seq<byte>) { |file| >= HEADER_SIZE && Read32(file, 0) == ELF_MAGIC }

  // The headers the loader is made for.
  ghost predicate Sound(s: P.State, file: seq<byte>) {
    HasMagic(file) ==>
      && |file| < WORD32
      && HeaderOf(file).phoff + HeaderOf(file).phnum * HeaderOf(file).phentsize < WORD32
      && (HeaderOf(file).phnum == 0 || HeaderOf(file).phentsize >= PHDR_SIZE)
      && (TableInFile(file) ==> WfElf(s, file))
  }

  lemma SoundInNewSpace(s: P.State, file: seq<byte>)
    requires P.Inv(s) && HasMagic(file) && Sound(s, file) && TableInFile(file)
    ensures WfElf(P.CreateSpace(s).0, file)
  {
    P.NewFrame(s);
    var s' := P.CreateSpace(s).0;
    assert forall k: nat :: P.Word(s'.mem, s'.kernel, k) == P.Word(s.mem, s.kernel, k);
  }

  // Every address space there was translates as before, to pages that hold what they held.
  ghost predicate Kept(s0: P.State, s: P.State) {
    && s.kernel == s0.kernel && s0.dirs <= s.dirs && P.PagesKept(s0, s)
    && forall e: nat, p: nat | e in s0.dirs :: P.Translate(s.mem, e, p) == P.Translate(s0.mem, e, p)
  }

  lemma KeptSelf(s: P.State)
    ensures Kept(s, s)
  {
  }

  lemma KeptByNewSpace(s0: P.State, s: P.State)
    requires P.Inv(s0)
    ensures var (s1, dir) := P.CreateSpace(s0);
      && Kept(s0, s1) && (dir == 0 ==> OutOfFrames(s1))
      && (dir != 0 ==> dir !in s0.dirs && dir in s1.dirs && dir != s1.kernel && UserTables(s1, dir))
      && (dir != 0 && Undisturbed(s1, s, dir) ==> Kept(s0, s))
  {
    P.CreateSpaceEffect(s0);
    P.NewFrame(s0);
    var (s1, dir) := P.CreateSpace(s0);
    assert dir != 0 ==> forall k: nat :: P.Word(s1.mem, dir, k) == P.Word(s1.mem, s1.kernel, k);
  }

  lemma ProductIsWord(a: nat, b: nat)
    requires a < 0x1_0000 && b < 0x1_0000
    ensures 0 <= a * b < WORD32
  {
    ProductIsNat(a, b);
    ProductIsNat(0xFFFF - a, b);
    assert 0xFFFF * b == a * b + (0xFFFF - a) * b;
  }

  lemma ProductIsNat(a: nat, b: nat)
    ensures 0 <= a * b
  {
  }

  // Where the header says that the program header table ends, in 32 bits.
  function TableEnd(file: seq<byte>): nat
    requires |file| >= HEADER_SIZE
  {
    var h := HeaderOf(file);
    ProductIsWord(h.phnum, h.phentsize);
    Add32(h.phoff, h.phnum * h.phentsize)
  }

  lemma TableEndMeans(s: P.State, file: seq<byte>)
    requires HasMagic(file) && Sound(s, file)
    ensures TableEnd(file) <= |file| <==> TableInFile(file)
  {
    ProductIsWord(HeaderOf(file).phnum, HeaderOf(file).phentsize);
  }

  // The result of building a space for the file.
  ghost function SpaceCode(s: P.State, file: seq<byte>): (r: int)
    requires P.Inv(s) && TableInFile(file)
    ensures r == 0 || r == -8 || r == -9 || r == -11 || r == -12
  {
    var (s1, dir) := P.CreateSpace(s);
    if dir == 0 then -8 else LoadCode(s1, dir, file)
  }

  /** A space is built just when the segments lie in the file and the free frames reach its budget. */
  lemma SpaceIff(s: P.State, file: seq<byte>)
    requires P.Inv(s) && WfElf(s, file)
    ensures SpaceCode(s, file) == 0 <==> SegmentsInFile(file, HeaderOf(file).phnum) && Spare(s) >= StartBudget(file)
  {
    var (s1, dir) := P.CreateSpace(s);
    NewSpaceCost(s, file);
    if dir != 0 { LoadsIff(s1, dir, file); }
  }

  // The result from the magic number on, t being the process table and heap then.
  ghost function ExecCode(file: seq<byte>, s: P.State, t: S.Sched): (r: int)
    requires P.Inv(s) && |t.procs| > 0
    ensures r >= 0 || -12 <= r <= -6
  {
    if !HasMagic(file) then -6
    else if !TableInFile(file) then -7
    else if SpaceCode(s, file) != 0 then SpaceCode(s, file)
    else PidCode(t)
  }

  // The result of creating the process.
  ghost function PidCode(t: S.Sched): (r: int)
    requires |t.procs| > 0
    ensures r >= 0 || r == -10
  {
    var pid := S.DoCreate(t, true, S.Ready).1;
    if pid == -1 then -10 else pid
  }

  // And the frames left free.
  ghost function Leaves(file: seq<byte>, s: P.State, r: int): nat {
    if HasMagic(file) && TableInFile(file) then ExecLeaves(file, Spare(s), r) else Spare(s)
  }

  // The process table with the file's buffer allocated.
  ghost function WithBuffer(s: S.Sched, size: nat): S.Sched { s.(heap := H.Malloc(s.heap, size).0) }

  // The result with the buffer in hand: -5 if the inode is not a file.
  ghost function ReadCode(v: L.View, i: nat, s: P.State, t: S.Sched): int
    requires F.Inv(v) && F.Live(v, i) && P.Inv(s) && |t.procs| > 0
  {
    if v.inodes[i].kind != L.TYPE_FILE then -5 else ExecCode(FileOf(v, i), s, t)
  }

  // What tetfs_read gives of inode i: all its bytes if it is a file.
  ghost predicate WasRead(n: int, size: nat, file: seq<byte>, v: L.View, i: nat)
    requires F.Inv(v) && F.Live(v, i)
  {
    if v.inodes[i].kind == L.TYPE_FILE then n == size && file == FileOf(v, i) else n == -1
  }

  // The result once the inode is found and its size enough.
  ghost function FileCode(v: L.View, i: nat, s: P.State, t: S.Sched): int
    requires F.Inv(v) && F.Live(v, i) && P.Inv(s) && |t.procs| > 0
  {
    var size := v.inodes[i].size;
    if H.Malloc(t.heap, size).1 == 0 then -4 else ReadCode(v, i, s, WithBuffer(t, size))
  }

  // The inode the program is in, or why there is none: -2 if no file has that name, -3 if it is too
  // short.
  ghost function FindCode(v: L.View, name: seq<byte>): (r: int)
    requires F.Inv(v)
    ensures r >= 0 ==> F.Live(v, r) && v.inodes[r].size >= HEADER_SIZE
    ensures r >= 0 || r == -2 || r == -3
  {
    var i := F.Find(v, name, L.ROOT_INODE, 1);
    if i == -1 then -2 else if v.inodes[i].size < HEADER_SIZE then -3 else i
  }

  // The result of exec: from the disk, the name, the frames and directories, and the process table.
  ghost function Result(v: L.View, name: seq<byte>, s: P.State, t: S.Sched): int
    requires F.Inv(v) && P.Inv(s) && |t.procs| > 0
  {
    var i := FindCode(v, name);
    if i < 0 then i else FileCode(v, i, s, t)
  }

  // The frames left free, by the result: before a space is begun none have been taken.
  ghost function LeavesOf(v: L.View, i: int, s: P.State, r: int): nat
    requires F.Inv(v)
  {
    if -5 <= r < 0 || i < 0 || !F.Live(v, i) then Spare(s) else Leaves(FileOf(v, i), s, r)
  }

  ghost predicate IsProgram(v: L.View, i: int)
    requires F.Inv(v)
  {
    0 <= i && F.Live(v, i) && v.inodes[i].kind == L.TYPE_FILE
  }

  /** When a program starts: a file of that name, big enough, a buffer for it, the magic number, the
      header table and all segments in it, frames for its budget, and a slot and a stack. */
  lemma StartsIff(v: L.View, name: seq<byte>, s: P.State, t: S.Sched)
    requires F.Inv(v) && P.Inv(s) && S.Inv(t)
    requires IsProgram(v, FindCode(v, name)) ==> Sound(s, FileOf(v, FindCode(v, name)))
    ensures var i := FindCode(v, name);
      Result(v, name, s, t) >= 0 <==>
      && IsProgram(v, i) && H.Malloc(t.heap, v.inodes[i].size).1 != 0
      && HasMagic(FileOf(v, i)) && TableInFile(FileOf(v, i))
      && SegmentsInFile(FileOf(v, i), HeaderOf(FileOf(v, i)).phnum) && Spare(s) >= StartBudget(FileOf(v, i))
      && S.DoCreate(WithBuffer(t, v.inodes[i].size), true, S.Ready).1 != -1
  {
    var i := FindCode(v, name);
    if IsProgram(v, i) && HasMagic(FileOf(v, i)) && TableInFile(FileOf(v, i)) {
      SpaceIff(s, FileOf(v, i));
    }
  }

  // Reading the size from offset 0 is reading the content.
  lemma ReadWhole(v: L.View, i: nat)
    requires F.Inv(v) && i < L.MAX_INODES && v.inodes[i].kind == L.TYPE_FILE
    ensures F.Live(v, i) && F.Readable(v, i) && v.inodes[i].size < WORD32
    ensures |FileOf(v, i)| == v.inodes[i].size
    ensures F.DoRead(v, i, 0, v.inodes[i].size) == F.Bytes(FileOf(v, i))
  {
    assert F.Live(v, i);
    T.ReadMeaning(v, i, 0, v.inodes[i].size);
    assert F.TableOf(v)[i] == F.EntryOf(v, i);
  }

  // The registers a program starts with.
  predicate Entering(c: Cpu, entry: nat) {
    StartsAt(c, true, entry, 0x800_0000) && c.esp == (STACK_PAGE + 1) * FRAME_SIZE
  }

  class Kernel {
    const fs: TetFs
    const vmm: Vmm
    const procs: Processes

    constructor (fs: TetFs, vmm: Vmm, procs: Processes)
      ensures this.fs == fs && this.vmm == vmm && this.procs == procs
    {
      this.fs, this.vmm, this.procs := fs, vmm, procs;
    }

    ghost predicate OthersKept(s0: P.State)
      requires vmm.frames.Valid()
      reads vmm, vmm.frames, vmm.frames.bitmap
    {
      Kept(s0, vmm.Now())
    }

    // Building the address space, the part between the header checks and the process.
    method BuildSpace(file: seq<byte>) returns (r: int, dir: nat)
      requires vmm.Valid() && HasMagic(file) && Sound(vmm.Now(), file) && TableInFile(file)
      modifies vmm, vmm.frames, vmm.frames.bitmap
      ensures vmm.Valid() && OthersKept(old(vmm.Now()))
      ensures r == SpaceCode(old(vmm.Now()), file)
      ensures r == 0 <==>
        SegmentsInFile(file, HeaderOf(file).phnum) && Spare(old(vmm.Now())) >= StartBudget(file)
      ensures r == 0 ==> dir !in old(vmm.dirs) && dir != 0 && Running(dir, file, Spare(old(vmm.Now())))
      ensures Spare(vmm.Now()) == ExecLeaves(file, Spare(old(vmm.Now())), r)
    {
      ghost var s0 := vmm.Now();
      KeptByNewSpace(s0, s0);
      SoundInNewSpace(s0, file);
      NewSpaceCost(s0, file);
      SpaceIff(s0, file);
      dir := vmm.CreateAddressSpace();
      if dir == 0 { return -8, 0; }
      r := LoadImage(vmm, dir, file);
      LeavesInNewSpace(s0, file, r);
      KeptByNewSpace(s0, vmm.Now());
    }

    // The process for a loaded image, running in the new space. b is the buffer of the file.
    method StartProcess(entry: nat, dir: nat, ghost b: H.Block) returns (r: int, ghost st: H.Block)
      requires procs.Valid() && procs.nextPid + 1 < WORD32 && b in H.Live(procs.Now().heap) && NoStack(procs.procs, b)
      modifies procs, procs.table, procs.heap
      ensures procs.Valid() && NoStack(procs.procs, b) && b in H.Live(procs.Now().heap)
      ensures r == PidCode(old(procs.Now()))
      ensures r == -10 ==> procs.Now() == old(procs.Now())
      ensures r != -10 ==>
        && r == old(procs.nextPid) && Enqueued(old(procs.procs), r, entry, dir, st.Payload())
        && st !in H.Live(old(procs.Now().heap)) && H.Live(procs.Now().heap) == H.Live(old(procs.Now().heap)) + {st}
    {
      ghost var s := procs.Now();
      st := b;
      if S.DoCreate(s, true, S.Ready).1 != -1 { st := CreatedBeside(s, b); }
      var slot := procs.Create(true, entry, STACK_TOP);
      if slot == -1 { return -10, st; }
      DirKeeps(procs.Now(), 1, dir);
      procs.SetDir(1, slot, dir);
      assert SchedTable.Links(procs.table[..], procs.procs, 1);
      r := procs.table[slot].pid;
    }

    // The new process is ready, next in the ring, and will resume at entry in its own space, in ring 3
    // with its stack pointer just above the stack page.
    ghost predicate Enqueued(before: seq<S.Proc>, pid: int, entry: nat, dir: nat, stack: nat)
      requires |before| > 0
      reads procs
    {
      && |procs.procs| > 1
      && procs.procs == S.InsertAfterFirst(before, procs.procs[1])
      && procs.procs[1].pid == pid && procs.procs[1].status == S.Ready && procs.procs[1].dir == dir
      && procs.procs[1].stack == stack
      && Resume(procs.stacks, procs.procs[1].esp) == StartOf(true, entry, STACK_TOP, stack + S.PROC_STACK)
      && Entering(Resume(procs.stacks, procs.procs[1].esp), entry)
    }

    // The space has every segment of the file, and the stack page too if and only if so many frames
    // as were free cover its table, all of them for the program to read and write.
    ghost predicate Running(dir: nat, file: seq<byte>, spare: nat)
      requires vmm.frames.Valid()
      reads vmm, vmm.frames, vmm.frames.bitmap
    {
      && TableInFile(file) && SegmentsInFile(file, HeaderOf(file).phnum)
      && dir in vmm.dirs && Loaded(vmm.Now(), dir, file, HeaderOf(file).phnum)
      && HoldsOrNone(vmm.mem, dir, STACK_PAGE, Zeros(FRAME_SIZE), spare >= FullBudget(file))
      && Opened(vmm.Now(), dir, file)
    }

    // The tests on the header, before anything is allocated for the program.
    method CheckHeader(file: seq<byte>) returns (r: int)
      requires |file| >= HEADER_SIZE
      ensures r == -6 <==> !HasMagic(file)
      ensures r == -7 <==> HasMagic(file) && TableEnd(file) > |file|
      ensures r == 0 || r == -6 || r == -7
    {
      if Read32(file, 0) != ELF_MAGIC { return -6; }
      var h := HeaderOf(file);
      ProductIsWord(h.phnum, h.phentsize);
      if Add32(h.phoff, h.phnum * h.phentsize) > |file| { return -7; }
      return 0;
    }

    // Once the header is accepted.
    method RunChecked(file: seq<byte>, ghost b: H.Block) returns (r: int)
      requires vmm.Valid() && HasMagic(file) && Sound(vmm.Now(), file) && TableInFile(file)
      requires procs.Valid() && procs.nextPid + 1 < WORD32 && b in H.Live(procs.Now().heap) && NoStack(procs.procs, b)
      modifies vmm, vmm.frames, vmm.frames.bitmap, procs, procs.table, procs.heap
      ensures vmm.Valid() && OthersKept(old(vmm.Now()))
      ensures r == ExecCode(file, old(vmm.Now()), old(procs.Now()))
      ensures Spare(vmm.Now()) == ExecLeaves(file, Spare(old(vmm.Now())), r)
      ensures NoStack(procs.procs, b) && b in H.Live(procs.Now().heap)
      ensures r < 0 ==> procs.Now() == old(procs.Now())
      ensures procs.Valid()
      ensures Settled(r, old(procs.procs), old(procs.nextPid), H.Live(old(procs.Now().heap)), old(vmm.Now()),
                      file)
    {
      ghost var t, s0 := procs.Now(), vmm.Now();
      var dir;
      r, dir := BuildSpace(file);
      if r == 0 {
        ghost var st;
        r, st := StartProcess(HeaderOf(file).entry, dir, b);
        ghost var added := r >= 0 && Added(r, t.procs, H.Live(t.heap), s0, file, st);
      }
    }

    // Started, with the new process and its stack added to what there was before; or not, and nothing
    // has come or gone.
    ghost predicate Settled(r: int, ps: seq<S.Proc>, pid: nat, before: set<H.Block>, s0: P.State, file: seq<byte>)
      requires |ps| > 0 && vmm.frames.Valid()
      reads vmm, vmm.frames, vmm.frames.bitmap, procs, procs.heap
    {
      if r < 0 then procs.procs == ps && H.Live(procs.Now().heap) == before
      else r == pid && exists st :: Added(pid, ps, before, s0, file, st)
    }

    ghost predicate Added(pid: nat, ps: seq<S.Proc>, before: set<H.Block>, s0: P.State, file: seq<byte>, st: H.Block)
      requires |ps| > 0 && vmm.frames.Valid()
      reads vmm, vmm.frames, vmm.frames.bitmap, procs, procs.heap
    {
      Launched(ps, s0, pid, file, st) && st !in before && H.Live(procs.Now().heap) == before + {st}
    }

    // The new process, in a space that was not there before, is ready to run this file.
    ghost predicate Launched(before: seq<S.Proc>, s0: P.State, pid: int, file: seq<byte>, st: H.Block)
      requires |before| > 0 && vmm.frames.Valid()
      reads vmm, vmm.frames, vmm.frames.bitmap, procs
    {
      && |procs.procs| > 1 && TableInFile(file) && procs.procs[1].dir !in s0.dirs
      && Running(procs.procs[1].dir, file, Spare(s0))
      && Enqueued(before, pid, HeaderOf(file).entry, procs.procs[1].dir, st.Payload())
    }

    // kmalloc of the buffer, and kfree of it, beside the stacks.
    method TakeBuffer(size: nat) returns (hdr: nat, ghost b: H.Block)
      requires procs.Valid() && size < WORD32
      modifies procs.heap
      ensures procs.Valid() && (hdr == 0 <==> H.Malloc(old(procs.Now().heap), size).1 == 0)
      ensures procs.Now() == old(procs.Now()).(heap := H.Malloc(old(procs.Now().heap), size).0)
      ensures hdr != 0 ==>
        && b.Payload() == hdr && NoStack(procs.procs, b) && b !in H.Live(old(procs.Now().heap))
        && H.Live(procs.Now().heap) == H.Live(old(procs.Now().heap)) + {b}
    {
      ghost var s := procs.Now();
      b := s.heap[0];
      if H.Malloc(s.heap, size).1 != 0 { b := BufferTaken(s, size); }
      hdr := procs.heap.KMalloc(size);
      H.MallocStep(s.heap, size);
    }

    method GiveBuffer(hdr: nat, ghost b: H.Block)
      requires procs.Valid() && b in H.Live(procs.Now().heap) && NoStack(procs.procs, b) && hdr == b.Payload()
      modifies procs.heap
      ensures procs.Valid() && H.Live(procs.Now().heap) == H.Live(old(procs.Now().heap)) - {b}
    {
      ghost var s := procs.Now();
      BufferGiven(s, b);
      H.LiveApart(s.heap, b, b);
      procs.heap.KFree(hdr);
    }

    // tetfs_read of the whole file into the buffer.
    method ReadFile(idx: nat, size: nat) returns (n: int, file: seq<byte>)
      requires fs.Valid() && idx < L.MAX_INODES && L.ViewOf(fs.disk).inodes[idx].size == size && size < WORD32
      requires F.Live(L.ViewOf(fs.disk), idx)
      ensures WasRead(n, size, file, L.ViewOf(fs.disk), idx)
    {
      var buf := new byte[size];
      n := fs.Read(idx, buf, 0, size);
      if L.ViewOf(fs.disk).inodes[idx].kind == L.TYPE_FILE { ReadWhole(L.ViewOf(fs.disk), idx); }
      file := buf[..];
    }

    method RunFile(file: seq<byte>, ghost b: H.Block) returns (r: int)
      requires vmm.Valid() && |file| >= HEADER_SIZE && Sound(vmm.Now(), file)
      requires procs.Valid() && procs.nextPid + 1 < WORD32 && b in H.Live(procs.Now().heap) && NoStack(procs.procs, b)
      modifies vmm, vmm.frames, vmm.frames.bitmap, procs, procs.table, procs.heap
      ensures vmm.Valid() && OthersKept(old(vmm.Now()))
      ensures r == ExecCode(file, old(vmm.Now()), old(procs.Now()))
      ensures Spare(vmm.Now()) == Leaves(file, old(vmm.Now()), r)
      ensures NoStack(procs.procs, b) && b in H.Live(procs.Now().heap)
      ensures r < 0 ==> procs.Now() == old(procs.Now())
      ensures procs.Valid()
      ensures Settled(r, old(procs.procs), old(procs.nextPid), H.Live(old(procs.Now().heap)), old(vmm.Now()),
                      file)
    {
      if HasMagic(file) { TableEndMeans(vmm.Now(), file); }
      r := CheckHeader(file);
      if r == 0 { r := RunChecked(file, b); }
    }

    // before is what was allocated without the buffer.
    method RunAndGive(file: seq<byte>, hdr: nat, ghost b: H.Block, ghost before: set<H.Block>)
      returns (r: int)
      requires vmm.Valid() && |file| >= HEADER_SIZE && Sound(vmm.Now(), file) && hdr == b.Payload()
      requires procs.Valid() && procs.nextPid + 1 < WORD32 && NoStack(procs.procs, b)
      requires b !in before && H.Live(procs.Now().heap) == before + {b}
      modifies vmm, vmm.frames, vmm.frames.bitmap, procs, procs.table, procs.heap
      ensures vmm.Valid() && OthersKept(old(vmm.Now()))
      ensures r == ExecCode(file, old(vmm.Now()), old(procs.Now()))
      ensures Spare(vmm.Now()) == Leaves(file, old(vmm.Now()), r)
      ensures procs.Valid()
      ensures Settled(r, old(procs.procs), old(procs.nextPid), before, old(vmm.Now()),
                      file)
    {
      ghost var t, s0 := procs.Now(), vmm.Now();
      r := RunFile(file, b);
      ghost var st := b;
      if r >= 0 { st :| Added(r, t.procs, before + {b}, s0, file, st); }
      GivenBack(before, b, st);
      GiveBuffer(hdr, b);
      assert r >= 0 ==> Added(r, t.procs, before, s0, file, st);
    }

    // After the read: give up, or go on with what was read.
    method RunIfRead(n: int, size: nat, file: seq<byte>, hdr: nat, ghost v: L.View, ghost idx: nat,
                     ghost b: H.Block, ghost before: set<H.Block>) returns (r: int)
      requires F.Inv(v) && F.Live(v, idx) && WasRead(n, size, file, v, idx)
      requires vmm.Valid() && hdr == b.Payload() && (n == size ==> |file| >= HEADER_SIZE && Sound(vmm.Now(), file))
      requires procs.Valid() && procs.nextPid + 1 < WORD32 && NoStack(procs.procs, b)
      requires b !in before && H.Live(procs.Now().heap) == before + {b}
      modifies vmm, vmm.frames, vmm.frames.bitmap, procs, procs.table, procs.heap
      ensures vmm.Valid() && OthersKept(old(vmm.Now()))
      ensures r == ReadCode(v, idx, old(vmm.Now()), old(procs.Now()))
      ensures Spare(vmm.Now()) == LeavesOf(v, idx, old(vmm.Now()), r)
      ensures procs.Valid()
      ensures Settled(r, old(procs.procs), old(procs.nextPid), before, old(vmm.Now()),
                      FileOf(v, idx))
    {
      if n != size {
        KeptSelf(vmm.Now());
        GiveBuffer(hdr, b);
        return -5;
      }
      r := RunAndGive(file, hdr, b, before);
    }

    // With the buffer in hand: what was allocated is before, without it.
    method ReadAndRun(idx: nat, size: nat, hdr: nat, ghost b: H.Block, ghost before: set<H.Block>)
      returns (r: int)
      requires Loadable(idx, size) && vmm.Valid() && hdr == b.Payload()
      requires procs.Valid() && procs.nextPid + 1 < WORD32 && NoStack(procs.procs, b)
      requires b !in before && H.Live(procs.Now().heap) == before + {b}
      modifies vmm, vmm.frames, vmm.frames.bitmap, procs, procs.table, procs.heap
      ensures vmm.Valid() && OthersKept(old(vmm.Now()))
      ensures r == ReadCode(L.ViewOf(fs.disk), idx, old(vmm.Now()), old(procs.Now()))
      ensures Spare(vmm.Now()) == LeavesOf(L.ViewOf(fs.disk), idx, old(vmm.Now()), r)
      ensures procs.Valid()
      ensures Settled(r, old(procs.procs), old(procs.nextPid), before, old(vmm.Now()),
                      FileOf(L.ViewOf(fs.disk), idx))
    {
      var n, bytes := ReadFile(idx, size);
      r := RunIfRead(n, size, bytes, hdr, L.ViewOf(fs.disk), idx, b, before);
    }

    /** The whole of exec once the inode is found and the file long enough. Whatever happens the
        buffer is given back: a failed start leaves the processes and the live heap blocks as they
        were, a successful one adds the new process and its stack and nothing else. */
    method ExecFile(idx: nat, size: nat) returns (r: int)
      requires Loadable(idx, size) && vmm.Valid() && procs.Valid() && procs.nextPid + 1 < WORD32
      modifies vmm, vmm.frames, vmm.frames.bitmap, procs, procs.table, procs.heap
      ensures vmm.Valid() && OthersKept(old(vmm.Now()))
      ensures r == FileCode(L.ViewOf(fs.disk), idx, old(vmm.Now()), old(procs.Now()))
      ensures Spare(vmm.Now()) == LeavesOf(L.ViewOf(fs.disk), idx, old(vmm.Now()), r)
      ensures procs.Valid()
      ensures Settled(r, old(procs.procs), old(procs.nextPid), H.Live(old(procs.Now().heap)), old(vmm.Now()),
                      FileOf(L.ViewOf(fs.disk), idx))
    {
      var hdr: nat;
      ghost var b;
      ghost var s0, before := vmm.Now(), H.Live(procs.Now().heap);
      KeptSelf(s0);
      hdr, b := TakeBuffer(size);
      assert vmm.Now() == s0;
      r := -4;
      if hdr != 0 { r := ReadAndRun(idx, size, hdr, b, before); }
    }

    // An inode in use, of this size, and with content the loader is made for.
    ghost predicate Loadable(idx: nat, size: nat)
      reads fs, vmm, vmm.frames, vmm.frames.bitmap
    {
      && fs.Valid() && vmm.frames.Valid() && idx < L.MAX_INODES && F.Live(L.ViewOf(fs.disk), idx)
      && L.ViewOf(fs.disk).inodes[idx].size == size && HEADER_SIZE <= size < WORD32 && FileIsSound(idx)
    }

    ghost predicate FileIsSound(idx: nat)
      requires fs.Valid() && vmm.frames.Valid() && F.Live(L.ViewOf(fs.disk), idx)
      reads fs, vmm, vmm.frames, vmm.frames.bitmap
    {
      L.ViewOf(fs.disk).inodes[idx].kind == L.TYPE_FILE ==> Sound(vmm.Now(), FileOf(L.ViewOf(fs.disk), idx))
    }

    // tetfs_find in the root directory, and the size test.
    method FindProgram(name: seq<byte>) returns (r: int, size: nat)
      requires fs.Valid() && 0 !in name && vmm.frames.Valid()
      requires var i := FindCode(L.ViewOf(fs.disk), name); i >= 0 ==> FileIsSound(i)
      ensures r == FindCode(L.ViewOf(fs.disk), name)
      ensures r >= 0 ==> Loadable(r, size)
    {
      r := fs.Find(name, L.ROOT_INODE);
      if r < 0 { return -2, 0; }
      var ok, node := fs.ReadInode(r);
      size := node.size;
      if size < HEADER_SIZE { return -3, 0; }
    }

    // What is in the file of that name.
    ghost function ProgramFile(name: seq<byte>): seq<byte>
      requires fs.Valid()
      reads fs
    {
      var i := FindCode(L.ViewOf(fs.disk), name);
      if i < 0 then [] else FileOf(L.ViewOf(fs.disk), i)
    }

    /** exec_elf_from_disk, for a file the loader is made for if it is an ELF file at all. What it
        returns is a function of the disk, the frames and directories, and the process table before
        the call, and so is how many frames it leaves free, those taken before a failure never being
        given back. When it returns a pid, a new process is ready to run at the file's entry in a
        space of its own that holds what the program headers of the file on disk say; when it fails,
        no process or live heap block has come or gone. */
    method ExecElfFromDisk(name: seq<byte>) returns (r: int)
      requires fs.Valid() && 0 !in name && vmm.Valid() && procs.Valid() && procs.nextPid + 1 < WORD32
      requires var i := FindCode(L.ViewOf(fs.disk), name); i >= 0 ==> FileIsSound(i)
      modifies vmm, vmm.frames, vmm.frames.bitmap, procs, procs.table, procs.heap
      ensures vmm.Valid() && OthersKept(old(vmm.Now()))
      ensures r == Result(L.ViewOf(fs.disk), name, old(vmm.Now()), old(procs.Now()))
      ensures Spare(vmm.Now()) == LeavesOf(L.ViewOf(fs.disk), FindCode(L.ViewOf(fs.disk), name), old(vmm.Now()), r)
      ensures procs.Valid()
      ensures Settled(r, old(procs.procs), old(procs.nextPid), H.Live(old(procs.Now().heap)), old(vmm.Now()),
                      ProgramFile(name))
      ensures r >= 0 ==> |procs.procs| > 1 && Resume(procs.stacks, procs.procs[1].esp).esp == 0x800_0000
    {
      var size;
      r, size := FindProgram(name);
      if r < 0 {
        KeptSelf(vmm.Now());
        return;
      }
      r := ExecFile(r, size);
    }
  }
}
