// The ELF loader: what the program headers of a file ask for, and the address space that
// exec_elf_from_disk builds from them.

module Elf {
  import opened Bits
  import opened Frames
  import opened Paging
  import opened Spaces

  const ELF_MAGIC := 0x464C457F
  const HEADER_SIZE := 52
  const PHDR_SIZE := 32
  const PT_LOAD := 1
  const STACK_TOP := 0x800_0000
  const STACK_PAGE := 0x7FFF
  const USER_FLAGS := 7

  // ---- what the file says ----

  // The fields of a PT_LOAD program header that the loader uses.
  datatype Segment = Segment(offset: nat, vaddr: nat, filesz: nat, memsz: nat)

  datatype Header = Header(entry: nat, phoff: nat, phentsize: nat, phnum: nat)

  function HeaderOf(file: seq<byte>): Header
    requires |file| >= HEADER_SIZE
  {
    Header(Read32(file, 24), Read32(file, 28), Read16(file, 42), Read16(file, 44))
  }

  // The program header table lies in the file, with room for the fields of every entry.
  predicate TableFits(h: Header, len: nat) {
    && (h.phnum == 0 || h.phentsize >= PHDR_SIZE)
    && h.phoff + h.phnum * h.phentsize <= len
  }

  predicate TableInFile(file: seq<byte>) {
    HEADER_SIZE <= |file| < WORD32 && TableFits(HeaderOf(file), |file|)
  }

  function EntryOffset(h: Header, i: nat, len: nat): (at: nat)
    requires TableFits(h, len) && i < h.phnum
    ensures at + PHDR_SIZE <= len
  {
    EntryInTable(h.phnum, h.phentsize, i);
    h.phoff + i * h.phentsize
  }

  function PhdrAt(file: seq<byte>, i: nat): (at: nat)
    requires TableInFile(file) && i < HeaderOf(file).phnum
    ensures at + PHDR_SIZE <= |file|
  {
    EntryOffset(HeaderOf(file), i, |file|)
  }

  lemma EntryInTable(n: nat, size: nat, i: nat)
    requires i < n
    ensures i * size + size <= n * size
  {
    assert (n - i - 1) * size >= 0;
    assert n * size == i * size + size + (n - i - 1) * size;
  }

  function SegmentAt(file: seq<byte>, at: nat): Segment
    requires at + PHDR_SIZE <= |file|
  {
    Segment(Read32(file, at + 4), Read32(file, at + 8), Read32(file, at + 16), Read32(file, at + 20))
  }

  predicate IsLoad(file: seq<byte>, i: nat)
    requires TableInFile(file) && i < HeaderOf(file).phnum
  {
    Read32(file, PhdrAt(file, i)) == PT_LOAD
  }

  function Seg(file: seq<byte>, i: nat): Segment
    requires TableInFile(file) && i < HeaderOf(file).phnum
  {
    SegmentAt(file, PhdrAt(file, i))
  }

  function PageCount(seg: Segment): nat { (seg.memsz + FRAME_SIZE - 1) / FRAME_SIZE }

  // Page number p belongs to segment i.
  predicate Covers(file: seq<byte>, i: nat, p: nat)
    requires TableInFile(file)
  {
    i < HeaderOf(file).phnum && IsLoad(file, i) &&
    Seg(file, i).vaddr / FRAME_SIZE <= p < Seg(file, i).vaddr / FRAME_SIZE + PageCount(Seg(file, i))
  }

  predicate WfSegment(seg: Segment) {
    && seg.vaddr % FRAME_SIZE == 0 && seg.filesz <= seg.memsz
    && seg.vaddr + seg.memsz + FRAME_SIZE <= WORD32 && seg.offset + seg.filesz < WORD32
  }

  // A file the loader is made for: page-aligned segments that do not share a page with each
  // other or with the stack, in directory slots where the kernel has no table.
  ghost predicate WfElf(s: State, file: seq<byte>) {
    && TableInFile(file)
    && (forall i | 0 <= i < HeaderOf(file).phnum && IsLoad(file, i) :: WfSegment(Seg(file, i)))
    && (forall i: nat, j: nat, p: nat :: Covers(file, i, p) && Covers(file, j, p) ==> i == j)
    && (forall i: nat, p: nat :: Covers(file, i, p) ==> p != STACK_PAGE && !Present(Word(s.mem, s.kernel, p / ENTRIES)))
    && !Present(Word(s.mem, s.kernel, STACK_PAGE / ENTRIES))
  }

  // ---- what the address space should hold ----

  // Byte k of a segment in memory: from the file, then zeroes.
  function SegmentByte(file: seq<byte>, seg: Segment, k: nat): byte {
    if k < seg.filesz && seg.offset + k < |file| then file[seg.offset + k] else 0
  }

  function PageImage(file: seq<byte>, seg: Segment, q: nat): (b: seq<byte>)
    ensures |b| == FRAME_SIZE
    ensures forall k | 0 <= k < FRAME_SIZE :: b[k] == SegmentByte(file, seg, q * FRAME_SIZE + k)
  {
    seq<byte>(FRAME_SIZE, k requires 0 <= k < FRAME_SIZE => SegmentByte(file, seg, q * FRAME_SIZE + k))
  }

  // The byte a program in this space reads at a virtual address.
  function ByteAt(mem: Memory, dir: nat, vaddr: nat): Option<byte> {
    match Translate(mem, dir, vaddr / FRAME_SIZE)
    case None => None
    case Some(e) =>
      if Base(e) in mem && mem[Base(e)].Page? && vaddr % FRAME_SIZE < |mem[Base(e)].b|
      then Some(mem[Base(e)].b[vaddr % FRAME_SIZE]) else None
  }

  // The image is mapped there, for user mode to write.
  predicate PageHolds(mem: Memory, dir: nat, page: nat, image: seq<byte>) {
    match Translate(mem, dir, page)
    case None => false
    case Some(e) => Base(e) in mem && mem[Base(e)] == Page(image) && Bit(e, 1) && Bit(e, 2)
  }

  // Both words the processor goes by are present, writable and open to user mode.
  predicate Accessible(mem: Memory, dir: nat, page: nat) {
    var de := Word(mem, dir, page / ENTRIES);
    var te := Word(mem, Base(de), page % ENTRIES);
    de % 2 == 1 && Bit(de, 1) && Bit(de, 2) && te % 2 == 1 && Bit(te, 1) && Bit(te, 2)
  }

  // The tables this space does not share with the kernel are open to user mode.
  ghost predicate UserTables(s: State, dir: nat) {
    forall k: nat | Present(Word(s.mem, dir, k)) && !Present(Word(s.mem, s.kernel, k)) ::
      Bit(Word(s.mem, dir, k), 1) && Bit(Word(s.mem, dir, k), 2)
  }

  /** A page in place is one the program can read and write. */
  lemma HeldIsAccessible(s: State, dir: nat, page: nat, image: seq<byte>)
    requires PageHolds(s.mem, dir, page, image) && UserTables(s, dir)
    requires !Present(Word(s.mem, s.kernel, page / ENTRIES))
    ensures Accessible(s.mem, dir, page)
  {
  }

  // Pages of the first n program headers are in place.
  ghost predicate Loaded(s: State, dir: nat, file: seq<byte>, n: nat)
    requires TableInFile(file) && n <= HeaderOf(file).phnum
  {
    forall i: nat, q: nat | i < n && IsLoad(file, i) && q < PageCount(Seg(file, i)) ::
      SegPageHolds(s, dir, file, i, q)
  }

  predicate SegPageHolds(s: State, dir: nat, file: seq<byte>, i: nat, q: nat)
    requires TableInFile(file) && i < HeaderOf(file).phnum
  {
    PageHolds(s.mem, dir, Seg(file, i).vaddr / FRAME_SIZE + q, PageImage(file, Seg(file, i), q))
  }

  /** Pages in place mean that every byte of every segment reads as its program header says. */
  lemma LoadedMeans(s: State, dir: nat, file: seq<byte>, i: nat, k: nat)
    requires TableInFile(file) && i < HeaderOf(file).phnum && IsLoad(file, i) && WfSegment(Seg(file, i))
    requires Loaded(s, dir, file, HeaderOf(file).phnum) && k < Seg(file, i).memsz
    requires Seg(file, i).offset + Seg(file, i).filesz <= |file|
    ensures var seg := Seg(file, i);
      ByteAt(s.mem, dir, seg.vaddr + k) == Some(if k < seg.filesz then file[seg.offset + k] else 0)
  {
    var seg := Seg(file, i);
    var q := k / FRAME_SIZE;
    AlignedPage(seg.vaddr, k);
    assert q < PageCount(seg);
    assert SegPageHolds(s, dir, file, i, q);
    ByteOfPage(s.mem, dir, seg.vaddr + k, PageImage(file, seg, q));
    assert PageImage(file, seg, q)[k % FRAME_SIZE] == SegmentByte(file, seg, q * FRAME_SIZE + k % FRAME_SIZE);
  }

  lemma ByteOfPage(mem: Memory, dir: nat, vaddr: nat, image: seq<byte>)
    requires PageHolds(mem, dir, vaddr / FRAME_SIZE, image) && |image| == FRAME_SIZE
    ensures ByteAt(mem, dir, vaddr) == Some(image[vaddr % FRAME_SIZE])
  {
  }

  lemma AlignedPage(vaddr: nat, k: nat)
    requires vaddr % FRAME_SIZE == 0
    ensures (vaddr + k) / FRAME_SIZE == vaddr / FRAME_SIZE + k / FRAME_SIZE
    ensures (vaddr + k) % FRAME_SIZE == k % FRAME_SIZE
    ensures k == k / FRAME_SIZE * FRAME_SIZE + k % FRAME_SIZE
  {
    var (a, q, r) := (vaddr / 4096, k / 4096, k % 4096);
    var x := vaddr + k;
    assert x == 4096 * (a + q) + r;
    assert x == 4096 * (x / 4096) + x % 4096;
    assert x / 4096 == a + q;
  }

  // ---- one page ----

  // A space still private to the program being loaded: other spaces translate as at the start,
  // and the kernel's directory is as it was.
  ghost predicate Undisturbed(s0: State, s: State, dir: nat) {
    && s.kernel == s0.kernel && s.dirs == s0.dirs && s0.used <= s.used
    && (forall e: nat, p: nat | e in s0.dirs && e != dir :: Translate(s.mem, e, p) == Translate(s0.mem, e, p))
    && (forall k: nat :: Word(s.mem, s.kernel, k) == Word(s0.mem, s.kernel, k))
    && PagesKept(s0, s) && (UserTables(s0, dir) ==> UserTables(s, dir))
  }

  // A frame taken from the allocator and filled.
  ghost function AddPage(s: State, image: seq<byte>): (State, nat) {
    var (used', frame) := AllocStep(s.used);
    if frame == 0 then (s, 0) else (s.(mem := s.mem[frame := Page(image)], used := used'), frame)
  }

  lemma AddPageKeeps(s: State, image: seq<byte>)
    requires Inv(s)
    ensures var (s', frame) := AddPage(s, image);
      && Inv(s') && s'.dirs == s.dirs && s'.kernel == s.kernel && s.used <= s'.used && PagesKept(s, s')
      && (forall e: nat, p: nat | e in s.dirs :: Translate(s'.mem, e, p) == Translate(s.mem, e, p))
      && (forall e: nat, k: nat | e in s.dirs :: Word(s'.mem, e, k) == Word(s.mem, e, k))
      && (frame != 0 ==> frame !in s.mem && frame in s'.mem && s'.mem[frame] == Page(image) && frame % FRAME_SIZE == 0)
  {
    var (s', frame) := AddPage(s, image);
    NewFrame(s);
    if frame != 0 {
      assert forall d: nat, i: nat, t: nat :: Reaches(s', d, i, t) <==> Reaches(s, d, i, t);
      forall e: nat, p: nat | e in s.dirs
        ensures Translate(s'.mem, e, p) == Translate(s.mem, e, p)
      {
        if Present(Word(s.mem, e, p / ENTRIES)) && p / ENTRIES < ENTRIES {
          assert Reaches(s, e, p / ENTRIES, Base(Word(s.mem, e, p / ENTRIES)));
        }
      }
    }
  }

  // The frames are gone: every later allocation fails too.
  ghost predicate OutOfFrames(s: State) { AllocStep(s.used).1 == 0 }

  // One page of the loader: a filled frame, mapped at a page of the new space.
  ghost function PutPage(s: State, dir: nat, virt: nat, image: seq<byte>): (State, bool)
    requires Inv(s) && dir in s.dirs && virt < WORD32
  {
    AddPageKeeps(s, image);
    var (s1, frame) := AddPage(s, image);
    if frame == 0 then (s, false) else (MapPage(s1, dir, virt, frame, USER_FLAGS, true).0, true)
  }

  // PAGE_PRESENT, PAGE_WRITE and PAGE_USER.
  lemma FlagsGrant(frame: nat)
    ensures Bit(PageEntry(frame, USER_FLAGS), 1) && Bit(PageEntry(frame, USER_FLAGS), 2)
  {
    PageEntryGrants(frame, USER_FLAGS);
    assert Bit(7, 1) == Bit(3, 0) && Bit(7, 2) == Bit(3, 1) == Bit(1, 0);
  }

  lemma MapKeepsUserTables(s: State, dir: nat, virt: nat, frame: nat)
    requires Inv(s) && dir in s.dirs && dir != s.kernel && virt < WORD32 && UserTables(s, dir)
    ensures UserTables(MapPage(s, dir, virt, frame, USER_FLAGS, true).0, dir)
  {
    MapPageEffect(s, dir, virt, frame, USER_FLAGS, true);
    var s' := MapPage(s, dir, virt, frame, USER_FLAGS, true).0;
    forall k: nat | Present(Word(s'.mem, dir, k)) && !Present(Word(s'.mem, s.kernel, k))
      ensures Bit(Word(s'.mem, dir, k), 1) && Bit(Word(s'.mem, dir, k), 2)
    {
      if Present(Word(s.mem, dir, k)) { assert Reaches(s, dir, k, Base(Word(s.mem, dir, k))); }
    }
  }

  /** Once a frame was found, the page is in place unless that was the last frame and no table
      could be had; nothing else changes. */
  lemma PutPageEffect(s0: State, s: State, dir: nat, virt: nat, page: nat, image: seq<byte>)
    requires Inv(s) && Undisturbed(s0, s, dir) && dir in s.dirs && dir != s.kernel
    requires virt < WORD32 && virt / FRAME_SIZE == page && DirIndex(virt) == page / ENTRIES
    requires !Present(Word(s0.mem, s.kernel, page / ENTRIES))
    ensures var (s', ok) := PutPage(s, dir, virt, image);
      && Inv(s') && Undisturbed(s0, s', dir) && PagesKept(s, s')
      && (ok <==> !OutOfFrames(s)) && (!ok ==> s' == s)
      && (ok ==> PageHolds(s'.mem, dir, page, image) || OutOfFrames(s'))
      && (forall p: nat | p != page :: Translate(s'.mem, dir, p) == Translate(s.mem, dir, p))
  {
    AddPageKeeps(s, image);
    var (s1, frame) := AddPage(s, image);
    if frame != 0 {
      MapPageEffect(s1, dir, virt, frame, USER_FLAGS, true);
      PrivateMapping(s1, dir, virt, frame, USER_FLAGS, true);
      EntryParts(frame, USER_FLAGS, true);
      FlagsGrant(frame);
      if UserTables(s1, dir) { MapKeepsUserTables(s1, dir, virt, frame); }
      var (s', ok) := MapPage(s1, dir, virt, frame, USER_FLAGS, true);
      assert Base(frame) == frame;
      assert s1.mem[frame].Page? && s'.mem[frame] == Page(image);
    }
  }

  // The page is in place, or nothing is mapped there.
  predicate HoldsOrNone(mem: Memory, dir: nat, page: nat, image: seq<byte>, holds: bool) {
    if holds then PageHolds(mem, dir, page, image) else Translate(mem, dir, page) == None
  }

  /** The page a turn of the loop puts is missing afterwards exactly when its frame was the last
      one and the space had no table for it; exec does not find out. */
  lemma PageMissedIff(s0: State, s: State, dir: nat, virt: nat, page: nat, image: seq<byte>)
    requires Inv(s) && Undisturbed(s0, s, dir) && dir in s.dirs && dir != s.kernel && !OutOfFrames(s)
    requires virt < WORD32 && virt / FRAME_SIZE == page && DirIndex(virt) == page / ENTRIES
    requires !Present(Word(s0.mem, s.kernel, page / ENTRIES))
    ensures var (s', ok) := PutPage(s, dir, virt, image);
      && ok
      && (!PageHolds(s'.mem, dir, page, image) <==>
            !Present(Word(s.mem, dir, page / ENTRIES)) && OutOfFrames(AddPage(s, image).0))
      && (!PageHolds(s'.mem, dir, page, image) ==> Translate(s'.mem, dir, page) == None)
  {
    AddPageKeeps(s, image);
    var (s1, frame) := AddPage(s, image);
    MapPageEffect(s1, dir, virt, frame, USER_FLAGS, true);
    PutPageEffect(s0, s, dir, virt, page, image);
    EntryParts(frame, USER_FLAGS, true);
    FlagsGrant(frame);
    assert Base(frame) == frame && s1.mem[frame] == Page(image);
  }

  // Pages in place stay in place when another page is put.
  lemma PageStays(s: State, s': State, dir: nat, page: nat, image: seq<byte>)
    requires PagesKept(s, s') && Translate(s'.mem, dir, page) == Translate(s.mem, dir, page)
    requires PageHolds(s.mem, dir, page, image)
    ensures PageHolds(s'.mem, dir, page, image)
  {
  }
}
