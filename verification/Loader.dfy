// The page loops of exec_elf_from_disk, run against the paging code.

module Loader {
  import opened Bits
  import opened Memory
  import opened Frames
  import opened Paging
  import opened Spaces
  import opened Elf
  import opened Budget

  function Padded(data: seq<byte>): (image: seq<byte>)
    requires |data| <= FRAME_SIZE
    ensures |image| == FRAME_SIZE
    ensures forall k | 0 <= k < FRAME_SIZE :: image[k] == if k < |data| then data[k] else 0
  {
    data + Zeros(FRAME_SIZE - |data|)
  }

  /** A frame cleared, filled with data and mapped: the body of both page loops. It fails when
      no frame is left; otherwise the page is in place if and only if the space had a table for it
      or another frame was left for one, which the code does not notice. */
  method FillAndMap(vmm: Vmm, dir: nat, virt: nat, data: seq<byte>, ghost page: nat, ghost s0: State,
                    ghost pages: nat, ghost slots: set<nat>) returns (ok: bool)
    requires vmm.Valid() && Undisturbed(s0, vmm.Now(), dir) && dir in vmm.dirs && dir != vmm.kernelDir
    requires virt < WORD32 && virt / FRAME_SIZE == page && DirIndex(virt) == page / ENTRIES && |data| <= FRAME_SIZE
    requires !Present(Word(s0.mem, s0.kernel, page / ENTRIES)) && Account(s0, vmm.Now(), dir, pages, slots)
    modifies vmm.frames, vmm.frames.bitmap, vmm`mem
    ensures vmm.Valid() && Undisturbed(s0, vmm.Now(), dir) && PagesKept(old(vmm.Now()), vmm.Now())
    ensures ok <==> Spare(old(vmm.Now())) > 0
    ensures !ok ==> OutOfFrames(vmm.Now())
    ensures ok ==> PageHolds(vmm.mem, dir, page, Padded(data)) || OutOfFrames(vmm.Now())
    ensures ok ==>
      var holds := Present(Word(old(vmm.mem), dir, page / ENTRIES)) || Spare(old(vmm.Now())) > 1;
      HoldsOrNone(vmm.mem, dir, page, Padded(data), holds)
    ensures forall p: nat | p != page :: Translate(vmm.mem, dir, p) == Translate(old(vmm.mem), dir, p)
    ensures Account(s0, vmm.Now(), dir, pages + 1, slots + {page / ENTRIES})
  {
    ghost var s := vmm.Now();
    PutPageEffect(s0, s, dir, virt, page, Padded(data));
    PutPageCounts(s0, s, dir, virt, Padded(data), pages, slots);
    if Spare(s) > 0 { MissedByCount(s0, s, dir, virt, page, Padded(data)); }
    ok := PutPageNow(vmm, dir, virt, data);
  }

  lemma MissedByCount(s0: State, s: State, dir: nat, virt: nat, page: nat, image: seq<byte>)
    requires Inv(s) && Undisturbed(s0, s, dir) && dir in s.dirs && dir != s.kernel && Spare(s) > 0
    requires virt < WORD32 && virt / FRAME_SIZE == page && DirIndex(virt) == page / ENTRIES
    requires !Present(Word(s0.mem, s.kernel, page / ENTRIES))
    ensures var holds := Present(Word(s.mem, dir, page / ENTRIES)) || Spare(s) > 1;
      HoldsOrNone(PutPage(s, dir, virt, image).0.mem, dir, page, image, holds)
  {
    OutIsNone(s);
    PageMissedIff(s0, s, dir, virt, page, image);
    AddPageKeeps(s, image);
    OutIsNone(AddPage(s, image).0);
    assert 0 in Below(RESERVED_END / FRAME_SIZE);
    AllocCounts(s.used);
  }

  method PutPageNow(vmm: Vmm, dir: nat, virt: nat, data: seq<byte>) returns (ok: bool)
    requires vmm.Valid() && dir in vmm.dirs && virt < WORD32 && |data| <= FRAME_SIZE
    modifies vmm.frames, vmm.frames.bitmap, vmm`mem
    ensures vmm.Valid()
    ensures (vmm.Now(), ok) == PutPage(old(vmm.Now()), dir, virt, Padded(data))
  {
    ghost var s := vmm.Now();
    AddPageKeeps(s, Padded(data));
    NewFrame(s);
    var frame := vmm.frames.Alloc();
    if frame == 0 { return false; }
    var page := new byte[FRAME_SIZE];
    MemSet(page, 0);
    MemCpy(page, 0, data);
    assert page[..] == Padded(data);
    vmm.mem := vmm.mem[frame := Page(page[..])];
    assert vmm.Now() == AddPage(s, Padded(data)).0;
    assert Bit(USER_FLAGS, PAGE_USER_BIT);
    var mapped := vmm.MapPageInDir(dir, virt, frame, USER_FLAGS);
    return true;
  }

  // What the loops have established when they are about to put page q of segment i: everything
  // before it is in place, unless the frames have run out.
  ghost predicate Progress(s: State, dir: nat, file: seq<byte>, i: nat, q: nat)
    requires TableInFile(file) && i <= HeaderOf(file).phnum
  {
    OutOfFrames(s) ||
    (Loaded(s, dir, file, i) &&
     (q > 0 ==> i < HeaderOf(file).phnum && forall k: nat | k < q :: SegPageHolds(s, dir, file, i, k)))
  }

  // Page q of a segment, as the page loop computes it, is one the kernel has no table for.
  lemma SegmentPage(s0: State, file: seq<byte>, i: nat, q: nat, virt: nat, page: nat)
    requires WfElf(s0, file) && i < HeaderOf(file).phnum && IsLoad(file, i) && q < PageCount(Seg(file, i))
    requires virt == Seg(file, i).vaddr + q * FRAME_SIZE && page == Seg(file, i).vaddr / FRAME_SIZE + q
    ensures virt < WORD32 && virt / FRAME_SIZE == page && DirIndex(virt) == page / ENTRIES
    ensures !Present(Word(s0.mem, s0.kernel, page / ENTRIES))
  {
    QthPage(Seg(file, i), q);
    assert Covers(file, i, page);
  }

  lemma NextPage(s0: State, s: State, s': State, dir: nat, file: seq<byte>, i: nat, q: nat, page: nat, image: seq<byte>)
    requires WfElf(s0, file) && i < HeaderOf(file).phnum && IsLoad(file, i) && q < PageCount(Seg(file, i))
    requires !OutOfFrames(s) && Progress(s, dir, file, i, q)
    requires PagesKept(s, s') && (PageHolds(s'.mem, dir, page, image) || OutOfFrames(s'))
    requires page == Seg(file, i).vaddr / FRAME_SIZE + q && image == PageImage(file, Seg(file, i), q)
    requires forall p: nat | p != page :: Translate(s'.mem, dir, p) == Translate(s.mem, dir, p)
    ensures Progress(s', dir, file, i, q + 1)
  {
    if !OutOfFrames(s') {
      EarlierStay(s0, s, s', dir, file, i, q);
      assert SegPageHolds(s', dir, file, i, q);
    }
  }

  lemma QthPage(seg: Segment, q: nat)
    requires WfSegment(seg) && q < PageCount(seg)
    ensures seg.vaddr + q * FRAME_SIZE < WORD32
    ensures (seg.vaddr + q * FRAME_SIZE) / FRAME_SIZE == seg.vaddr / FRAME_SIZE + q
    ensures DirIndex(seg.vaddr + q * FRAME_SIZE) == (seg.vaddr / FRAME_SIZE + q) / ENTRIES
  {
    var v := seg.vaddr + q * 4096;
    assert v == 4096 * (seg.vaddr / 4096 + q);
    assert v / 4096 == seg.vaddr / 4096 + q;
    PageNumber(v);
  }

  // Putting page q of segment i leaves the pages put before it in place.
  lemma EarlierStay(s0: State, s: State, s': State, dir: nat, file: seq<byte>, i: nat, q: nat)
    requires WfElf(s0, file) && i < HeaderOf(file).phnum && IsLoad(file, i) && q < PageCount(Seg(file, i))
    requires Loaded(s, dir, file, i) && (forall k: nat | k < q :: SegPageHolds(s, dir, file, i, k))
    requires PagesKept(s, s')
    requires forall p: nat | p != Seg(file, i).vaddr / FRAME_SIZE + q ::
      Translate(s'.mem, dir, p) == Translate(s.mem, dir, p)
    ensures Loaded(s', dir, file, i) && forall k: nat | k < q :: SegPageHolds(s', dir, file, i, k)
  {
    var page := Seg(file, i).vaddr / FRAME_SIZE + q;
    assert Covers(file, i, page);
    forall j: nat, k: nat | j < i && IsLoad(file, j) && k < PageCount(Seg(file, j))
      ensures SegPageHolds(s', dir, file, j, k)
    {
      assert SegPageHolds(s, dir, file, j, k);
      assert Covers(file, j, Seg(file, j).vaddr / FRAME_SIZE + k);
      PageStays(s, s', dir, Seg(file, j).vaddr / FRAME_SIZE + k, PageImage(file, Seg(file, j), k));
    }
    forall k: nat | k < q
      ensures SegPageHolds(s', dir, file, i, k)
    {
      assert SegPageHolds(s, dir, file, i, k);
      PageStays(s, s', dir, Seg(file, i).vaddr / FRAME_SIZE + k, PageImage(file, Seg(file, i), k));
    }
  }

  // What the loop copies into page q: as many bytes as the file still provides.
  method PageData(file: seq<byte>, seg: Segment, j: nat, ghost q: nat) returns (data: seq<byte>)
    requires seg.offset + seg.filesz <= |file| && j == q * FRAME_SIZE
    ensures |data| <= FRAME_SIZE && Padded(data) == PageImage(file, seg, q)
  {
    var n := if seg.filesz > j then if seg.filesz - j < FRAME_SIZE then seg.filesz - j else FRAME_SIZE else 0;
    data := if n == 0 then [] else file[seg.offset + j..seg.offset + j + n];
    assert Padded(data) == PageImage(file, seg, q);
  }

  // A frame is left for page q of segment i.
  ghost predicate Affords(s0: State, dir: nat, file: seq<byte>, i: nat, q: nat)
    requires TableInFile(file) && i < HeaderOf(file).phnum
  {
    Spare(s0) > Cost(s0, dir, PagesAt(file, i, q), SlotsAt(file, i, q))
  }

  // And for the pages before q.
  ghost predicate AffordsTo(s0: State, dir: nat, file: seq<byte>, i: nat, q: nat)
    requires TableInFile(file) && i < HeaderOf(file).phnum
  {
    q > 0 ==> AffordsTo(s0, dir, file, i, q - 1) && Affords(s0, dir, file, i, q - 1)
  }

  lemma {:induction false} AffordsFewer(s0: State, dir: nat, file: seq<byte>, i: nat, q: nat, n: nat)
    requires TableInFile(file) && i < HeaderOf(file).phnum && q <= n && AffordsTo(s0, dir, file, i, n)
    ensures AffordsTo(s0, dir, file, i, q)
  {
    if q < n { AffordsFewer(s0, dir, file, i, q, n - 1); }
  }

  ghost predicate AffordsSegment(s0: State, dir: nat, file: seq<byte>, i: nat)
    requires TableInFile(file) && i < HeaderOf(file).phnum
  {
    AffordsTo(s0, dir, file, i, PageCount(Seg(file, i)))
  }

  // And for all pages of the first n program headers.
  ghost predicate AffordsAll(s0: State, dir: nat, file: seq<byte>, n: nat)
    requires TableInFile(file) && n <= HeaderOf(file).phnum
  {
    forall i | 0 <= i < n && IsLoad(file, i) :: AffordsSegment(s0, dir, file, i)
  }

  // The body of the page loop.
  method LoadPage(vmm: Vmm, dir: nat, file: seq<byte>, i: nat, j: nat, ghost q: nat, ghost s0: State) returns (ok: bool)
    requires vmm.Valid() && WfElf(s0, file) && i < HeaderOf(file).phnum && IsLoad(file, i)
    requires q < PageCount(Seg(file, i)) && j == q * FRAME_SIZE
    requires Seg(file, i).offset + Seg(file, i).filesz <= |file|
    requires Undisturbed(s0, vmm.Now(), dir) && Progress(vmm.Now(), dir, file, i, q) && dir in vmm.dirs
    requires dir != vmm.kernelDir
    requires Account(s0, vmm.Now(), dir, PagesAt(file, i, q), SlotsAt(file, i, q))
    modifies vmm.frames, vmm.frames.bitmap, vmm`mem
    ensures vmm.Valid() && Undisturbed(s0, vmm.Now(), dir)
    ensures ok ==> Progress(vmm.Now(), dir, file, i, q + 1)
    ensures ok ==> Account(s0, vmm.Now(), dir, PagesAt(file, i, q + 1), SlotsAt(file, i, q + 1))
    ensures ok <==> Affords(s0, dir, file, i, q)
    ensures !ok ==> OutOfFrames(vmm.Now())
  {
    var seg := Seg(file, i);
    ghost var s := vmm.Now();
    var data := PageData(file, seg, j, q);
    ghost var page := seg.vaddr / FRAME_SIZE + q;
    var virt := seg.vaddr + j;
    SegmentPage(s0, file, i, q, virt, page);
    ghost var pages, slots := PagesAt(file, i, q), SlotsAt(file, i, q);
    ok := FillAndMap(vmm, dir, virt, data, page, s0, pages, slots);
    if ok {
      OutIsNone(s);
      NextPage(s0, s, vmm.Now(), dir, file, i, q, page, Padded(data));
      AccountNext(s0, vmm.Now(), dir, file, i, q, page);
    }
  }

  /** One PT_LOAD header. -11 when it reaches past the file, -9 when the frames do not last for all its
      pages. */
  method LoadSegment(vmm: Vmm, dir: nat, file: seq<byte>, i: nat, ghost s0: State) returns (r: int)
    requires vmm.Valid() && WfElf(s0, file) && i < HeaderOf(file).phnum && IsLoad(file, i)
    requires Undisturbed(s0, vmm.Now(), dir) && Progress(vmm.Now(), dir, file, i, 0) && dir in vmm.dirs
    requires dir != vmm.kernelDir
    requires Account(s0, vmm.Now(), dir, PagesBefore(file, i), SlotsBefore(file, i))
    modifies vmm.frames, vmm.frames.bitmap, vmm`mem
    ensures vmm.Valid() && Undisturbed(s0, vmm.Now(), dir)
    ensures r == 0 ==> Progress(vmm.Now(), dir, file, i + 1, 0) && Seg(file, i).offset + Seg(file, i).filesz <= |file|
    ensures r == 0 ==> Account(s0, vmm.Now(), dir, PagesBefore(file, i + 1), SlotsBefore(file, i + 1))
    ensures r == -11 <==> Seg(file, i).offset + Seg(file, i).filesz > |file|
    ensures r == -11 ==> vmm.Now() == old(vmm.Now())
    ensures r == 0 ==> AffordsSegment(s0, dir, file, i)
    ensures r == 0 || r == -11 || (r == -9 && OutOfFrames(vmm.Now()) && !AffordsSegment(s0, dir, file, i))
  {
    var seg := Seg(file, i);
    if Add32(seg.offset, seg.filesz) > |file| { return -11; }
    NextHeader(file, i);
    var ok := LoadPages(vmm, dir, file, i, s0);
    if !ok { return -9; }
    SegmentDone(vmm.Now(), dir, file, i, PageCount(seg));
    return 0;
  }

  lemma Unaffordable(s0: State, dir: nat, file: seq<byte>, i: nat, q: nat)
    requires TableInFile(file) && i < HeaderOf(file).phnum && q < PageCount(Seg(file, i))
    requires !Affords(s0, dir, file, i, q)
    ensures !AffordsSegment(s0, dir, file, i)
  {
    if AffordsSegment(s0, dir, file, i) { AffordsFewer(s0, dir, file, i, q + 1, PageCount(Seg(file, i))); }
  }

  // The page loop.
  method LoadPages(vmm: Vmm, dir: nat, file: seq<byte>, i: nat, ghost s0: State) returns (ok: bool)
    requires vmm.Valid() && WfElf(s0, file) && i < HeaderOf(file).phnum && IsLoad(file, i)
    requires Seg(file, i).offset + Seg(file, i).filesz <= |file|
    requires Undisturbed(s0, vmm.Now(), dir) && Progress(vmm.Now(), dir, file, i, 0) && dir in vmm.dirs
    requires dir != vmm.kernelDir
    requires Account(s0, vmm.Now(), dir, PagesAt(file, i, 0), SlotsAt(file, i, 0))
    modifies vmm.frames, vmm.frames.bitmap, vmm`mem
    ensures vmm.Valid() && Undisturbed(s0, vmm.Now(), dir)
    ensures ok <==> AffordsSegment(s0, dir, file, i)
    ensures !ok ==> OutOfFrames(vmm.Now())
    ensures var q := PageCount(Seg(file, i));
      ok ==>
        && Progress(vmm.Now(), dir, file, i, q)
        && Account(s0, vmm.Now(), dir, PagesAt(file, i, q), SlotsAt(file, i, q))
  {
    var j := 0;
    ghost var q := 0;
    while j < Seg(file, i).memsz
      invariant j == q * FRAME_SIZE && q <= PageCount(Seg(file, i))
      invariant vmm.Valid() && Undisturbed(s0, vmm.Now(), dir) && Progress(vmm.Now(), dir, file, i, q)
      invariant Account(s0, vmm.Now(), dir, PagesAt(file, i, q), SlotsAt(file, i, q))
      invariant AffordsTo(s0, dir, file, i, q)
      invariant vmm.dirs == old(vmm.dirs) && vmm.kernelDir == old(vmm.kernelDir)
      decreases PageCount(Seg(file, i)) - q
    {
      assert q < PageCount(Seg(file, i));
      ok := LoadPage(vmm, dir, file, i, j, q, s0);
      if !ok {
        Unaffordable(s0, dir, file, i, q);
        return;
      }
      j := j + FRAME_SIZE;
      q := q + 1;
    }
    assert q == PageCount(Seg(file, i));
    return true;
  }

  lemma SegmentDone(s: State, dir: nat, file: seq<byte>, i: nat, q: nat)
    requires TableInFile(file) && i < HeaderOf(file).phnum && Progress(s, dir, file, i, q)
    requires q >= PageCount(Seg(file, i))
    ensures Progress(s, dir, file, i + 1, 0)
  {
    if !OutOfFrames(s) {
      forall j: nat, k: nat | j < i + 1 && IsLoad(file, j) && k < PageCount(Seg(file, j))
        ensures SegPageHolds(s, dir, file, j, k)
      {}
    }
  }

  // Segment i reaches past the end of the file.
  predicate Outside(file: seq<byte>, i: nat)
    requires TableInFile(file) && i < HeaderOf(file).phnum
  {
    IsLoad(file, i) && Seg(file, i).offset + Seg(file, i).filesz > |file|
  }

  // Every loadable segment lies in the file.
  ghost predicate SegmentsInFile(file: seq<byte>, n: nat)
    requires TableInFile(file) && n <= HeaderOf(file).phnum
  {
    forall i | 0 <= i < n :: !Outside(file, i)
  }

  // The first segment outside the file, at which the loop gives up.
  function FirstOutside(file: seq<byte>, from: nat): (i: nat)
    requires TableInFile(file) && from <= HeaderOf(file).phnum
    ensures from <= i <= HeaderOf(file).phnum
    ensures i < HeaderOf(file).phnum ==> Outside(file, i)
    ensures forall j | from <= j < i :: !Outside(file, j)
    decreases HeaderOf(file).phnum - from
  {
    if from == HeaderOf(file).phnum || Outside(file, from) then from else FirstOutside(file, from + 1)
  }

  // The result of loading: -9 if the frames do not last for the pages before the first segment outside
  // the file, -11 if there is one, -12 if none is left for the stack.
  ghost function LoadCode(s0: State, dir: nat, file: seq<byte>): int
    requires TableInFile(file)
  {
    var i := FirstOutside(file, 0);
    if !AffordsAll(s0, dir, file, i) then -9
    else if i < HeaderOf(file).phnum then -11
    else if Spare(s0) < StartCost(s0, dir, file) then -12
    else 0
  }

  // It succeeds just when the segments lie in the file and the frames cover the whole.
  lemma LoadsIff(s0: State, dir: nat, file: seq<byte>)
    requires TableInFile(file)
    ensures LoadCode(s0, dir, file) == 0 <==>
      SegmentsInFile(file, HeaderOf(file).phnum) && Spare(s0) >= StartCost(s0, dir, file)
  {
    InsideIff(file);
    if Spare(s0) >= StartCost(s0, dir, file) { AffordsWhole(s0, dir, file); }
  }

  lemma InsideIff(file: seq<byte>)
    requires TableInFile(file)
    ensures FirstOutside(file, 0) == HeaderOf(file).phnum <==> SegmentsInFile(file, HeaderOf(file).phnum)
  {
    var (n, i) := (HeaderOf(file).phnum, FirstOutside(file, 0));
    if i == n { assert forall j | 0 <= j < n :: !Outside(file, j); } else { assert Outside(file, i); }
  }

  lemma AffordsWhole(s0: State, dir: nat, file: seq<byte>)
    requires TableInFile(file) && Spare(s0) >= StartCost(s0, dir, file)
    ensures AffordsAll(s0, dir, file, HeaderOf(file).phnum)
  {
    forall i | 0 <= i < HeaderOf(file).phnum && IsLoad(file, i) ensures AffordsSegment(s0, dir, file, i) {
      AffordsPart(s0, dir, file, i, PageCount(Seg(file, i)));
    }
  }

  lemma {:induction false} AffordsPart(s0: State, dir: nat, file: seq<byte>, i: nat, q: nat)
    requires TableInFile(file) && i < HeaderOf(file).phnum && IsLoad(file, i) && q <= PageCount(Seg(file, i))
    requires Spare(s0) >= StartCost(s0, dir, file)
    ensures AffordsTo(s0, dir, file, i, q)
  {
    if q > 0 {
      AffordsPart(s0, dir, file, i, q - 1);
      CostOfPart(s0, dir, file, i, q - 1);
    }
  }

  // The frames left out of so many, by the result, when the whole takes full frames and what comes
  // before the segment outside the file takes part: nothing is ever given back.
  function Left(r: int, spare: nat, full: nat, part: nat): nat {
    if r >= 0 || r == -10 then Monus(spare, full) else if r == -11 then Monus(spare, part) else 0
  }

  lemma OneMoreFrame(r: int, spare: nat, full: nat, part: nat)
    requires spare > 0
    ensures Left(r, spare - 1, full, part) == Left(r, spare, full + 1, part + 1)
  {
  }

  // What loading leaves free, in a space there is already.
  ghost function LoadLeaves(s0: State, dir: nat, file: seq<byte>, r: int): nat
    requires TableInFile(file)
  {
    var i := FirstOutside(file, 0);
    Left(r, Spare(s0), FullCost(s0, dir, file), Cost(s0, dir, PagesBefore(file, i), SlotsBefore(file, i)))
  }

  // What exec leaves free once it has begun to build a space.
  ghost function ExecLeaves(file: seq<byte>, spare: nat, r: int): nat
    requires TableInFile(file)
  {
    var i := FirstOutside(file, 0);
    Left(r, spare, FullBudget(file), PagesBefore(file, i) + |SlotsBefore(file, i)| + 1)
  }

  // The frame of the directory comes on top.
  lemma LeavesInNewSpace(s: State, file: seq<byte>, r: int)
    requires Inv(s) && WfElf(s, file) && CreateSpace(s).1 != 0
    ensures var (s', dir) := CreateSpace(s);
      LoadLeaves(s', dir, file, r) == ExecLeaves(file, Spare(s), r)
  {
    var ((s', dir), i) := (CreateSpace(s), FirstOutside(file, 0));
    NewSpaceCost(s, file);
    NewSpaceAbsent(s, file, i);
    OneMoreFrame(r, Spare(s), FullCost(s', dir, file), PagesBefore(file, i) + |SlotsBefore(file, i)|);
  }

  /** The two loops of exec_elf_from_disk over a space of its own. They succeed if and only if the
      segments lie in the file and the frames free before the call cover the pages, the tables the
      space lacks for them and one frame for the stack; all segments are then in place, and the
      stack page is too if and only if the frames covered its table as well. No other space is
      touched, whatever the outcome, and the frames taken stay taken. */
  method LoadImage(vmm: Vmm, dir: nat, file: seq<byte>) returns (r: int)
    requires vmm.Valid() && WfElf(vmm.Now(), file) && dir in vmm.dirs && dir != vmm.kernelDir
    modifies vmm.frames, vmm.frames.bitmap, vmm`mem
    ensures vmm.Valid() && Undisturbed(old(vmm.Now()), vmm.Now(), dir)
    ensures r == LoadCode(old(vmm.Now()), dir, file)
    ensures r == 0 <==>
      SegmentsInFile(file, HeaderOf(file).phnum) && Spare(old(vmm.Now())) >= StartCost(old(vmm.Now()), dir, file)
    ensures r == 0 ==>
      && Loaded(vmm.Now(), dir, file, HeaderOf(file).phnum)
      && HoldsOrNone(vmm.mem, dir, STACK_PAGE, Zeros(FRAME_SIZE),
                     Spare(old(vmm.Now())) >= FullCost(old(vmm.Now()), dir, file))
      && (UserTables(old(vmm.Now()), dir) ==> Opened(vmm.Now(), dir, file))
    ensures Spare(vmm.Now()) == LoadLeaves(old(vmm.Now()), dir, file, r)
  {
    ghost var s0 := vmm.Now();
    LoadsIff(s0, dir, file);
    r := LoadSegments(vmm, dir, file, s0);
    if r == 0 { r := MapStack(vmm, dir, file, s0); }
    if r == 0 && UserTables(s0, dir) { OpenedByLoading(s0, vmm.Now(), dir, file); }
  }

  // The program can read and write every page of its segments, and its stack if that is there.
  ghost predicate Opened(s: State, dir: nat, file: seq<byte>)
    requires TableInFile(file)
  {
    && (forall i: nat, p: nat | Covers(file, i, p) :: Accessible(s.mem, dir, p))
    && (Translate(s.mem, dir, STACK_PAGE) != None ==> Accessible(s.mem, dir, STACK_PAGE))
  }

  lemma OpenedByLoading(s0: State, s: State, dir: nat, file: seq<byte>)
    requires WfElf(s0, file) && Undisturbed(s0, s, dir) && UserTables(s, dir)
    requires Loaded(s, dir, file, HeaderOf(file).phnum)
    requires exists holds :: HoldsOrNone(s.mem, dir, STACK_PAGE, Zeros(FRAME_SIZE), holds)
    ensures Opened(s, dir, file)
  {
    forall i: nat, p: nat | Covers(file, i, p) ensures Accessible(s.mem, dir, p) {
      var q := p - Seg(file, i).vaddr / FRAME_SIZE;
      assert SegPageHolds(s, dir, file, i, q);
      HeldIsAccessible(s, dir, p, PageImage(file, Seg(file, i), q));
    }
    if Translate(s.mem, dir, STACK_PAGE) != None { HeldIsAccessible(s, dir, STACK_PAGE, Zeros(FRAME_SIZE)); }
  }

  // The first of the two.
  method LoadSegments(vmm: Vmm, dir: nat, file: seq<byte>, ghost s0: State) returns (r: int)
    requires vmm.Valid() && s0 == vmm.Now() && WfElf(s0, file) && dir in vmm.dirs && dir != vmm.kernelDir
    modifies vmm.frames, vmm.frames.bitmap, vmm`mem
    ensures vmm.Valid() && Undisturbed(s0, vmm.Now(), dir)
    ensures r == 0 ==>
      && SegmentsInFile(file, HeaderOf(file).phnum) && Progress(vmm.Now(), dir, file, HeaderOf(file).phnum, 0)
      && Account(s0, vmm.Now(), dir, Pages(file), Slots(file))
    ensures r == if LoadCode(s0, dir, file) == -12 then 0 else LoadCode(s0, dir, file)
    ensures r != 0 ==> Spare(vmm.Now()) == LoadLeaves(s0, dir, file, r)
  {
    for i := 0 to HeaderOf(file).phnum
      invariant vmm.Valid() && vmm.dirs == old(vmm.dirs) && vmm.kernelDir == old(vmm.kernelDir)
      invariant Undisturbed(s0, vmm.Now(), dir) && Progress(vmm.Now(), dir, file, i, 0) && SegmentsInFile(file, i)
      invariant Account(s0, vmm.Now(), dir, PagesBefore(file, i), SlotsBefore(file, i)) && AffordsAll(s0, dir, file, i)
    {
      if Read32(file, PhdrAt(file, i)) != PT_LOAD {
        SkipSegment(vmm.Now(), dir, file, i);
        NextHeader(file, i);
        continue;
      }
      r := LoadSegment(vmm, dir, file, i, s0);
      if r != 0 {
        OutIsNone(vmm.Now());
        GaveUp(s0, vmm.Now(), dir, file, i, r);
        return;
      }
    }
    InsideIff(file);
    return 0;
  }

  // What it means that a header is refused, or the frames are gone.
  lemma GaveUp(s0: State, s: State, dir: nat, file: seq<byte>, i: nat, r: int)
    requires TableInFile(file) && i < HeaderOf(file).phnum && IsLoad(file, i)
    requires SegmentsInFile(file, i) && AffordsAll(s0, dir, file, i)
    requires if r == -11 then Outside(file, i) && Account(s0, s, dir, PagesBefore(file, i), SlotsBefore(file, i))
      else r == -9 && Spare(s) == 0 && !Outside(file, i) && !AffordsSegment(s0, dir, file, i)
    ensures r == LoadCode(s0, dir, file) && Spare(s) == LoadLeaves(s0, dir, file, r)
  {
    assert forall j | 0 <= j < i :: !Outside(file, j);
    if r == -11 { assert FirstOutside(file, 0) == i; } else { assert FirstOutside(file, 0) > i; }
  }

  lemma SkipSegment(s: State, dir: nat, file: seq<byte>, i: nat)
    requires TableInFile(file) && i < HeaderOf(file).phnum && !IsLoad(file, i)
    requires Progress(s, dir, file, i, 0) && SegmentsInFile(file, i)
    ensures Progress(s, dir, file, i + 1, 0) && SegmentsInFile(file, i + 1)
  {
  }

  method MapStack(vmm: Vmm, dir: nat, file: seq<byte>, ghost s0: State) returns (r: int)
    requires vmm.Valid() && WfElf(s0, file) && dir in vmm.dirs && dir != vmm.kernelDir
    requires Undisturbed(s0, vmm.Now(), dir) && Progress(vmm.Now(), dir, file, HeaderOf(file).phnum, 0)
    requires Account(s0, vmm.Now(), dir, Pages(file), Slots(file))
    modifies vmm.frames, vmm.frames.bitmap, vmm`mem
    ensures vmm.Valid() && Undisturbed(s0, vmm.Now(), dir)
    ensures r == if Spare(s0) >= StartCost(s0, dir, file) then 0 else -12
    ensures Spare(vmm.Now()) == LoadLeaves(s0, dir, file, r)
    ensures r == 0 ==>
      && Loaded(vmm.Now(), dir, file, HeaderOf(file).phnum)
      && HoldsOrNone(vmm.mem, dir, STACK_PAGE, Zeros(FRAME_SIZE), Spare(s0) >= FullCost(s0, dir, file))
  {
    ghost var s := vmm.Now();
    assert Padded([]) == Zeros(FRAME_SIZE);
    CostOfOne(s0, dir, Pages(file), Slots(file), STACK_SLOT);
    OutIsNone(s);
    var ok := FillAndMap(vmm, dir, STACK_TOP - FRAME_SIZE, [], STACK_PAGE, s0, Pages(file), Slots(file));
    OutIsNone(vmm.Now());
    if !ok { return -12; }
    StackKeepsSegments(s, vmm.Now(), dir, file, s0);
    return 0;
  }

  lemma StackKeepsSegments(s: State, s': State, dir: nat, file: seq<byte>, s0: State)
    requires WfElf(s0, file) && Loaded(s, dir, file, HeaderOf(file).phnum) && PagesKept(s, s')
    requires forall p: nat | p != STACK_PAGE :: Translate(s'.mem, dir, p) == Translate(s.mem, dir, p)
    ensures Loaded(s', dir, file, HeaderOf(file).phnum)
  {
    forall i: nat, q: nat | i < HeaderOf(file).phnum && IsLoad(file, i) && q < PageCount(Seg(file, i))
      ensures SegPageHolds(s', dir, file, i, q)
    {
      assert SegPageHolds(s, dir, file, i, q);
      assert Covers(file, i, Seg(file, i).vaddr / FRAME_SIZE + q);
      PageStays(s, s', dir, Seg(file, i).vaddr / FRAME_SIZE + q, PageImage(file, Seg(file, i), q));
    }
  }
}
