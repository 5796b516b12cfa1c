// Why exec returns what it returns, in terms of what a caller could look up before the call.

module ExecCodes {
  import opened Bits
  import L = TetFsLayout
  import F = TetFsSpec
  import FP = TetFsProofs
  import H = HeapSpec
  import opened Frames
  import P = Paging
  import opened Elf
  import opened Budget
  import opened Loader
  import S = SchedSpec
  import SchedLaws
  import opened Exec

  // So many frames last for the directory and the pages of the first n program headers, the tables they
  // need on the way included.
  ghost predicate Lasts(file: seq<byte>, spare: nat, n: nat)
    requires TableInFile(file) && n <= HeaderOf(file).phnum
  {
    forall i, q | 0 <= i < n && IsLoad(file, i) && 0 <= q < PageCount(Seg(file, i)) :: LastsFor(file, spare, i, q)
  }

  ghost predicate LastsFor(file: seq<byte>, spare: nat, i: nat, q: nat)
    requires TableInFile(file) && i < HeaderOf(file).phnum
  {
    spare > 1 + PagesBefore(file, i) + q + |SlotsAt(file, i, q)|
  }

  lemma SlotIsAbsent(s: P.State, file: seq<byte>, i: nat, q: nat, j: nat)
    requires P.Inv(s) && WfElf(s, file) && P.CreateSpace(s).1 != 0
    requires i < HeaderOf(file).phnum && IsLoad(file, i) && q < PageCount(Seg(file, i)) && j in SlotsAt(file, i, q)
    ensures var (s1, dir) := P.CreateSpace(s); !P.Present(P.Word(s1.mem, dir, j))
  {
    var (s1, dir) := P.CreateSpace(s);
    P.NewFrame(s);
    SlotsGrow(Seg(file, i).vaddr / FRAME_SIZE, q, PageCount(Seg(file, i)));
    assert j in SlotsBefore(file, i + 1);
    SlotsAreFree(s, file, i + 1, j);
    assert P.Word(s1.mem, dir, j) == P.Word(s.mem, s.kernel, j);
  }

  // A space just created affords a page just when the frames last for it.
  lemma AffordsIffLasts(s: P.State, file: seq<byte>, i: nat, q: nat)
    requires P.Inv(s) && WfElf(s, file) && P.CreateSpace(s).1 != 0
    requires i < HeaderOf(file).phnum && IsLoad(file, i) && q < PageCount(Seg(file, i))
    ensures var (s1, dir) := P.CreateSpace(s);
      Affords(s1, dir, file, i, q) <==> LastsFor(file, Spare(s), i, q)
  {
    var ((s1, dir), slots) := (P.CreateSpace(s), SlotsAt(file, i, q));
    forall j | j in slots ensures !P.Present(P.Word(s1.mem, dir, j)) { SlotIsAbsent(s, file, i, q, j); }
    NewSpaceCost(s, file);
    CostOfAbsent(s1, dir, PagesBefore(file, i) + q, slots);
  }

  lemma CostOfAbsent(s: P.State, dir: nat, pages: nat, slots: set<nat>)
    requires forall j | j in slots :: !P.Present(P.Word(s.mem, dir, j))
    ensures Cost(s, dir, pages, slots) == pages + |slots|
  {
    assert Absent(s, dir, slots) == slots;
  }

  lemma {:induction false} AffordsEach(s0: P.State, dir: nat, file: seq<byte>, i: nat, n: nat)
    requires TableInFile(file) && i < HeaderOf(file).phnum
    ensures AffordsTo(s0, dir, file, i, n) <==> forall q | 0 <= q < n :: Affords(s0, dir, file, i, q)
  {
    if n > 0 { AffordsEach(s0, dir, file, i, n - 1); }
  }

  lemma AffordsAsLasts(s: P.State, file: seq<byte>, n: nat)
    requires P.Inv(s) && WfElf(s, file) && P.CreateSpace(s).1 != 0 && n <= HeaderOf(file).phnum
    ensures var (s1, dir) := P.CreateSpace(s);
      AffordsAll(s1, dir, file, n) <==> Lasts(file, Spare(s), n)
  {
    var (s1, dir) := P.CreateSpace(s);
    forall i | 0 <= i < n && IsLoad(file, i)
      ensures AffordsSegment(s1, dir, file, i) <==>
        forall q | 0 <= q < PageCount(Seg(file, i)) :: LastsFor(file, Spare(s), i, q)
    {
      AffordsEach(s1, dir, file, i, PageCount(Seg(file, i)));
      forall q | 0 <= q < PageCount(Seg(file, i))
        ensures Affords(s1, dir, file, i, q) <==> LastsFor(file, Spare(s), i, q)
      {
        AffordsIffLasts(s, file, i, q);
      }
    }
  }

  /** Building the space: -8 without a frame for the directory; -9 when the frames do not last for the
      pages before the first segment outside the file; -11 when they do and there is such a segment; -12
      when they do and there is none, but no frame for the stack. */
  lemma SpaceCodeMeans(s: P.State, file: seq<byte>, i: nat)
    requires P.Inv(s) && WfElf(s, file) && i <= HeaderOf(file).phnum
    requires (i < HeaderOf(file).phnum ==> Outside(file, i)) && forall j | 0 <= j < i :: !Outside(file, j)
    ensures var (r, spare, n) := (SpaceCode(s, file), Spare(s), HeaderOf(file).phnum);
      && (r == -8 <==> spare == 0)
      && (r == -9 <==> spare > 0 && !Lasts(file, spare, i))
      && (r == -11 <==> spare > 0 && Lasts(file, spare, i) && i < n)
      && (r == -12 <==> spare > 0 && Lasts(file, spare, i) && i == n && spare < StartBudget(file))
      && (r == 0 <==> spare > 0 && Lasts(file, spare, i) && i == n && spare >= StartBudget(file))
  {
    var (s1, dir) := P.CreateSpace(s);
    assert FirstOutside(file, 0) == i;
    NewSpaceCost(s, file);
    if dir != 0 { AffordsAsLasts(s, file, i); }
  }

  // A file of that name in the root directory.
  ghost predicate There(v: L.View, name: seq<byte>)
    requires F.Inv(v)
  {
    exists i: nat :: F.Named(F.TableOf(v), i, name, L.ROOT_INODE)
  }

  ghost predicate BufferFor(heap: seq<H.Block>, size: nat) { exists b :: b in heap && !b.used && b.size >= size }

  lemma BufferIff(heap: seq<H.Block>, size: nat)
    requires H.Tiles(heap)
    ensures H.Malloc(heap, size).1 != 0 <==> BufferFor(heap, size)
  {
    H.MallocStep(heap, size);
    if BufferFor(heap, size) {
      var b :| b in heap && !b.used && b.size >= size;
      assert H.Fits(b, size);
    } else {
      forall b | b in heap ensures !H.Fits(b, size) {}
    }
  }

  // The result from the magic number on: -6 without it, -7 for program headers past the end, the code of the
  // space if that cannot be built, -10 without a process slot or room for a stack, and the pid.
  ghost predicate RunCodeIs(r: int, file: seq<byte>, s: P.State, t: S.Sched)
    requires P.Inv(s)
  {
    if |file| < 52 || Read32(file, 0) != 0x464C457F then r == -6
    else if HeaderOf(file).phoff + HeaderOf(file).phnum * HeaderOf(file).phentsize > |file| then r == -7
    else if !TableInFile(file) then false
    else if SpaceCode(s, file) != 0 then r == SpaceCode(s, file)
    else if SchedLaws.Refused(t) then r == -10
    else r == t.nextPid
  }

  /** What stops exec before it builds a space: -2 no such file, -3 one shorter than an ELF header, -4 no
      room for a buffer, -5 not a file, -6 no magic number, -7 program headers past the end; and -10, after
      the space is built, no process slot or no room for a stack. */
  lemma ResultMeans(v: L.View, name: seq<byte>, s: P.State, t: S.Sched, i: nat)
    requires F.Inv(v) && P.Inv(s) && S.Inv(t)
    requires There(v, name) ==>
      && F.Named(F.TableOf(v), i, name, L.ROOT_INODE)
      && forall j: nat | j < i :: !F.Named(F.TableOf(v), j, name, L.ROOT_INODE)
    requires There(v, name) && v.inodes[i].kind == L.TYPE_FILE ==> Sound(s, F.TableOf(v)[i].content)
    ensures var r := Result(v, name, s, t);
      if !There(v, name) then r == -2
      else
        var (size, file) := (v.inodes[i].size, F.TableOf(v)[i].content);
        if size < 52 then r == -3
        else if !BufferFor(t.heap, size) then r == -4
        else if v.inodes[i].kind != L.TYPE_FILE then r == -5
        else RunCodeIs(r, file, s, WithBuffer(t, size))
  {
    FP.FindIsNamed(v, name, L.ROOT_INODE);
    if There(v, name) {
      FoundIs(v, name, i);
      assert F.TableOf(v)[i] == F.EntryOf(v, i);
      FileCodeMeans(v, i, s, t);
    }
  }

  // Once the inode is found.
  lemma FileCodeMeans(v: L.View, i: nat, s: P.State, t: S.Sched)
    requires F.Inv(v) && F.Live(v, i) && P.Inv(s) && S.Inv(t)
    requires v.inodes[i].kind == L.TYPE_FILE ==> Sound(s, FileOf(v, i))
    ensures var (r, size, file) := (FileCode(v, i, s, t), v.inodes[i].size, FileOf(v, i));
      if !BufferFor(t.heap, size) then r == -4
      else if v.inodes[i].kind != L.TYPE_FILE then r == -5
      else r == ExecCode(file, s, WithBuffer(t, size)) && RunCodeIs(r, file, s, WithBuffer(t, size))
  {
    var size := v.inodes[i].size;
    BufferIff(t.heap, size);
    if H.Malloc(t.heap, size).1 != 0 {
      S.AllocateKeeps(t, size);
      if v.inodes[i].kind == L.TYPE_FILE { RunCodeMeans(FileOf(v, i), s, WithBuffer(t, size)); }
    }
  }

  // From the magic number on.
  lemma RunCodeMeans(file: seq<byte>, s: P.State, t: S.Sched)
    requires P.Inv(s) && S.Inv(t) && Sound(s, file)
    ensures RunCodeIs(ExecCode(file, s, t), file, s, t)
  {
    SchedLaws.CreateAdds(t, true, S.Ready);
  }

  lemma FoundIs(v: L.View, name: seq<byte>, i: nat)
    requires F.Inv(v) && F.Named(F.TableOf(v), i, name, L.ROOT_INODE)
    requires forall j: nat | j < i :: !F.Named(F.TableOf(v), j, name, L.ROOT_INODE)
    ensures F.Find(v, name, L.ROOT_INODE, 1) == i && F.Live(v, i)
  {
    var t := F.TableOf(v);
    assert forall j: nat ::
      F.Named(t, j, name, L.ROOT_INODE) <==> j != L.ROOT_INODE && F.Matches(v, j, name, L.ROOT_INODE);
    var r := F.Find(v, name, L.ROOT_INODE, 1);
    assert F.Matches(v, i, name, L.ROOT_INODE);
    assert F.Named(t, r, name, L.ROOT_INODE);
  }
}
