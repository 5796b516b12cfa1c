// How many frames an ELF file takes, and what the loader does with just so many, or fewer.

module Budget {
  import opened Bits
  import opened Frames
  import opened Paging
  import opened Spaces
  import opened Elf

  // The directory slots of the pages from first on, q of them.
  function SlotsTo(first: nat, q: nat): set<nat> {
    if q == 0 then {} else SlotsTo(first, q - 1) + {(first + q - 1) / ENTRIES}
  }

  // The pages, and the directory slots, of the first i program headers.
  function PagesBefore(file: seq<byte>, i: nat): nat
    requires TableInFile(file) && i <= HeaderOf(file).phnum
  {
    if i == 0 then 0 else PagesBefore(file, i - 1) + if IsLoad(file, i - 1) then PageCount(Seg(file, i - 1)) else 0
  }

  function SlotsBefore(file: seq<byte>, i: nat): set<nat>
    requires TableInFile(file) && i <= HeaderOf(file).phnum
  {
    if i == 0 then {} else SlotsBefore(file, i - 1) + SlotsOf(file, i - 1)
  }

  function SlotsOf(file: seq<byte>, i: nat): set<nat>
    requires TableInFile(file) && i < HeaderOf(file).phnum
  {
    if IsLoad(file, i) then SlotsTo(Seg(file, i).vaddr / FRAME_SIZE, PageCount(Seg(file, i))) else {}
  }

  const STACK_SLOT := STACK_PAGE / ENTRIES

  function Pages(file: seq<byte>): nat
    requires TableInFile(file)
  {
    PagesBefore(file, HeaderOf(file).phnum)
  }

  function Slots(file: seq<byte>): set<nat>
    requires TableInFile(file)
  {
    SlotsBefore(file, HeaderOf(file).phnum)
  }

  // Frames for a new space with all segments and a frame for the stack page: what it takes to start.
  function StartBudget(file: seq<byte>): nat
    requires TableInFile(file)
  {
    1 + Pages(file) + |Slots(file)| + 1
  }

  // And a table for the stack page, if no segment shares its slot.
  function FullBudget(file: seq<byte>): nat
    requires TableInFile(file)
  {
    1 + Pages(file) + |Slots(file) + {STACK_SLOT}| + 1
  }

  // ---- the account ----

  // Of these slots, the ones the space had no table for at the start.
  ghost function Absent(s0: State, dir: nat, slots: set<nat>): set<nat> {
    set j | j in slots && !Present(Word(s0.mem, dir, j))
  }

  // What pages and tables for these slots take.
  ghost function Cost(s0: State, dir: nat, pages: nat, slots: set<nat>): nat {
    pages + |Absent(s0, dir, slots)|
  }

  ghost function Spare(s: State): nat { FreeCount(s.used) }

  // The space has a table exactly for what it had one for and for these slots.
  ghost predicate Tabled(s0: State, s: State, dir: nat, slots: set<nat>) {
    forall j: nat :: Present(Word(s.mem, dir, j)) <==> Present(Word(s0.mem, dir, j)) || j in slots
  }

  function Monus(a: nat, b: nat): nat { if a >= b then a - b else 0 }

  // After the page loop has asked for so many pages in these slots: the frames are exactly so many
  // less, or were not enough and are gone.
  ghost predicate Account(s0: State, s: State, dir: nat, pages: nat, slots: set<nat>) {
    if Spare(s0) >= Cost(s0, dir, pages, slots)
    then Spare(s) == Spare(s0) - Cost(s0, dir, pages, slots) && Tabled(s0, s, dir, slots)
    else Spare(s) == 0
  }

  lemma CostOfOne(s0: State, dir: nat, pages: nat, slots: set<nat>, j: nat)
    ensures Cost(s0, dir, pages + 1, slots + {j}) ==
      Cost(s0, dir, pages, slots) + 1 + if j in slots || Present(Word(s0.mem, dir, j)) then 0 else 1
  {
    if j in slots || Present(Word(s0.mem, dir, j)) {
      assert Absent(s0, dir, slots + {j}) == Absent(s0, dir, slots);
    } else {
      assert Absent(s0, dir, slots + {j}) == Absent(s0, dir, slots) + {j};
    }
  }

  lemma OutIsNone(s: State)
    requires Inv(s)
    ensures OutOfFrames(s) <==> Spare(s) == 0
  {
    assert 0 in Below(RESERVED_END / FRAME_SIZE);
    AllocCounts(s.used);
  }

  // Mapping takes a frame when the slot has no table.
  lemma MapPageCounts(s: State, dir: nat, virt: nat, frame: nat)
    requires Inv(s) && dir in s.dirs && virt < WORD32
    ensures var (s', ok) := MapPage(s, dir, virt, frame, USER_FLAGS, true);
      var had := Present(Word(s.mem, dir, DirIndex(virt)));
      && (ok <==> had || Spare(s) > 0) && Spare(s') == Spare(s) - (if had || Spare(s) == 0 then 0 else 1)
      && (forall j: nat ::
            Present(Word(s'.mem, dir, j)) <==> Present(Word(s.mem, dir, j)) || (ok && j == DirIndex(virt)))
  {
    var i := DirIndex(virt);
    assert 0 in Below(RESERVED_END / FRAME_SIZE);
    AllocCounts(s.used);
    NewFrame(s);
    EnsureTableKeeps(s, dir, i, true);
    var s1 := EnsureTable(s, dir, i, true).0;
    if Present(Word(s.mem, dir, i)) || Spare(s) > 0 {
      var t := Base(Word(s1.mem, dir, i));
      assert Reaches(s1, dir, i, t);
      SetEntryKeeps(s1, t, TableIndex(virt), PageEntry(frame, USER_FLAGS));
    }
  }

  /** One turn of the page loop keeps the account. */
  lemma PutPageCounts(s0: State, s: State, dir: nat, virt: nat, image: seq<byte>, pages: nat, slots: set<nat>)
    requires Inv(s) && dir in s.dirs && virt < WORD32 && Account(s0, s, dir, pages, slots)
    ensures var (s', ok) := PutPage(s, dir, virt, image);
      Account(s0, s', dir, pages + 1, slots + {DirIndex(virt)}) && (ok <==> Spare(s) > 0)
  {
    var i := DirIndex(virt);
    CostOfOne(s0, dir, pages, slots, i);
    AddPageKeeps(s, image);
    var (s1, frame) := AddPage(s, image);
    assert 0 in Below(RESERVED_END / FRAME_SIZE);
    AllocCounts(s.used);
    if frame != 0 { MapPageCounts(s1, dir, virt, frame); }
  }

  // ---- the whole file ----

  // The pages and slots asked for before page q of segment i.
  function PagesAt(file: seq<byte>, i: nat, q: nat): nat
    requires TableInFile(file) && i <= HeaderOf(file).phnum
  {
    PagesBefore(file, i) + q
  }

  function SlotsAt(file: seq<byte>, i: nat, q: nat): set<nat>
    requires TableInFile(file) && i <= HeaderOf(file).phnum && (q > 0 ==> i < HeaderOf(file).phnum)
  {
    SlotsBefore(file, i) + if q > 0 then SlotsTo(Seg(file, i).vaddr / FRAME_SIZE, q) else {}
  }

  lemma NextSlot(file: seq<byte>, i: nat, q: nat)
    requires TableInFile(file) && i < HeaderOf(file).phnum
    ensures SlotsAt(file, i, q + 1) == SlotsAt(file, i, q) + {(Seg(file, i).vaddr / FRAME_SIZE + q) / ENTRIES}
  {
    var first := Seg(file, i).vaddr / FRAME_SIZE;
    assert SlotsTo(first, q + 1) == SlotsTo(first, q) + {(first + q) / ENTRIES};
  }

  lemma AccountNext(s0: State, s: State, dir: nat, file: seq<byte>, i: nat, q: nat, page: nat)
    requires TableInFile(file) && i < HeaderOf(file).phnum && page == Seg(file, i).vaddr / FRAME_SIZE + q
    requires Account(s0, s, dir, PagesAt(file, i, q) + 1, SlotsAt(file, i, q) + {page / ENTRIES})
    ensures Account(s0, s, dir, PagesAt(file, i, q + 1), SlotsAt(file, i, q + 1))
  {
    NextSlot(file, i, q);
    var (pages, slots) := (PagesAt(file, i, q) + 1, SlotsAt(file, i, q) + {page / ENTRIES});
    assert PagesAt(file, i, q + 1) == pages && SlotsAt(file, i, q + 1) == slots;
  }

  // A whole segment, or a header that asks for none.
  lemma NextHeader(file: seq<byte>, i: nat)
    requires TableInFile(file) && i < HeaderOf(file).phnum
    ensures var q := if IsLoad(file, i) then PageCount(Seg(file, i)) else 0;
      SlotsAt(file, i, 0) == SlotsBefore(file, i) && SlotsAt(file, i, q) == SlotsBefore(file, i + 1)
      && PagesAt(file, i, q) == PagesBefore(file, i + 1)
  {
  }

  lemma {:induction false} SlotsGrow(first: nat, q: nat, n: nat)
    requires q <= n
    ensures SlotsTo(first, q) <= SlotsTo(first, n)
  {
    if q < n { SlotsGrow(first, q, n - 1); }
  }

  lemma {:induction false} BeforeGrow(file: seq<byte>, i: nat, n: nat)
    requires TableInFile(file) && i <= n <= HeaderOf(file).phnum
    ensures PagesBefore(file, i) <= PagesBefore(file, n) && SlotsBefore(file, i) <= SlotsBefore(file, n)
  {
    if i < n { BeforeGrow(file, i, n - 1); }
  }

  // No prefix of the work costs more than the whole.
  lemma CostOfPart(s0: State, dir: nat, file: seq<byte>, i: nat, q: nat)
    requires TableInFile(file) && i <= HeaderOf(file).phnum
    requires q > 0 ==> i < HeaderOf(file).phnum && IsLoad(file, i) && q <= PageCount(Seg(file, i))
    ensures Cost(s0, dir, PagesAt(file, i, q), SlotsAt(file, i, q)) <= Cost(s0, dir, Pages(file), Slots(file))
  {
    BeforeGrow(file, i, HeaderOf(file).phnum);
    if q > 0 {
      SlotsGrow(Seg(file, i).vaddr / FRAME_SIZE, q, PageCount(Seg(file, i)));
      BeforeGrow(file, i + 1, HeaderOf(file).phnum);
    }
    Subset(Absent(s0, dir, SlotsAt(file, i, q)), Absent(s0, dir, Slots(file)));
  }

  lemma Subset(a: set<nat>, b: set<nat>)
    requires a <= b
    ensures |a| <= |b|
  {
    assert b == a + (b - a);
  }

  // What it takes to put the segments in a space and to find a frame for the stack.
  ghost function StartCost(s0: State, dir: nat, file: seq<byte>): nat
    requires TableInFile(file)
  {
    Cost(s0, dir, Pages(file), Slots(file)) + 1
  }

  // And to have a table for the stack page too.
  ghost function FullCost(s0: State, dir: nat, file: seq<byte>): nat
    requires TableInFile(file)
  {
    Cost(s0, dir, Pages(file) + 1, Slots(file) + {STACK_SLOT})
  }

  // ---- a new space ----

  lemma {:induction false} PageOfSlot(first: nat, n: nat, j: nat) returns (q: nat)
    requires j in SlotsTo(first, n)
    ensures q < n && (first + q) / ENTRIES == j
    decreases n
  {
    if j in SlotsTo(first, n - 1) { q := PageOfSlot(first, n - 1, j); } else { q := n - 1; }
  }

  // The kernel has no table for any slot of a well-formed file.
  lemma {:induction false} SlotsAreFree(s: State, file: seq<byte>, i: nat, j: nat)
    requires WfElf(s, file) && i <= HeaderOf(file).phnum && j in SlotsBefore(file, i)
    ensures !Present(Word(s.mem, s.kernel, j))
    decreases i
  {
    if j in SlotsBefore(file, i - 1) {
      SlotsAreFree(s, file, i - 1, j);
    } else {
      var q := PageOfSlot(Seg(file, i - 1).vaddr / FRAME_SIZE, PageCount(Seg(file, i - 1)), j);
      assert Covers(file, i - 1, Seg(file, i - 1).vaddr / FRAME_SIZE + q);
    }
  }

  // In a space just created no slot of the file has a table.
  lemma NewSpaceAbsent(s: State, file: seq<byte>, i: nat)
    requires Inv(s) && WfElf(s, file) && i <= HeaderOf(file).phnum && CreateSpace(s).1 != 0
    ensures var (s', dir) := CreateSpace(s);
      Cost(s', dir, PagesBefore(file, i), SlotsBefore(file, i)) == PagesBefore(file, i) + |SlotsBefore(file, i)|
  {
    var (s', dir) := CreateSpace(s);
    NewFrame(s);
    forall j | j in SlotsBefore(file, i) ensures !Present(Word(s'.mem, dir, j)) {
      SlotsAreFree(s, file, i, j);
      assert Word(s'.mem, dir, j) == Word(s.mem, s.kernel, j);
    }
    assert Absent(s', dir, SlotsBefore(file, i)) == SlotsBefore(file, i);
  }

  /** In a space just created, starting the file takes the frames of its budget but the one of the
      directory. */
  lemma NewSpaceCost(s: State, file: seq<byte>)
    requires Inv(s) && WfElf(s, file)
    ensures var (s', dir) := CreateSpace(s);
      && (dir == 0 <==> Spare(s) == 0)
      && (dir != 0 ==>
            && Spare(s') == Spare(s) - 1
            && StartCost(s', dir, file) + 1 == StartBudget(file) && FullCost(s', dir, file) + 1 == FullBudget(file))
  {
    var (s', dir) := CreateSpace(s);
    assert 0 in Below(RESERVED_END / FRAME_SIZE);
    AllocCounts(s.used);
    CreateSpaceEffect(s);
    if dir != 0 {
      forall j | j in Slots(file) + {STACK_SLOT} ensures !Present(Word(s'.mem, dir, j)) {
        if j in Slots(file) { SlotsAreFree(s, file, HeaderOf(file).phnum, j); }
        assert Word(s'.mem, dir, j) == Word(s.mem, s.kernel, j);
      }
      assert Absent(s', dir, Slots(file)) == Slots(file);
      assert Absent(s', dir, Slots(file) + {STACK_SLOT}) == Slots(file) + {STACK_SLOT};
    }
  }

  // ---- a program without a stack page ----

  // 52 bytes: the magic number and otherwise zeroes, so no program headers.
  function HeaderOnly(): (file: seq<byte>)
    ensures |file| == HEADER_SIZE
  {
    seq<byte>(HEADER_SIZE, k requires 0 <= k < HEADER_SIZE =>
      if k == 0 then 0x7F else if k == 1 then 0x45 else if k == 2 then 0x4C else if k == 3 then 0x46 else 0)
  }

  lemma HeaderOnlyLoads(s: State)
    requires Inv(s) && !Present(Word(s.mem, s.kernel, STACK_SLOT))
    ensures var file := HeaderOnly();
      && Read32(file, 0) == ELF_MAGIC && TableInFile(file) && HeaderOf(file).phnum == 0 && WfElf(s, file)
      && StartBudget(file) == 2 && FullBudget(file) == 3
  {
    var file := HeaderOnly();
    assert Slots(file) == {} && Pages(file) == 0;
    assert {} + {STACK_SLOT} == {STACK_SLOT};
  }
}
