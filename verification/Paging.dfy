// Two-level page tables shared between address spaces: what mapping, unmapping and creating a
// space do to physical memory, and who owns which table.

module Paging {
  import opened Bits
  import opened Frames

  const ENTRIES := 1024
  const PAGE_USER_BIT := 2

  datatype Option<T> = None | Some(value: T)

  // A frame holds a table of 1024 words or a page of 4096 bytes, depending on who wrote it.
  datatype Frame = Words(w: seq<nat>) | Page(b: seq<byte>)

  type Memory = map<nat, Frame>

  // dirs are the page directories; used are the frames the allocator has given out.
  datatype State = State(mem: Memory, kernel: nat, dirs: set<nat>, used: set<nat>)

  predicate Present(e: nat) { Bit(e, 0) }

  // e & ~0xFFF
  function Base(e: nat): nat { e - e % FRAME_SIZE }

  // virt >> 22, and (virt >> 12) & 0x3FF
  function DirIndex(virt: nat): nat { virt / 0x40_0000 }

  function TableIndex(virt: nat): nat { virt / FRAME_SIZE % ENTRIES }

  // (phys & ~0xFFF) | (flags & 0xFFF) | PAGE_PRESENT
  function PageEntry(phys: nat, flags: nat): nat {
    SetBit(Base(phys) + flags % FRAME_SIZE, 0)
  }

  // frame | PAGE_PRESENT | PAGE_WRITE, and | PAGE_USER for a user table
  function DirEntry(frame: nat, user: bool): nat {
    var e := SetBit(SetBit(frame, 0), 1);
    if user then SetBit(e, PAGE_USER_BIT) else e
  }

  lemma EntryParts(frame: nat, flags: nat, user: bool)
    ensures Present(PageEntry(frame, flags)) && Base(PageEntry(frame, flags)) == Base(frame)
    ensures frame % FRAME_SIZE == 0 ==> Present(DirEntry(frame, user)) && Base(DirEntry(frame, user)) == frame
  {
    PageEntryParts(frame, flags);
    if frame % FRAME_SIZE == 0 { DirEntryParts(frame, user); }
  }

  // What a word of a table gives: a page at this address, with just these of the flags.
  ghost predicate Grants(e: nat, phys: nat, flags: nat) {
    && e % 2 == 1 && e / 4096 == phys / 4096
    && forall b | 1 <= b < 12 :: Bit(e, b) <==> Bit(flags, b)
  }

  /** A page mapped has the access its flags ask for, bit by bit. */
  lemma PageEntryGrants(phys: nat, flags: nat)
    ensures Grants(PageEntry(phys, flags), phys, flags)
  {
    var e := PageEntry(phys, flags);
    var (q, f) := (phys / 4096, flags % 4096);
    PageEntryParts(phys, flags);
    assert e % 2 == 1 by { SetBitBits(Base(phys) + f, 0, 0); }
    assert e / 4096 == q by { assert Base(e) == 4096 * (e / 4096) && Base(phys) == 4096 * q; }
    assert Pow2(12) == 4096 by { Widths(); assert Pow2(8) == 256 && Pow2(12) == 16 * Pow2(8); }
    forall b | 1 <= b < 12 ensures Bit(e, b) <==> Bit(flags, b) {
      SetBitBits(Base(phys) + f, 0, b);
      LowBits(Base(phys) + f, f, q, 12, b);
      LowBits(flags, f, flags / 4096, 12, b);
    }
  }

  /** A table is always writable, and a user's when it was made for one. */
  lemma DirEntryGrants(frame: nat, user: bool)
    requires frame % FRAME_SIZE == 0
    ensures var e := DirEntry(frame, user);
      e % 2 == 1 && e / 4096 == frame / 4096 && Bit(e, 1) && (Bit(e, 2) <==> user)
  {
    var e := DirEntry(frame, user);
    DirEntryParts(frame, user);
    assert e / 4096 == frame / 4096 by { assert Base(e) == 4096 * (e / 4096) && frame == 4096 * (frame / 4096); }
    assert Pow2(12) == 4096 by { Widths(); assert Pow2(8) == 256 && Pow2(12) == 16 * Pow2(8); }
    LowBits(frame, 0, frame / 4096, 12, 2);
    ZeroBits(2);
    SetBitBits(frame, 0, 1);
    SetBitBits(frame, 0, 2);
    SetBitBits(SetBit(frame, 0), 1, 1);
    SetBitBits(SetBit(frame, 0), 1, 2);
    SetBitBits(SetBit(SetBit(frame, 0), 1), 2, 1);
    SetBitBits(SetBit(SetBit(frame, 0), 1), 2, 2);
  }

  lemma PageEntryParts(frame: nat, flags: nat)
    ensures Present(PageEntry(frame, flags)) && Base(PageEntry(frame, flags)) == Base(frame)
  {
    var (q, f) := (frame / FRAME_SIZE, flags % FRAME_SIZE);
    assert Base(frame) == FRAME_SIZE * q;
    Offset(q, f);
    Offset(q, f - f % 2 + 1);
  }

  lemma DirEntryParts(frame: nat, user: bool)
    requires frame % FRAME_SIZE == 0
    ensures Present(DirEntry(frame, user)) && Base(DirEntry(frame, user)) == frame
  {
    var q := frame / FRAME_SIZE;
    assert frame == 2 * (2048 * q);
    assert SetBit(frame, 0) == frame + 1;
    assert SetBit(frame + 1, 1) == 2 * SetBit(2048 * q, 0) + 1 == frame + 3;
    assert SetBit(2048 * q + 1, 1) == 2 * SetBit(1024 * q, 0) + 1;
    assert SetBit(frame + 3, 2) == 2 * SetBit(2048 * q + 1, 1) + 1 == frame + 7;
    Offset(q, 3);
    Offset(q, 7);
  }

  lemma Offset(q: nat, r: nat)
    requires r < FRAME_SIZE
    ensures Base(FRAME_SIZE * q + r) == FRAME_SIZE * q
    ensures (FRAME_SIZE * q + r) % 2 == r % 2
  {
    var x := 4096 * q + r;
    var d := x / 4096;
    assert x == 4096 * d + x % 4096;
    assert d == q;
    assert x == 2 * (2048 * q) + r;
  }

  predicate IsTable(mem: Memory, f: nat) {
    f in mem && mem[f].Words? && |mem[f].w| == ENTRIES
  }

  function Word(mem: Memory, f: nat, k: nat): nat {
    if IsTable(mem, f) && k < ENTRIES then mem[f].w[k] else 0
  }

  function SetWord(mem: Memory, f: nat, k: nat, e: nat): Memory
    requires IsTable(mem, f) && k < ENTRIES
  {
    mem[f := Words(mem[f].w[k := e])]
  }

  // What the processor finds for a page number: the present table entry, if any.
  function Translate(mem: Memory, dir: nat, page: nat): Option<nat> {
    var de := Word(mem, dir, page / ENTRIES);
    if !Present(de) then None
    else
      var te := Word(mem, Base(de), page % ENTRIES);
      if Present(te) then Some(te) else None
  }

  // Directory d reaches table t through its slot i.
  predicate Reaches(s: State, d: nat, i: nat, t: nat) {
    d in s.dirs && i < ENTRIES && Present(Word(s.mem, d, i)) && Base(Word(s.mem, d, i)) == t
  }

  ghost predicate WfMemory(s: State) {
    && Below(RESERVED_END / FRAME_SIZE) <= s.used
    && s.kernel in s.dirs
    && (forall f | f in s.mem :: f % FRAME_SIZE == 0 && RESERVED_END <= f && f / FRAME_SIZE in s.used)
    && (forall d | d in s.dirs :: IsTable(s.mem, d))
    && (forall d: nat, i: nat, t: nat :: Reaches(s, d, i, t) ==> IsTable(s.mem, t) && t !in s.dirs)
  }

  // A table is reached through one slot number only, and from two spaces only if the kernel
  // reaches it too.
  ghost predicate Owned(s: State) {
    forall d: nat, e: nat, i: nat, j: nat, t: nat :: Reaches(s, d, i, t) && Reaches(s, e, j, t) ==>
      i == j && (d == e || Reaches(s, s.kernel, i, t))
  }

  ghost predicate Inv(s: State) { WfMemory(s) && Owned(s) }

  // ---- the operations ----

  function ZeroTable(): (w: seq<nat>)
    ensures |w| == ENTRIES && forall k | 0 <= k < ENTRIES :: w[k] == 0
  {
    seq(ENTRIES, _ => 0)
  }

  // Give directory d a table for slot i if it has none; false when no frame is left.
  ghost function EnsureTable(s: State, d: nat, i: nat, user: bool): (State, bool)
    requires IsTable(s.mem, d) && i < ENTRIES
  {
    if Present(Word(s.mem, d, i)) then (s, true)
    else
      var (used', frame) := AllocStep(s.used);
      if frame == 0 || frame in s.mem then (s, false)
      else (s.(mem := SetWord(s.mem[frame := Words(ZeroTable())], d, i, DirEntry(frame, user)), used := used'), true)
  }

  // vmm_map_page on the kernel's directory (user false) and vmm_map_page_in_dir.
  ghost function MapPage(s: State, d: nat, virt: nat, phys: nat, flags: nat, user: bool): (State, bool)
    requires IsTable(s.mem, d) && virt < WORD32
  {
    var (s1, ok) := EnsureTable(s, d, DirIndex(virt), user);
    var t := Base(Word(s1.mem, d, DirIndex(virt)));
    if ok && IsTable(s1.mem, t) then (s1.(mem := SetWord(s1.mem, t, TableIndex(virt), PageEntry(phys, flags))), true)
    else (s1, false)
  }

  ghost function Unmap(s: State, virt: nat): State
    requires virt < WORD32
  {
    var de := Word(s.mem, s.kernel, DirIndex(virt));
    if Present(de) && IsTable(s.mem, Base(de)) then s.(mem := SetWord(s.mem, Base(de), TableIndex(virt), 0)) else s
  }

  // vmm_create_address_space: a copy of the kernel's directory in a frame of its own.
  ghost function CreateSpace(s: State): (State, nat)
    requires IsTable(s.mem, s.kernel)
  {
    var (used', frame) := AllocStep(s.used);
    if frame == 0 then (s, 0)
    else (State(s.mem[frame := s.mem[s.kernel]], s.kernel, s.dirs + {frame}, used'), frame)
  }

  // ---- what one operation does ----

  lemma NewFrame(s: State)
    requires WfMemory(s)
    ensures var (used', frame) := AllocStep(s.used);
      && s.used <= used'
      && (frame != 0 ==>
           && frame !in s.mem && frame % FRAME_SIZE == 0 && RESERVED_END <= frame && frame + FRAME_SIZE <= MEMORY_SIZE
           && frame / FRAME_SIZE !in s.used && frame / FRAME_SIZE in used')
  {
    var f := LowestFree(s.used);
    assert f < TOTAL_FRAMES ==> f !in Below(RESERVED_END / FRAME_SIZE);
    assert f * FRAME_SIZE / FRAME_SIZE == f;
  }

  // A new, empty table changes no translation.
  lemma NewTableTranslates(s: State, d: nat, i: nat, user: bool, e: nat, p: nat)
    requires Inv(s) && d in s.dirs && i < ENTRIES && e in s.dirs
    ensures Translate(EnsureTable(s, d, i, user).0.mem, e, p) == Translate(s.mem, e, p)
  {
    var (s1, ok) := EnsureTable(s, d, i, user);
    var (used', frame) := AllocStep(s.used);
    NewFrame(s);
    if ok && !Present(Word(s.mem, d, i)) {
      EntryParts(frame, 0, user);
      if Present(Word(s.mem, e, p / ENTRIES)) {
        assert Reaches(s, e, p / ENTRIES, Base(Word(s.mem, e, p / ENTRIES)));
      } else if e == d && p / ENTRIES == i {
        assert !Present(Word(s1.mem, frame, p % ENTRIES)) by { ZeroBits(0); }
      }
    }
  }

  lemma EnsureTableKeeps(s: State, d: nat, i: nat, user: bool)
    requires Inv(s) && d in s.dirs && i < ENTRIES
    ensures var (s1, ok) := EnsureTable(s, d, i, user);
      && Inv(s1) && s1.dirs == s.dirs && s1.kernel == s.kernel
      && (ok <==> Present(Word(s.mem, d, i)) || AllocStep(s.used).1 != 0)
      && (ok ==> Present(Word(s1.mem, d, i))) && (!ok ==> s1 == s)
      && (forall e: nat, k: nat | e in s.dirs && (e != d || k != i || Present(Word(s.mem, d, i))) ::
            Word(s1.mem, e, k) == Word(s.mem, e, k))
      && (forall e: nat, p: nat | e in s.dirs :: Translate(s1.mem, e, p) == Translate(s.mem, e, p))
      && (forall f | f in s.mem && f !in s.dirs :: f in s1.mem && s1.mem[f] == s.mem[f])
  {
    var (s1, ok) := EnsureTable(s, d, i, user);
    var (used', frame) := AllocStep(s.used);
    NewFrame(s);
    if ok && !Present(Word(s.mem, d, i)) {
      EntryParts(frame, 0, user);
      forall e: nat, k: nat, t: nat
        ensures Reaches(s1, e, k, t) <==> Reaches(s, e, k, t) || (e == d && k == i && t == frame)
      {}
      assert forall e: nat, k: nat, t: nat :: Reaches(s, e, k, t) ==> t != frame;
    }
    forall e: nat, p: nat | e in s.dirs
      ensures Translate(s1.mem, e, p) == Translate(s.mem, e, p)
    {
      NewTableTranslates(s, d, i, user, e, p);
    }
  }

  lemma SetEntryKeeps(s: State, t: nat, j: nat, e: nat)
    requires Inv(s) && IsTable(s.mem, t) && t !in s.dirs && j < ENTRIES
    ensures var s' := s.(mem := SetWord(s.mem, t, j, e));
      && Inv(s')
      && (forall d: nat, k: nat | d in s.dirs :: Word(s'.mem, d, k) == Word(s.mem, d, k))
      && (forall d: nat, p: nat | d in s.dirs :: Translate(s'.mem, d, p) ==
            if Reaches(s, d, p / ENTRIES, t) && p % ENTRIES == j then if Present(e) then Some(e) else None
            else Translate(s.mem, d, p))
  {
    var s' := s.(mem := SetWord(s.mem, t, j, e));
    assert forall d: nat, i: nat, u: nat :: Reaches(s', d, i, u) <==> Reaches(s, d, i, u);
    forall d: nat, p: nat | d in s.dirs
      ensures Translate(s'.mem, d, p) ==
        if Reaches(s, d, p / ENTRIES, t) && p % ENTRIES == j then if Present(e) then Some(e) else None
        else Translate(s.mem, d, p)
    {
      if Present(Word(s.mem, d, p / ENTRIES)) && p / ENTRIES < ENTRIES {
        assert Reaches(s, d, p / ENTRIES, Base(Word(s.mem, d, p / ENTRIES)));
      }
    }
  }

  // Directory e finds the page through the same table as d does (d itself included).
  predicate SharesSlot(s: State, d: nat, e: nat, i: nat) {
    e == d || (Present(Word(s.mem, d, i)) && Reaches(s, e, i, Base(Word(s.mem, d, i))))
  }

  /** Mapping a page changes the translation of that page in the spaces that share the table,
      and of nothing else; it fails, changing nothing, exactly when a table is needed and no
      frame is left. */
  lemma MapPageEffect(s: State, d: nat, virt: nat, phys: nat, flags: nat, user: bool)
    requires Inv(s) && d in s.dirs && virt < WORD32
    ensures var (s', ok) := MapPage(s, d, virt, phys, flags, user);
      && Inv(s') && s'.dirs == s.dirs && s'.kernel == s.kernel && s.used <= s'.used
      && (ok <==> Present(Word(s.mem, d, DirIndex(virt))) || AllocStep(s.used).1 != 0)
      && (!ok ==> s' == s)
      && (ok ==>
            forall e: nat, p: nat | e in s.dirs :: Translate(s'.mem, e, p) ==
              if p == virt / FRAME_SIZE && SharesSlot(s, d, e, DirIndex(virt)) then Some(PageEntry(phys, flags))
              else Translate(s.mem, e, p))
      && (ok ==> Grants(PageEntry(phys, flags), phys, flags))
      && (ok && !Present(Word(s.mem, d, DirIndex(virt))) ==>
            Bit(Word(s'.mem, d, DirIndex(virt)), 1) && (Bit(Word(s'.mem, d, DirIndex(virt)), 2) <==> user))
      && SlotsKept(s, s') && PagesKept(s, s')
      && (forall e: nat, k: nat | e in s.dirs && (e != d || k != DirIndex(virt)) ::
            Word(s'.mem, e, k) == Word(s.mem, e, k))
  {
    var i := DirIndex(virt);
    var (s1, ok1) := EnsureTable(s, d, i, user);
    NewFrame(s);
    EnsureTableKeeps(s, d, i, user);
    PageEntryGrants(phys, flags);
    if ok1 {
      if !Present(Word(s.mem, d, i)) { DirEntryGrants(AllocStep(s.used).1, user); }
      var t := Base(Word(s1.mem, d, i));
      assert Reaches(s1, d, i, t);
      SetEntryKeeps(s1, t, TableIndex(virt), PageEntry(phys, flags));
      EntryParts(phys, flags, user);
      PageNumber(virt);
      var s' := MapPage(s, d, virt, phys, flags, user).0;
      forall e: nat, p: nat | e in s.dirs
        ensures Translate(s'.mem, e, p) ==
          if p == virt / FRAME_SIZE && SharesSlot(s, d, e, i) then Some(PageEntry(phys, flags))
          else Translate(s.mem, e, p)
      {
        assert p == virt / FRAME_SIZE <==> p / ENTRIES == i && p % ENTRIES == TableIndex(virt);
        SharesTable(s, d, e, i, user);
        assert Reaches(s1, e, p / ENTRIES, t) ==> p / ENTRIES == i;
      }
    }
  }

  lemma SharesTable(s: State, d: nat, e: nat, i: nat, user: bool)
    requires Inv(s) && d in s.dirs && e in s.dirs && i < ENTRIES && EnsureTable(s, d, i, user).1
    ensures var s1 := EnsureTable(s, d, i, user).0;
      SharesSlot(s, d, e, i) <==> Reaches(s1, e, i, Base(Word(s1.mem, d, i)))
  {
    var (s1, ok) := EnsureTable(s, d, i, user);
    EnsureTableKeeps(s, d, i, user);
    if !Present(Word(s.mem, d, i)) && e != d {
      var frame := AllocStep(s.used).1;
      NewFrame(s);
      EntryParts(frame, 0, user);
      if Present(Word(s.mem, e, i)) { assert Reaches(s, e, i, Base(Word(s.mem, e, i))); }
    }
  }

  lemma PageNumber(virt: nat)
    requires virt < WORD32
    ensures virt / FRAME_SIZE / ENTRIES == DirIndex(virt) < ENTRIES && virt / FRAME_SIZE % ENTRIES == TableIndex(virt)
    ensures forall p: nat ::
      p == virt / FRAME_SIZE <==> p / ENTRIES == DirIndex(virt) && p % ENTRIES == TableIndex(virt)
  {
    forall p: nat
      ensures p == virt / FRAME_SIZE <==> p / ENTRIES == DirIndex(virt) && p % ENTRIES == TableIndex(virt)
    {
      assert p == ENTRIES * (p / ENTRIES) + p % ENTRIES;
    }
  }

  // Once present, a directory slot never changes.
  ghost predicate SlotsKept(s: State, s': State) {
    && s.dirs <= s'.dirs && s'.kernel == s.kernel
    && forall d: nat, i: nat, t: nat :: Reaches(s, d, i, t) ==> Word(s'.mem, d, i) == Word(s.mem, d, i)
  }

  // Frames holding pages, as against tables, are not written.
  ghost predicate PagesKept(s: State, s': State) {
    forall f | f in s.mem && s.mem[f].Page? :: f in s'.mem && s'.mem[f] == s.mem[f]
  }

  /** Unmapping clears the page in the kernel and in every space that shares its table. */
  lemma UnmapEffect(s: State, virt: nat)
    requires Inv(s) && virt < WORD32
    ensures var s' := Unmap(s, virt);
      && Inv(s') && SlotsKept(s, s') && s'.dirs == s.dirs && s'.used == s.used
      && forall e: nat, p: nat | e in s.dirs :: Translate(s'.mem, e, p) ==
           if p == virt / FRAME_SIZE && SharesSlot(s, s.kernel, e, DirIndex(virt)) then None
           else Translate(s.mem, e, p)
  {
    var i := DirIndex(virt);
    PageNumber(virt);
    var de := Word(s.mem, s.kernel, i);
    var s' := Unmap(s, virt);
    if Present(de) {
      assert Reaches(s, s.kernel, i, Base(de));
      SetEntryKeeps(s, Base(de), TableIndex(virt), 0);
      forall e: nat, p: nat | e in s.dirs
        ensures Translate(s'.mem, e, p) ==
          if p == virt / FRAME_SIZE && SharesSlot(s, s.kernel, e, i) then None else Translate(s.mem, e, p)
      {
        assert p == virt / FRAME_SIZE <==> p / ENTRIES == i && p % ENTRIES == TableIndex(virt);
        assert Reaches(s, e, p / ENTRIES, Base(de)) ==> p / ENTRIES == i;
      }
    }
  }

  /** A new space starts out translating every page as the kernel does, and disturbs no other. */
  lemma CreateSpaceEffect(s: State)
    requires Inv(s)
    ensures var (s', dir) := CreateSpace(s);
      && Inv(s') && SlotsKept(s, s') && PagesKept(s, s') && s.used <= s'.used
      && (dir == 0 <==> AllocStep(s.used).1 == 0) && (dir == 0 ==> s' == s)
      && (forall e: nat, p: nat | e in s.dirs :: Translate(s'.mem, e, p) == Translate(s.mem, e, p))
      && (dir != 0 ==>
           && dir !in s.dirs && s'.dirs == s.dirs + {dir}
           && (forall p: nat :: Translate(s'.mem, dir, p) == Translate(s.mem, s.kernel, p))
           && (forall i: nat, t: nat :: Reaches(s', dir, i, t) <==> Reaches(s, s.kernel, i, t)))
  {
    var (s', dir) := CreateSpace(s);
    NewFrame(s);
    if dir != 0 {
      assert forall d: nat, i: nat | d in s.dirs :: Word(s'.mem, d, i) == Word(s.mem, d, i);
      assert forall i: nat :: Word(s'.mem, dir, i) == Word(s.mem, s.kernel, i);
      assert forall d: nat, i: nat, t: nat | d != dir :: Reaches(s', d, i, t) <==> Reaches(s, d, i, t);
      assert forall i: nat, t: nat :: Reaches(s', dir, i, t) <==> Reaches(s, s.kernel, i, t);
      forall e: nat, p: nat | e in s'.dirs
        ensures Translate(s'.mem, e, p) == Translate(s.mem, if e == dir then s.kernel else e, p)
      {
        var o := if e == dir then s.kernel else e;
        if Present(Word(s.mem, o, p / ENTRIES)) && p / ENTRIES < ENTRIES {
          assert Reaches(s, o, p / ENTRIES, Base(Word(s.mem, o, p / ENTRIES)));
        }
      }
    }
  }
}
