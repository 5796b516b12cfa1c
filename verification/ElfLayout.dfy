// The headers of an ELF file as elf.h lays them out, and that the loader reads them so.

module ElfLayout {
  import opened Bits
  import opened Elf

  // elf_header_t, the identification being any 16 bytes.
  datatype FileHeader = FileHeader(ident: seq<byte>, kind: nat, machine: nat, version: nat, entry: nat, phoff: nat,
                                   shoff: nat, flags: nat, ehsize: nat, phentsize: nat, phnum: nat,
                                   shentsize: nat, shnum: nat, shstrndx: nat)
  {
    predicate Fits() {
      && |ident| == 16 && kind < 0x1_0000 && machine < 0x1_0000 && version < WORD32 && entry < WORD32 && phoff < WORD32
      && shoff < WORD32 && flags < WORD32 && ehsize < 0x1_0000 && phentsize < 0x1_0000 && phnum < 0x1_0000
      && shentsize < 0x1_0000 && shnum < 0x1_0000 && shstrndx < 0x1_0000
    }
  }

  // elf_program_header_t
  datatype ProgramHeader = ProgramHeader(kind: nat, offset: nat, vaddr: nat, paddr: nat, filesz: nat, memsz: nat,
                                         flags: nat, align: nat)
  {
    predicate Fits() {
      && kind < WORD32 && offset < WORD32 && vaddr < WORD32 && paddr < WORD32
      && filesz < WORD32 && memsz < WORD32 && flags < WORD32 && align < WORD32
    }
  }

  // The fields one after the other.
  function FileHeaderBytes(h: FileHeader): (s: seq<byte>)
    requires h.Fits()
    ensures |s| == 52
  {
    h.ident + Le16(h.kind) + Le16(h.machine) + Le32(h.version) + Le32(h.entry) + Le32(h.phoff) + Le32(h.shoff)
    + Le32(h.flags) + Le16(h.ehsize) + Le16(h.phentsize) + Le16(h.phnum) + Le16(h.shentsize) + Le16(h.shnum)
    + Le16(h.shstrndx)
  }

  function ProgramHeaderBytes(p: ProgramHeader): (s: seq<byte>)
    requires p.Fits()
    ensures |s| == 32
  {
    Le32(p.kind) + Le32(p.offset) + Le32(p.vaddr) + Le32(p.paddr) + Le32(p.filesz) + Le32(p.memsz) + Le32(p.flags)
    + Le32(p.align)
  }

  lemma Reads16(s: seq<byte>, at: nat, x: nat)
    requires at + 2 <= |s| && x < 0x1_0000 && s[at..at + 2] == Le16(x)
    ensures Read16(s, at) == x
  {
    assert s[at] == s[at..at + 2][0] && s[at + 1] == s[at..at + 2][1];
  }

  lemma Reads32(s: seq<byte>, at: nat, x: nat)
    requires at + 4 <= |s| && x < WORD32 && s[at..at + 4] == Le32(x)
    ensures Read32(s, at) == x
  {
    assert s[at..at + 2] == s[at..at + 4][..2] == Le16(x % 0x1_0000);
    assert s[at + 2..at + 4] == s[at..at + 4][2..] == Le16(x / 0x1_0000);
    Reads16(s, at, x % 0x1_0000);
    Reads16(s, at + 2, x / 0x1_0000);
  }

  // The bytes of a front part stay where they are.
  lemma FrontSlice(front: seq<byte>, rest: seq<byte>, a: nat, b: nat)
    requires a <= b <= |front|
    ensures (front + rest)[a..b] == front[a..b]
  {
  }

  /** The loader finds in a file the entry, and the place, size and number of the program headers, that its
      header says. */
  lemma HeaderReads(h: FileHeader, rest: seq<byte>)
    requires h.Fits()
    ensures HeaderOf(FileHeaderBytes(h) + rest) == Header(h.entry, h.phoff, h.phentsize, h.phnum)
  {
    var (s, file) := (FileHeaderBytes(h), FileHeaderBytes(h) + rest);
    assert s[24..28] == Le32(h.entry);
    assert s[28..32] == Le32(h.phoff);
    assert s[42..44] == Le16(h.phentsize);
    assert s[44..46] == Le16(h.phnum);
    FrontSlice(s, rest, 24, 28);
    FrontSlice(s, rest, 28, 32);
    FrontSlice(s, rest, 42, 44);
    FrontSlice(s, rest, 44, 46);
    Reads32(file, 24, h.entry);
    Reads32(file, 28, h.phoff);
    Reads16(file, 42, h.phentsize);
    Reads16(file, 44, h.phnum);
  }

  /** The magic number is 0x7F, E, L, F. */
  lemma MagicIs(file: seq<byte>)
    requires |file| >= 4
    ensures Read32(file, 0) == ELF_MAGIC <==>
      file[0] == 0x7F && file[1] == 'E' as int && file[2] == 'L' as int && file[3] == 'F' as int
  {
  }

  /** And in a program header its kind, and the place and size of the segment in the file and in memory. */
  lemma SegmentReads(before: seq<byte>, p: ProgramHeader, rest: seq<byte>)
    requires p.Fits()
    ensures var (file, at) := (before + ProgramHeaderBytes(p) + rest, |before|);
      Read32(file, at) == p.kind && SegmentAt(file, at) == Segment(p.offset, p.vaddr, p.filesz, p.memsz)
  {
    var (s, file, at) := (ProgramHeaderBytes(p), before + ProgramHeaderBytes(p) + rest, |before|);
    assert s[0..4] == Le32(p.kind) && s[4..8] == Le32(p.offset) && s[8..12] == Le32(p.vaddr);
    assert s[16..20] == Le32(p.filesz) && s[20..24] == Le32(p.memsz);
    forall a: nat, b: nat | a <= b <= 32 ensures file[at + a..at + b] == s[a..b] {}
    Reads32(file, at, p.kind);
    Reads32(file, at + 4, p.offset);
    Reads32(file, at + 8, p.vaddr);
    Reads32(file, at + 16, p.filesz);
    Reads32(file, at + 20, p.memsz);
  }

  /** Header i of the table starts phentsize bytes behind the one before it. */
  lemma TableEntries(file: seq<byte>, i: nat)
    requires TableInFile(file) && i < HeaderOf(file).phnum
    ensures PhdrAt(file, i) == HeaderOf(file).phoff + i * HeaderOf(file).phentsize
    ensures IsLoad(file, i) <==> Read32(file, HeaderOf(file).phoff + i * HeaderOf(file).phentsize) == 1
    ensures Seg(file, i) == SegmentAt(file, HeaderOf(file).phoff + i * HeaderOf(file).phentsize)
  {
  }
}
