// The file system itself: the operations of tetfs.c on a disk of 512-byte sectors. A sector
// read or write always succeeds here, so the error returns for device failures are gone.

module TetFsDriver {
  import opened Bits
  import opened Memory
  import opened TetFsLayout
  import opened TetFsSpec
  import opened TetFsProofs
  import opened TetFsTheorems

  // ---- the bitmap in memory ----

  lemma BitmapWrite(bm: seq<byte>, bit: nat, val: bool)
    requires |bm| == BITMAP_BITS / 8 && bit < BITMAP_BITS
    ensures var b := if val then SetBit(bm[bit / 8], bit % 8) else ClearBit(bm[bit / 8], bit % 8);
      b < 0x100 && BitsOf(bm[bit / 8 := b]) == BitsOf(bm)[bit := val]
  {
    var old8 := bm[bit / 8];
    Widths();
    BitOpsStayInWidth(old8, bit % 8, 8);
    var b := if val then SetBit(old8, bit % 8) else ClearBit(old8, bit % 8);
    forall j: nat | j < 8
      ensures Bit(b, j) == if j == bit % 8 then val else Bit(old8, j)
    {
      SetBitBits(old8, bit % 8, j);
      ClearBitBits(old8, bit % 8, j);
    }
    var bm' := bm[bit / 8 := b];
    forall c | 0 <= c < BITMAP_BITS
      ensures BitmapBit(bm', c) == if c == bit then val else BitmapBit(bm, c)
    {
      if c / 8 == bit / 8 { assert c == bit <==> c % 8 == bit % 8; }
    }
  }

  method BitmapSet(bm: array<byte>, bit: nat, val: bool)
    requires bm.Length == BITMAP_BITS / 8 && bit < BITMAP_BITS
    modifies bm
    ensures BitsOf(bm[..]) == BitsOf(old(bm[..]))[bit := val]
  {
    BitmapWrite(bm[..], bit, val);
    if val {
      bm[bit / 8] := SetBit(bm[bit / 8], bit % 8);
    } else {
      bm[bit / 8] := ClearBit(bm[bit / 8], bit % 8);
    }
    assert bm[..] == old(bm[..])[bit / 8 := bm[bit / 8]];
  }

  method BitmapFill(bm: array<byte>, start: nat, count: nat, val: bool)
    requires bm.Length == BITMAP_BITS / 8 && start + count <= BITMAP_BITS
    modifies bm
    ensures BitsOf(bm[..]) == Fill(BitsOf(old(bm[..])), start, count, val)
  {
    for j := start to start + count
      invariant BitsOf(bm[..]) == Fill(BitsOf(old(bm[..])), start, j - start, val)
    {
      BitmapSet(bm, j, val);
    }
  }

  // First fit: the lowest run of free blocks, marked used; -1 when there is none.
  method AllocBlocks(bm: array<byte>, count: nat) returns (r: int)
    requires bm.Length == BITMAP_BITS / 8 && count < 0x1_0000
    modifies bm
    ensures r == LowestRun(BitsOf(old(bm[..])), RunLength(count), 0)
    ensures r == -1 ==> bm[..] == old(bm[..])
    ensures r != -1 ==> BitsOf(bm[..]) == Fill(BitsOf(old(bm[..])), r, count, true)
  {
    var start, run := 0, 0;
    ghost var bits := BitsOf(bm[..]);
    ghost var wanted := RunLength(count);
    var i := 0;
    while i < MAX_BLOCKS
      invariant 0 <= i <= MAX_BLOCKS && 0 <= run < wanted && run <= i && bm[..] == old(bm[..])
      invariant run > 0 ==> start == i - run
      invariant forall b | i - run <= b < i :: !bits[b]
      invariant run < i ==> bits[i - run - 1]
      invariant forall s: nat | s + wanted <= i :: !FreeRun(bits, s, wanted)
    {
      if !Bit(bm[i / 8], i % 8) {
        assert !bits[i];
        if run == 0 { start := i; }
        run := run + 1;
        if run >= count {
          assert FreeRun(bits, start, wanted);
          IsLowest(bits, wanted, start);
          BitmapFill(bm, start, count, true);
          return start;
        }
      } else {
        assert bits[i];
        run := 0;
      }
      i := i + 1;
      NoRunEndsAt(bits, wanted, i, run);
    }
    NoneIsLowest(bits, wanted);
    return -1;
  }

  lemma NoRunEndsAt(bits: seq<bool>, wanted: nat, i: nat, run: nat)
    requires |bits| == BITMAP_BITS && 0 < i <= MAX_BLOCKS && run < wanted && run <= i
    requires run < i ==> bits[i - run - 1]
    requires forall s: nat | s + wanted <= i - 1 :: !FreeRun(bits, s, wanted)
    ensures forall s: nat | s + wanted <= i :: !FreeRun(bits, s, wanted)
  {
    forall s: nat | s + wanted == i ensures !FreeRun(bits, s, wanted) {
      assert s <= i - run - 1 < s + wanted;
    }
  }

  lemma IsLowest(bits: seq<bool>, count: nat, s: nat)
    requires |bits| == BITMAP_BITS && FreeRun(bits, s, count)
    requires forall q: nat | q < s :: !FreeRun(bits, q, count)
    ensures LowestRun(bits, count, 0) == s
  {
    var r := LowestRun(bits, count, 0);
    assert r != -1;
    if r < s { assert false; }
  }

  lemma NoneIsLowest(bits: seq<bool>, count: nat)
    requires |bits| == BITMAP_BITS && count > 0
    requires forall s: nat | s + count <= MAX_BLOCKS :: !FreeRun(bits, s, count)
    ensures LowestRun(bits, count, 0) == -1
  {
  }

  // ---- names ----

  // strcmp(a, b) == 0, for a terminated buffer and a string given without its terminator.
  method SameString(a: seq<byte>, b: seq<byte>) returns (same: bool)
    requires 0 in a && 0 !in b
    ensures same <==> CString(a) == b
  {
    ghost var c := CString(a);
    var k := 0;
    while a[k] != 0 && k < |b| && a[k] == b[k]
      invariant k <= |c| && k <= |b| && k < |a| && c[..k] == b[..k]
      decreases |a| - k
    {
      k := k + 1;
    }
    same := a[k] == 0 && k == |b|;
    assert k < |c| ==> a[k] == c[k] != 0;
    assert k == |c| ==> a[k] == 0 && c == b[..k];
  }

  // The copy loop of tetfs_create into a zeroed name field.
  method StoreName(name: seq<byte>) returns (field: seq<byte>)
    ensures field == StoredName(name)
  {
    field := Zeros(NAME_SIZE);
    var j := 0;
    while j < 50 && j < |name|
      invariant 0 <= j <= 50 && j <= |name| && field == name[..j] + Zeros(NAME_SIZE - j)
    {
      field := field[j := name[j]];
      j := j + 1;
    }
    field := field[j := 0];
  }

  // The superblock of a disk just formatted.
  predicate SuperIs(s: seq<byte>) {
    && |s| == 512 && Read32(s, 0) == 0x7445_5453 && Read32(s, 4) == 1 && Read32(s, 8) == 1024 && Read32(s, 12) == 1024
    && Read32(s, 16) == 32 && Read32(s, 20) == 263 && forall k | 24 <= k < 512 :: s[k] == 0
  }

  lemma SuperFields(s: seq<byte>)
    requires |s| == 512 && s[..24] ==
      Le32(0x7445_5453) + Le32(1) + Le32(1024) + Le32(1024) + Le32(32) + Le32(263)
    requires forall k | 24 <= k < 512 :: s[k] == 0
    ensures SuperIs(s)
  {
    var f := s[..24];
    assert s[0] == f[0] && s[1] == f[1] && s[2] == f[2] && s[3] == f[3] && s[4] == f[4] && s[5] == f[5];
    assert s[6] == f[6] && s[7] == f[7] && s[8] == f[8] && s[9] == f[9] && s[10] == f[10] && s[11] == f[11];
    assert s[12] == f[12] && s[13] == f[13] && s[14] == f[14] && s[15] == f[15] && s[16] == f[16] && s[17] == f[17];
    assert s[18] == f[18] && s[19] == f[19] && s[20] == f[20] && s[21] == f[21] && s[22] == f[22] && s[23] == f[23];
  }

  class TetFs {
    var disk: Sectors
    var mounted: bool

    ghost predicate Valid()
      reads this
    {
      WfDisk(disk) && Inv(ViewOf(disk))
    }

    ghost predicate SameOutside(before: Sectors)
      reads this
    {
      && |disk| == |before|
      && forall lba | 0 <= lba < |disk| && !(LBA_INODES <= lba < LBA_DATA + MAX_BLOCKS) :: disk[lba] == before[lba]
    }

    // ---- sectors, inodes and the bitmap ----

    method AtaRead(lba: nat, dst: array<byte>, at: nat)
      requires WfDisk(disk) && lba < |disk| && at + BLOCK_SIZE <= dst.Length
      modifies dst
      ensures dst[..] == Splice(old(dst[..]), at, disk[lba])
    {
      MemCpy(dst, at, disk[lba]);
    }

    method AtaWrite(lba: nat, src: seq<byte>)
      requires WfDisk(disk) && lba < |disk| && |src| == BLOCK_SIZE
      modifies this`disk
      ensures WfDisk(disk) && disk == old(disk)[lba := src]
    {
      disk := disk[lba := src];
    }

    method ReadInode(idx: nat) returns (ok: bool, node: Inode)
      requires WfDisk(disk)
      ensures ok <==> idx < MAX_INODES
      ensures ok ==> node == InodeAt(disk, idx)
    {
      node := ZeroInode();
      if idx >= MAX_INODES { return false, node; }
      var buf := new byte[512];
      AtaRead(LBA_INODES + idx / 8, buf, 0);
      assert buf[..] == disk[InodeLba(idx)];
      var o := idx % 8 * INODE_SIZE;
      node := Decode(buf[o..o + INODE_SIZE]);
      assert buf[o..o + INODE_SIZE] == buf[..][o..o + INODE_SIZE];
      return true, node;
    }

    method WriteInode(idx: nat, node: Inode)
      requires WfDisk(disk) && idx < MAX_INODES && node.Fits()
      modifies this`disk
      ensures disk == PutInode(old(disk), idx, node)
    {
      var buf := new byte[512];
      var lba := LBA_INODES + idx / 8;
      AtaRead(lba, buf, 0);
      assert buf[..] == disk[lba];
      MemCpy(buf, idx % 8 * INODE_SIZE, Encode(node));
      AtaWrite(lba, buf[..]);
    }

    method ReadBitmap(bm: array<byte>)
      requires WfDisk(disk) && bm.Length == BITMAP_BITS / 8
      modifies bm
      ensures bm[..] == BitmapOf(disk)
    {
      AtaRead(LBA_BITMAP, bm, 0);
      AtaRead(LBA_BITMAP + 1, bm, 512);
    }

    method WriteBitmap(bm: array<byte>)
      requires WfDisk(disk) && bm.Length == BITMAP_BITS / 8
      modifies this`disk
      ensures disk == PutBitmap(old(disk), bm[..])
    {
      AtaWrite(LBA_BITMAP, bm[..512]);
      AtaWrite(LBA_BITMAP + 1, bm[512..]);
      assert bm[..][..512] == bm[..512] && bm[..][512..] == bm[512..];
    }

    // ---- operations ----

    method Format()
      requires WfDisk(disk)
      modifies this
      ensures Valid() && Formatted(ViewOf(disk)) && mounted
      ensures SuperIs(disk[256])
      ensures |disk| == |old(disk)|
      ensures forall lba | 0 <= lba < |disk| && !(LBA_SUPER <= lba < LBA_DATA) :: disk[lba] == old(disk)[lba]
    {
      WipeMetadata();
      ZeroDiskView(disk);
      var root := ZeroInode();
      root := root.(kind := TYPE_DIR, name := [0x2F] + Zeros(NAME_SIZE - 1), parent := NO_PARENT);
      assert root == NewInode([0x2F], NO_PARENT, TYPE_DIR);
      PutInodeView(disk, ROOT_INODE, root);
      WriteInode(0, root);
      mounted := true;
      FormatEstablishes(ViewOf(disk));
    }

    // The superblock, and zeroes over the inode table and the bitmap.
    method WipeMetadata()
      requires WfDisk(disk)
      modifies this`disk
      ensures WfDisk(disk) && |disk| == |old(disk)|
      ensures forall lba | 0 <= lba < |disk| && !(LBA_SUPER <= lba < LBA_DATA) :: disk[lba] == old(disk)[lba]
      ensures forall lba | LBA_INODES <= lba < LBA_DATA :: disk[lba] == Zeros(BLOCK_SIZE)
      ensures SuperIs(disk[256])
    {
      var zero := Zeros(BLOCK_SIZE);
      var super := Le32(0x74455453) + Le32(1) + Le32(MAX_BLOCKS) + Le32(MAX_BLOCKS) + Le32(MAX_INODES) + Le32(LBA_DATA);
      SuperFields(super + Zeros(BLOCK_SIZE - |super|));
      AtaWrite(LBA_SUPER, super + Zeros(BLOCK_SIZE - |super|));
      for i := 0 to 4
        invariant WfDisk(disk) && |disk| == |old(disk)|
        invariant forall lba | 0 <= lba < |disk| && !(LBA_SUPER <= lba < LBA_INODES + i) :: disk[lba] == old(disk)[lba]
        invariant forall lba | LBA_INODES <= lba < LBA_INODES + i :: disk[lba] == zero
        invariant SuperIs(disk[256])
      {
        AtaWrite(LBA_INODES + i, zero);
      }
      for i := 0 to 2
        invariant WfDisk(disk) && |disk| == |old(disk)|
        invariant forall lba | 0 <= lba < |disk| && !(LBA_SUPER <= lba < LBA_BITMAP + i) :: disk[lba] == old(disk)[lba]
        invariant forall lba | LBA_INODES <= lba < LBA_BITMAP + i :: disk[lba] == zero
        invariant SuperIs(disk[256])
      {
        AtaWrite(LBA_BITMAP + i, zero);
      }
    }

    /** tetfs_mount accepts a disk by the magic number and the version in its superblock. */
    method Mount() returns (r: int)
      requires WfDisk(disk)
      modifies this`mounted
      ensures r == 0 <==> Read32(disk[256], 0) == 0x7445_5453 && Read32(disk[256], 4) == 1
      ensures r == 0 || r == -1
      ensures mounted == if r == 0 then true else old(mounted)
      ensures SuperIs(disk[256]) ==> r == 0
    {
      var super := new byte[512];
      AtaRead(LBA_SUPER, super, 0);
      assert super[..] == disk[256];
      if Read32(super[..], 0) != 0x7445_5453 { return -1; }
      if Read32(super[..], 4) != 1 { return -1; }
      mounted := true;
      return 0;
    }

    method Find(name: seq<byte>, parent: nat) returns (r: int)
      requires Valid() && 0 !in name
      ensures r == TetFsSpec.Find(ViewOf(disk), name, parent, 1)
    {
      for i := 1 to MAX_INODES
        invariant TetFsSpec.Find(ViewOf(disk), name, parent, i) == TetFsSpec.Find(ViewOf(disk), name, parent, 1)
      {
        var ok, node := ReadInode(i);
        if node.kind != TYPE_FREE {
          assert Live(ViewOf(disk), i);
          var same := SameString(node.name, name);
          if node.parent == parent && same { return i; }
        }
      }
      return -1;
    }

    method Create(name: seq<byte>, parent: nat, kind: byte) returns (r: int)
      requires Valid() && 0 !in name && parent < 0x1_0000
      modifies this`disk
      ensures WfDisk(disk) && SameOutside(old(disk))
      ensures (ViewOf(disk), r) == DoCreate(old(ViewOf(disk)), name, parent, kind)
      ensures r == -1 ==> disk == old(disk)
      ensures kind != TYPE_FREE ==> Valid()
    {
      if kind != TYPE_FREE { CreateRefines(ViewOf(disk), name, parent, kind); }
      r := Find(name, parent);
      if r >= 0 { return -1; }
      r := FreeSlot();
      if r != -1 { Populate(r, name, parent, kind); }
    }

    // The search of tetfs_create for a free inode.
    method FreeSlot() returns (r: int)
      requires WfDisk(disk)
      ensures r == FirstFree(ViewOf(disk), 1)
    {
      for i := 1 to MAX_INODES
        invariant FirstFree(ViewOf(disk), i) == FirstFree(ViewOf(disk), 1)
      {
        var ok, node := ReadInode(i);
        assert Live(ViewOf(disk), i) <==> node.kind != TYPE_FREE;
        if node.kind == TYPE_FREE { return i; }
      }
      return -1;
    }

    method Populate(i: nat, name: seq<byte>, parent: nat, kind: byte)
      requires WfDisk(disk) && i < MAX_INODES && parent < 0x1_0000
      modifies this`disk
      ensures WfDisk(disk) && SameOutside(old(disk))
      ensures ViewOf(disk) == old(ViewOf(disk)).(inodes := old(ViewOf(disk)).inodes[i := NewInode(name, parent, kind)])
    {
      var stored := StoreName(name);
      var node := ZeroInode();
      node := node.(kind := kind, parent := parent, name := stored);
      PutInodeView(disk, i, node);
      WriteInode(i, node);
    }

    method Delete(idx: nat) returns (r: int)
      requires Valid() && idx < 0x1_0000
      modifies this`disk
      ensures Valid() && SameOutside(old(disk))
      ensures (ViewOf(disk), r) == DoDelete(old(ViewOf(disk)), idx)
      ensures r == -1 ==> disk == old(disk)
    {
      DeleteRefines(ViewOf(disk), idx);
      if idx == ROOT_INODE { return -1; }
      var ok, node := ReadInode(idx);
      if !ok { return -1; }
      if node.kind == TYPE_FREE { return -1; }
      assert Live(ViewOf(disk), idx);
      Erase(idx, node);
      return 0;
    }

    // tetfs_delete once the inode is known to be live.
    method Erase(idx: nat, node: Inode)
      requires WfDisk(disk) && idx < MAX_INODES && node.start + node.count <= BITMAP_BITS
      modifies this`disk
      ensures WfDisk(disk) && SameOutside(old(disk))
      ensures ViewOf(disk) == old(ViewOf(disk)).(bits := Reclaimed(old(ViewOf(disk)), node),
                                                 inodes := old(ViewOf(disk)).inodes[idx := ZeroInode()])
    {
      ghost var bits := Reclaimed(ViewOf(disk), node);
      if node.count > 0 {
        var bm := new byte[1024];
        ReadBitmap(bm);
        BitmapFill(bm, node.start, node.count, false);
        PutBitmapView(disk, bm[..]);
        WriteBitmap(bm);
      }
      assert ViewOf(disk).bits == bits;
      PutInodeView(disk, idx, ZeroInode());
      WriteInode(idx, ZeroInode());
    }

    method Write(idx: nat, buf: seq<byte>) returns (r: int)
      requires Valid() && idx < 0x1_0000 && |buf| < WORD32
      modifies this`disk
      ensures WfDisk(disk) && SameOutside(old(disk))
      ensures (ViewOf(disk), r) == DoWrite(old(ViewOf(disk)), idx, buf)
      ensures r == -1 ==> disk == old(disk)
      ensures |buf| <= MAX_WRITE ==> Valid()
    {
      if |buf| <= MAX_WRITE { WriteRefines(ViewOf(disk), idx, buf); }
      var ok, node := ReadInode(idx);
      if !ok { return -1; }
      if node.kind != TYPE_FILE { return -1; }
      assert Live(ViewOf(disk), idx);
      r := Rewrite(idx, node, buf);
    }

    // tetfs_write once the inode is known to be a file.
    method Rewrite(idx: nat, node: Inode, buf: seq<byte>) returns (r: int)
      requires WfDisk(disk) && idx < MAX_INODES && |buf| < WORD32
      requires node == InodeAt(disk, idx) && node.kind == TYPE_FILE && node.start + node.count <= BITMAP_BITS
      modifies this`disk
      ensures WfDisk(disk) && SameOutside(old(disk))
      ensures (ViewOf(disk), r) == DoWrite(old(ViewOf(disk)), idx, buf)
      ensures r == -1 ==> disk == old(disk)
    {
      var len := |buf|;
      if len == 0 {
        Truncate(idx, node);
        return 0;
      }
      var needed := Needed(len);
      if needed > MAX_FILE_BLOCKS { return -1; }
      r := Replace(idx, node, buf, needed);
    }

    // Something to write, in a number of blocks that is allowed.
    method Replace(idx: nat, node: Inode, buf: seq<byte>, needed: nat) returns (r: int)
      requires WfDisk(disk) && idx < MAX_INODES && 0 < |buf| < WORD32 && needed == Needed(|buf|) <= MAX_FILE_BLOCKS
      requires node == InodeAt(disk, idx) && node.kind == TYPE_FILE && node.start + node.count <= BITMAP_BITS
      modifies this`disk
      ensures WfDisk(disk) && SameOutside(old(disk))
      ensures (ViewOf(disk), r) == DoWrite(old(ViewOf(disk)), idx, buf)
      ensures r == -1 ==> disk == old(disk)
    {
      var start := Place(idx, node, needed);
      assert start == PlacedAt(old(ViewOf(disk)), idx, |buf|);
      if start < 0 { return -1; }
      Store(idx, node.(start := start, count := needed, size := |buf|), buf);
      return 0;
    }

    method Truncate(idx: nat, node: Inode)
      requires WfDisk(disk) && idx < MAX_INODES && node == InodeAt(disk, idx)
      modifies this`disk
      ensures WfDisk(disk) && SameOutside(old(disk))
      ensures var v := old(ViewOf(disk)); ViewOf(disk) == v.(inodes := v.inodes[idx := node.(size := 0)])
    {
      PutInodeView(disk, idx, node.(size := 0));
      WriteInode(idx, node.(size := 0));
    }

    // The data blocks of a placed file, then its inode.
    method Store(idx: nat, node: Inode, buf: seq<byte>)
      requires WfDisk(disk) && idx < MAX_INODES && node.Fits()
      requires node.start + node.count <= MAX_BLOCKS && BLOCK_SIZE * node.count < |buf| + BLOCK_SIZE
      modifies this`disk
      ensures WfDisk(disk) && SameOutside(old(disk))
      ensures var v := old(ViewOf(disk));
        ViewOf(disk) == View(v.inodes[idx := node], v.bits, Splice(v.blocks, node.start, Blocks(buf, node.count)))
    {
      WriteData(node.start, node.count, buf);
      PutInodeView(disk, idx, node);
      WriteInode(idx, node);
    }

    // The bitmap half of tetfs_write: give the old extent back, take the lowest free run.
    method Place(ghost idx: nat, node: Inode, needed: nat) returns (start: int)
      requires WfDisk(disk) && node.start + node.count <= BITMAP_BITS && needed < 0x1_0000
      modifies this`disk
      ensures WfDisk(disk) && SameOutside(old(disk))
      ensures start == LowestRun(Reclaimed(old(ViewOf(disk)), node), RunLength(needed), 0)
      ensures start == -1 ==> disk == old(disk)
      ensures start != -1 ==>
        ViewOf(disk) == old(ViewOf(disk)).(bits := Fill(Reclaimed(old(ViewOf(disk)), node), start, needed, true))
    {
      var bm := new byte[1024];
      ReadBitmap(bm);
      if node.count > 0 {
        BitmapFill(bm, node.start, node.count, false);
      }
      assert BitsOf(bm[..]) == Reclaimed(ViewOf(disk), node);
      start := AllocBlocks(bm, needed);
      if start >= 0 {
        PutBitmapView(disk, bm[..]);
        WriteBitmap(bm);
      }
    }

    // The loop of tetfs_write over the blocks of the new extent.
    method WriteData(start: nat, needed: nat, buf: seq<byte>)
      requires WfDisk(disk) && start + needed <= MAX_BLOCKS && BLOCK_SIZE * needed < |buf| + BLOCK_SIZE
      modifies this`disk
      ensures WfDisk(disk) && disk == PutBlocks(old(disk), start, Blocks(buf, needed))
      ensures ViewOf(disk) == old(ViewOf(disk)).(blocks := Splice(old(ViewOf(disk)).blocks, start, Blocks(buf, needed)))
    {
      var sector := new byte[512];
      for i := 0 to needed
        invariant disk == PutBlocks(old(disk), start, Blocks(buf, i))
      {
        var off := i * BLOCK_SIZE;
        var chunk := |buf| - off;
        if chunk > BLOCK_SIZE { chunk := BLOCK_SIZE; }
        MemSet(sector, 0);
        MemCpy(sector, 0, buf[off..off + chunk]);
        assert sector[..] == Block(buf, i);
        AtaWrite(LBA_DATA + start + i, sector[..]);
      }
      PutBlocksView(old(disk), start, Blocks(buf, needed));
    }

    method Read(idx: nat, buf: array<byte>, offset: nat, len: nat) returns (r: int)
      requires Valid() && idx < 0x1_0000 && offset < WORD32 && len < WORD32 && len <= buf.Length
      modifies buf
      ensures Readable(ViewOf(disk), idx)
      ensures match DoRead(ViewOf(disk), idx, offset, len)
        case Failed => r == -1 && buf[..] == old(buf[..])
        case Bytes(b) => r == |b| <= len && buf[..] == Splice(old(buf[..]), 0, b)
    {
      InvReadable(ViewOf(disk), idx);
      var ok, node := ReadInode(idx);
      if !ok { return -1; }
      if node.kind != TYPE_FILE { return -1; }
      if offset >= node.size { return 0; }
      var left := len;
      if Add32(offset, len) > node.size { left := node.size - offset; }
      r := CopyOut(node, buf, offset, left);
    }

    method CopyFromSector(lba: nat, from: nat, count: nat, buf: array<byte>, at: nat)
      requires WfDisk(disk) && lba < |disk| && from + count <= BLOCK_SIZE && at + count <= buf.Length
      modifies buf
      ensures buf[..] == Splice(old(buf[..]), at, disk[lba][from..from + count])
    {
      var sector := new byte[512];
      AtaRead(lba, sector, 0);
      assert sector[..] == disk[lba];
      MemCpy(buf, at, sector[from..from + count]);
    }

    // One turn of the loop of tetfs_read: the bytes at pos up to the end of its block, or
    // nothing when the extent ends at pos.
    method CopyChunk(node: Inode, buf: array<byte>, done: nat, pos: nat, room: nat) returns (chunk: nat)
      requires WfDisk(disk) && node.start + node.count <= MAX_BLOCKS && node.count <= MAX_FILE_BLOCKS
      requires pos <= BLOCK_SIZE * node.count && 0 < room && done + room <= buf.Length
      modifies buf
      ensures chunk <= room && pos + chunk <= BLOCK_SIZE * node.count
      ensures chunk == 0 <==> pos == BLOCK_SIZE * node.count
      ensures buf[..] == Splice(old(buf[..]), done, Raw(ViewOf(disk), node)[pos..pos + chunk])
    {
      var blk := pos / BLOCK_SIZE % 0x1_0000;
      var blkOff := pos % BLOCK_SIZE;
      chunk := BLOCK_SIZE - blkOff;
      if chunk > room { chunk := room; }
      BlockOf(pos, node.count);
      if blk >= node.count { return 0; }
      NextChunk(ViewOf(disk), node, pos, chunk);
      CopyFromSector(LBA_DATA + node.start + blk, blkOff, chunk, buf, done);
    }

    // The loop of tetfs_read: at most left bytes of the extent, from an offset inside it.
    method CopyOut(node: Inode, buf: array<byte>, offset: nat, left: nat) returns (r: nat)
      requires WfDisk(disk) && node.start + node.count <= MAX_BLOCKS && node.count <= MAX_FILE_BLOCKS
      requires offset < BLOCK_SIZE * node.count && left <= buf.Length
      modifies buf
      ensures r == if offset + left <= BLOCK_SIZE * node.count then left else BLOCK_SIZE * node.count - offset
      ensures buf[..] == Splice(old(buf[..]), 0, Raw(ViewOf(disk), node)[offset..offset + r])
    {
      ghost var raw := Raw(ViewOf(disk), node);
      ghost var dst := buf[..];
      var done, pos := 0, offset;
      while done < left
        invariant 0 <= done <= left && pos == offset + done <= |raw|
        invariant buf[..] == Splice(dst, 0, raw[offset..pos])
      {
        var chunk := CopyChunk(node, buf, done, pos, left - done);
        if chunk == 0 { break; }
        SpliceGrows(dst, raw, offset, pos, chunk);
        done := done + chunk;
        pos := pos + chunk;
      }
      r := done;
    }
  }

  lemma BlockOf(pos: nat, count: nat)
    requires pos <= BLOCK_SIZE * count && count <= MAX_FILE_BLOCKS
    ensures pos / BLOCK_SIZE % 0x1_0000 == pos / BLOCK_SIZE
    ensures pos / BLOCK_SIZE >= count <==> pos == BLOCK_SIZE * count
  {
  }

  lemma SpliceGrows(dst: seq<byte>, raw: seq<byte>, offset: nat, pos: nat, chunk: nat)
    requires offset <= pos && pos + chunk <= |raw| && pos + chunk - offset <= |dst|
    ensures Splice(Splice(dst, 0, raw[offset..pos]), pos - offset, raw[pos..pos + chunk]) ==
      Splice(dst, 0, raw[offset..pos + chunk])
  {
  }

  lemma NextChunk(v: View, n: Inode, pos: nat, chunk: nat)
    requires WfView(v) && n.start + n.count <= MAX_BLOCKS
    requires pos / BLOCK_SIZE < n.count && pos % BLOCK_SIZE + chunk <= BLOCK_SIZE
    ensures pos + chunk <= |Raw(v, n)|
    ensures Raw(v, n)[pos..pos + chunk] ==
      v.blocks[n.start + pos / BLOCK_SIZE][pos % BLOCK_SIZE..pos % BLOCK_SIZE + chunk]
  {
    var (raw, blk, off) := (Raw(v, n), pos / BLOCK_SIZE, pos % BLOCK_SIZE);
    assert pos == BLOCK_SIZE * blk + off;
    var (read, stored) := (raw[pos..pos + chunk], v.blocks[n.start + blk][off..off + chunk]);
    forall k | 0 <= k < chunk
      ensures read[k] == stored[k]
    {
      assert pos + k == BLOCK_SIZE * blk + (off + k);
      assert (pos + k) / BLOCK_SIZE == blk && (pos + k) % BLOCK_SIZE == off + k;
      assert raw[pos + k] == v.blocks[n.start + blk][off + k];
    }
  }

  lemma ZeroDiskView(d: Sectors)
    requires WfDisk(d)
    requires forall lba | LBA_INODES <= lba < LBA_DATA :: d[lba] == Zeros(BLOCK_SIZE)
    ensures forall i | 0 <= i < MAX_INODES :: ViewOf(d).inodes[i] == ZeroInode()
    ensures forall b | 0 <= b < BITMAP_BITS :: !ViewOf(d).bits[b]
  {
    assert Zeros(INODE_SIZE)[1..52] == Zeros(NAME_SIZE) && Zeros(INODE_SIZE)[62..64] == Zeros(2);
    forall i | 0 <= i < MAX_INODES
      ensures InodeAt(d, i) == ZeroInode()
    {
      assert d[InodeLba(i)][InodeOffset(i)..InodeOffset(i) + INODE_SIZE] == Zeros(INODE_SIZE);
    }
    forall b | 0 <= b < BITMAP_BITS ensures !BitmapBit(BitmapOf(d), b) { ZeroBits(b % 8); }
  }
}
