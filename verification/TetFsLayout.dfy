// The on-disk format of tetFS: sectors, packed 64-byte inodes, the block bitmap, and the
// view of a disk as an inode table, a list of block bits and a list of data blocks.

module TetFsLayout {
  import opened Bits

  const LBA_SUPER := 256
  const LBA_INODES := 257
  const LBA_BITMAP := 261
  const LBA_DATA := 263
  const INODE_SIZE := 64
  const MAX_INODES := 32
  const BLOCK_SIZE := 512
  const MAX_BLOCKS := 1024
  const MAX_FILE_BLOCKS := 16
  const NAME_SIZE := 51
  const BITMAP_BITS := 8192
  const ROOT_INODE := 0
  const TYPE_FREE := 0
  const TYPE_FILE := 1
  const TYPE_DIR := 2
  const NO_PARENT := 0xFFFF

  type Sectors = seq<seq<byte>>

  datatype Inode = Inode(kind: byte, name: seq<byte>, size: nat, start: nat, count: nat,
                         parent: nat, reserved: seq<byte>)
  {
    // Every field fits the packed C structure.
    predicate Fits() {
      && |name| == NAME_SIZE && |reserved| == 2
      && size < WORD32 && start < 0x1_0000 && count < 0x1_0000 && parent < 0x1_0000
    }
  }

  // An inode after memset(&node, 0, sizeof node).
  function ZeroInode(): (n: Inode)
    ensures n.Fits()
  {
    Inode(0, Zeros(NAME_SIZE), 0, 0, 0, 0, Zeros(2))
  }

  // size, start_block, block_count and parent, little-endian, at offset 52.
  function Fields(n: Inode): (s: seq<byte>)
    requires n.Fits()
    ensures |s| == 10
  {
    (Le32(n.size) + Le16(n.start)) + (Le16(n.count) + Le16(n.parent))
  }

  function Encode(n: Inode): (s: seq<byte>)
    requires n.Fits()
    ensures |s| == INODE_SIZE
  {
    ([n.kind] + n.name) + (Fields(n) + n.reserved)
  }

  function Decode(s: seq<byte>): (n: Inode)
    requires |s| == INODE_SIZE
    ensures n.Fits()
  {
    Inode(s[0], s[1..52], Read32(s, 52), Read16(s, 56), Read16(s, 58), Read16(s, 60), s[62..64])
  }

  lemma DecodeEncode(n: Inode)
    requires n.Fits()
    ensures Decode(Encode(n)) == n
  {
    var s := Encode(n);
    assert s[1..52] == n.name;
    assert s[62..64] == n.reserved;
    assert s[52..62] == Fields(n);
    FieldsRead(n, s);
  }

  lemma FieldsRead(n: Inode, s: seq<byte>)
    requires n.Fits() && |s| == INODE_SIZE && s[52..62] == Fields(n)
    ensures Read32(s, 52) == n.size && Read16(s, 56) == n.start && Read16(s, 58) == n.count && Read16(s, 60) == n.parent
  {
    var f := Fields(n);
    var (low, high) := (n.size % 0x1_0000, n.size / 0x1_0000);
    assert f[0..2] == Le16(low) && f[2..4] == Le16(high);
    assert f[4..6] == Le16(n.start) && f[6..8] == Le16(n.count) && f[8..10] == Le16(n.parent);
    ReadLe16(s, 52, f, 0, low);
    ReadLe16(s, 54, f, 2, high);
    ReadLe16(s, 56, f, 4, n.start);
    ReadLe16(s, 58, f, 6, n.count);
    ReadLe16(s, 60, f, 8, n.parent);
  }

  // A 16-bit field among those from byte 52 on.
  lemma ReadLe16(s: seq<byte>, at: nat, f: seq<byte>, k: nat, x: nat)
    requires x < 0x1_0000 && at == 52 + k && k + 2 <= |f| == 10 && |s| == INODE_SIZE
    requires s[52..62] == f && f[k..k + 2] == Le16(x)
    ensures Read16(s, at) == x
  {
    assert s[at] == s[52..62][k] == f[k..k + 2][0] && s[at + 1] == s[52..62][k + 1] == f[k..k + 2][1];
  }

  /** Where the fields lie, little-endian: the type, 51 bytes of name, the size, the first block, the number
      of blocks, the parent and two bytes more. */
  lemma InodeBytes(n: Inode)
    requires n.Fits()
    ensures var s := Encode(n);
      && s[0] == n.kind && s[1..52] == n.name && s[62..64] == n.reserved
      && s[52] as int + 0x100 * s[53] as int + 0x1_0000 * s[54] as int + 0x100_0000 * s[55] as int == n.size
      && s[56] as int + 0x100 * s[57] as int == n.start && s[58] as int + 0x100 * s[59] as int == n.count
      && s[60] as int + 0x100 * s[61] as int == n.parent
  {
    DecodeEncode(n);
  }

  /** Inode i lies in sector 257 + i / 8, eight of 64 bytes to a sector; block b has bit b % 8 of byte b / 8
      of the two sectors from 261 on, and is itself sector 263 + b. */
  lemma OnDisk(d: Sectors, i: nat, b: nat)
    requires WfDisk(d) && i < 32 && b < 8192
    ensures ViewOf(d).inodes[i] == Decode(d[257 + i / 8][i % 8 * 64..i % 8 * 64 + 64])
    ensures ViewOf(d).bits[b] <==> Bit(if b < 4096 then d[261][b / 8] else d[262][b / 8 - 512], b % 8)
    ensures b < 1024 ==> ViewOf(d).blocks[b] == d[263 + b]
  {
    assert ViewOf(d).bits[b] == BitmapBit(BitmapOf(d), b);
  }

  // The bytes before the terminator: what strcmp compares.
  function CString(s: seq<byte>): (r: seq<byte>)
    ensures 0 !in r && |r| <= |s| && r == s[..|r|]
    ensures |r| < |s| ==> s[|r|] == 0
    ensures |r| == |s| ==> 0 !in s
  {
    if s == [] || s[0] == 0 then [] else [s[0]] + CString(s[1..])
  }

  // A disk large enough for the file system, made of 512-byte sectors.
  ghost predicate WfDisk(d: Sectors) {
    && LBA_DATA + MAX_BLOCKS <= |d|
    && forall i | 0 <= i < |d| :: |d[i]| == BLOCK_SIZE
  }

  function InodeLba(i: nat): nat { LBA_INODES + i / 8 }

  function InodeOffset(i: nat): nat { i % 8 * INODE_SIZE }

  ghost function InodeAt(d: Sectors, i: nat): (n: Inode)
    requires WfDisk(d) && i < MAX_INODES
    ensures n.Fits()
  {
    Decode(d[InodeLba(i)][InodeOffset(i)..InodeOffset(i) + INODE_SIZE])
  }

  ghost function PutInode(d: Sectors, i: nat, n: Inode): (r: Sectors)
    requires WfDisk(d) && i < MAX_INODES && n.Fits()
    ensures WfDisk(r) && |r| == |d|
  {
    d[InodeLba(i) := Splice(d[InodeLba(i)], InodeOffset(i), Encode(n))]
  }

  predicate BitmapBit(bm: seq<byte>, b: nat)
    requires |bm| == BITMAP_BITS / 8 && b < BITMAP_BITS
  {
    Bit(bm[b / 8], b % 8)
  }

  ghost function BitmapOf(d: Sectors): (bm: seq<byte>)
    requires WfDisk(d)
    ensures |bm| == BITMAP_BITS / 8
  {
    d[LBA_BITMAP] + d[LBA_BITMAP + 1]
  }

  ghost function PutBitmap(d: Sectors, bm: seq<byte>): (r: Sectors)
    requires WfDisk(d) && |bm| == BITMAP_BITS / 8
    ensures WfDisk(r) && |r| == |d|
  {
    d[LBA_BITMAP := bm[..512]][LBA_BITMAP + 1 := bm[512..]]
  }

  // Replacing a run of data blocks.
  ghost function PutBlocks(d: Sectors, start: nat, blocks: seq<seq<byte>>): (r: Sectors)
    requires WfDisk(d) && start + |blocks| <= MAX_BLOCKS
    requires forall i | 0 <= i < |blocks| :: |blocks[i]| == BLOCK_SIZE
    ensures WfDisk(r) && |r| == |d|
  {
    Splice(d, LBA_DATA + start, blocks)
  }

  function BitsOf(bm: seq<byte>): (bits: seq<bool>)
    requires |bm| == BITMAP_BITS / 8
    ensures |bits| == BITMAP_BITS
    ensures forall b | 0 <= b < BITMAP_BITS :: bits[b] == BitmapBit(bm, b)
  {
    seq(BITMAP_BITS, b requires 0 <= b < BITMAP_BITS => BitmapBit(bm, b))
  }

  // What the rest of the model reasons about.
  datatype View = View(inodes: seq<Inode>, bits: seq<bool>, blocks: seq<seq<byte>>)

  ghost predicate WfView(v: View) {
    && |v.inodes| == MAX_INODES && (forall i | 0 <= i < MAX_INODES :: v.inodes[i].Fits())
    && |v.bits| == BITMAP_BITS
    && |v.blocks| == MAX_BLOCKS && (forall k | 0 <= k < MAX_BLOCKS :: |v.blocks[k]| == BLOCK_SIZE)
  }

  ghost function ViewOf(d: Sectors): (v: View)
    requires WfDisk(d)
    ensures WfView(v)
    ensures forall i | 0 <= i < MAX_INODES :: v.inodes[i] == InodeAt(d, i)
  {
    View(seq(MAX_INODES, i requires 0 <= i < MAX_INODES => InodeAt(d, i)),
         BitsOf(BitmapOf(d)),
         d[LBA_DATA..LBA_DATA + MAX_BLOCKS])
  }

  /** An inode write reads back, and leaves the other inodes of its sector, the bitmap and the
      data blocks as they were. */
  lemma PutInodeView(d: Sectors, i: nat, n: Inode)
    requires WfDisk(d) && i < MAX_INODES && n.Fits()
    ensures ViewOf(PutInode(d, i, n)) == ViewOf(d).(inodes := ViewOf(d).inodes[i := n])
  {
    var d' := PutInode(d, i, n);
    DecodeEncode(n);
    forall j | 0 <= j < MAX_INODES
      ensures InodeAt(d', j) == if j == i then n else InodeAt(d, j)
    {
      PutInodeAt(d, i, n, j);
    }
    assert ViewOf(d').inodes == ViewOf(d).inodes[i := n];
    assert BitmapOf(d') == BitmapOf(d);
    assert ViewOf(d').blocks == ViewOf(d).blocks;
  }

  lemma PutInodeAt(d: Sectors, i: nat, n: Inode, j: nat)
    requires WfDisk(d) && i < MAX_INODES && n.Fits() && j < MAX_INODES
    ensures InodeAt(PutInode(d, i, n), j) == if j == i then n else InodeAt(d, j)
  {
    DecodeEncode(n);
    var d' := PutInode(d, i, n);
    var (o, p) := (InodeOffset(j), InodeOffset(i));
    var (s, s') := (d[InodeLba(j)], d'[InodeLba(j)]);
    if j == i {
      assert s'[o..o + INODE_SIZE] == Encode(n);
    } else if InodeLba(j) == InodeLba(i) {
      assert o + INODE_SIZE <= p || p + INODE_SIZE <= o;
      assert s'[o..o + INODE_SIZE] == s[o..o + INODE_SIZE];
    }
  }

  lemma PutBitmapView(d: Sectors, bm: seq<byte>)
    requires WfDisk(d) && |bm| == BITMAP_BITS / 8
    ensures ViewOf(PutBitmap(d, bm)) == ViewOf(d).(bits := BitsOf(bm))
  {
    var d' := PutBitmap(d, bm);
    assert BitmapOf(d') == bm;
    assert forall i | 0 <= i < MAX_INODES :: InodeAt(d', i) == InodeAt(d, i);
    assert ViewOf(d').inodes == ViewOf(d).inodes;
    assert ViewOf(d').blocks == ViewOf(d).blocks;
  }

  lemma PutBlocksView(d: Sectors, start: nat, blocks: seq<seq<byte>>)
    requires WfDisk(d) && start + |blocks| <= MAX_BLOCKS
    requires forall i | 0 <= i < |blocks| :: |blocks[i]| == BLOCK_SIZE
    ensures ViewOf(PutBlocks(d, start, blocks)) == ViewOf(d).(blocks := Splice(ViewOf(d).blocks, start, blocks))
  {
    var d' := PutBlocks(d, start, blocks);
    assert BitmapOf(d') == BitmapOf(d);
    assert forall i | 0 <= i < MAX_INODES :: InodeAt(d', i) == InodeAt(d, i);
    assert ViewOf(d').inodes == ViewOf(d).inodes;
    assert ViewOf(d').blocks == Splice(ViewOf(d).blocks, start, blocks);
  }
}
