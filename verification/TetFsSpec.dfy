// What each tetFS operation does to the view of the disk, and what it means for the abstract
// table of files.

module TetFsSpec {
  import opened Bits
  import opened TetFsLayout

  // ---- the abstract file system ----

  datatype Entry = Entry(name: seq<byte>, parent: nat, kind: byte, content: seq<byte>)

  type Table = map<nat, Entry>

  datatype Op =
    | Create(name: seq<byte>, parent: nat, kind: byte)
    | Delete(idx: nat)
    | Write(idx: nat, buf: seq<byte>)

  // The kernel stores at most 50 bytes of a name.
  function Truncated(name: seq<byte>): seq<byte> {
    if |name| <= NAME_SIZE - 1 then name else name[..NAME_SIZE - 1]
  }

  ghost predicate Named(t: Table, i: nat, name: seq<byte>, parent: nat) {
    i in t && i != ROOT_INODE && t[i].name == name && t[i].parent == parent
  }

  // One operation on the table. Whether a write finds room depends on how the blocks are laid
  // out, so a write of something may fail here; TetFsTheorems.WriteSucceedsIff says when it does.
  // Emptying a file never does.
  ghost predicate TableStep(t: Table, op: Op, r: int, t': Table) {
    match op
    case Create(name, parent, kind) =>
      if (exists i :: Named(t, i, name, parent)) || (forall i | 1 <= i < MAX_INODES :: i in t) then
        r == -1 && t' == t
      else
        && 1 <= r < MAX_INODES && r !in t && (forall i | 1 <= i < r :: i in t)
        && t' == t[r := Entry(Truncated(name), parent, kind, [])]
    case Delete(idx) =>
      if idx in t && idx != ROOT_INODE then r == 0 && t' == t - {idx} else r == -1 && t' == t
    case Write(idx, buf) =>
      || (r == -1 && t' == t && !(buf == [] && idx in t && t[idx].kind == TYPE_FILE))
      || (r == 0 && idx in t && t[idx].kind == TYPE_FILE && t' == t[idx := t[idx].(content := buf)])
  }

  // ---- the concrete operations, on views ----

  ghost predicate Live(v: View, i: nat)
    requires WfView(v)
  {
    i < MAX_INODES && v.inodes[i].kind != TYPE_FREE
  }

  ghost predicate Owns(v: View, i: nat, b: nat)
    requires WfView(v)
  {
    Live(v, i) && v.inodes[i].start <= b < v.inodes[i].start + v.inodes[i].count
  }

  ghost predicate WfInode(n: Inode) {
    && 0 in n.name && n.count <= MAX_FILE_BLOCKS && n.start + n.count <= MAX_BLOCKS
    && n.size <= BLOCK_SIZE * n.count
  }

  // What every reachable disk satisfies: a bitmap bit is set exactly when one live inode owns
  // the block, and no block has two owners.
  ghost predicate Inv(v: View) {
    && WfView(v)
    && v.inodes[ROOT_INODE].kind == TYPE_DIR
    && (forall i: nat | Live(v, i) :: WfInode(v.inodes[i]))
    && (forall b | 0 <= b < BITMAP_BITS :: v.bits[b] <==> exists i: nat :: Owns(v, i, b))
    && (forall i: nat, j: nat, b: nat :: Owns(v, i, b) && Owns(v, j, b) ==> i == j)
  }

  // The bytes of an inode's extent, block after block.
  ghost function Raw(v: View, n: Inode): (s: seq<byte>)
    requires WfView(v) && n.start + n.count <= MAX_BLOCKS
    ensures |s| == BLOCK_SIZE * n.count
  {
    seq(BLOCK_SIZE * n.count, p requires 0 <= p < BLOCK_SIZE * n.count =>
      v.blocks[n.start + p / BLOCK_SIZE][p % BLOCK_SIZE])
  }

  ghost function EntryOf(v: View, i: nat): Entry
    requires Inv(v) && Live(v, i)
  {
    var n := v.inodes[i];
    Entry(CString(n.name), n.parent, n.kind, Raw(v, n)[..n.size])
  }

  ghost function TableOf(v: View): (t: Table)
    requires Inv(v)
    ensures forall i :: i in t <==> Live(v, i)
    ensures forall i | i in t :: t[i] == EntryOf(v, i)
  {
    map i: nat | 0 <= i < MAX_INODES && Live(v, i) :: EntryOf(v, i)
  }

  // tetfs_find: the first live non-root inode with this parent and name, or -1.
  ghost function Find(v: View, name: seq<byte>, parent: nat, from: nat): (r: int)
    requires WfView(v) && 1 <= from <= MAX_INODES
    ensures r == -1 || (from <= r < MAX_INODES && Matches(v, r, name, parent))
    ensures forall i | from <= i < (if r == -1 then MAX_INODES else r) :: !Matches(v, i, name, parent)
    decreases |v.inodes| - from
  {
    if from == MAX_INODES then -1
    else if Matches(v, from, name, parent) then from
    else Find(v, name, parent, from + 1)
  }

  ghost predicate Matches(v: View, i: nat, name: seq<byte>, parent: nat)
    requires WfView(v)
  {
    Live(v, i) && v.inodes[i].parent == parent && CString(v.inodes[i].name) == name
  }

  ghost function FirstFree(v: View, from: nat): (r: int)
    requires WfView(v) && 1 <= from <= MAX_INODES
    ensures r == -1 || (from <= r < MAX_INODES && !Live(v, r))
    ensures forall i | from <= i < (if r == -1 then MAX_INODES else r) :: Live(v, i)
    decreases |v.inodes| - from
  {
    if from == MAX_INODES then -1 else if !Live(v, from) then from else FirstFree(v, from + 1)
  }

  function StoredName(name: seq<byte>): (s: seq<byte>)
    ensures |s| == NAME_SIZE
  {
    Truncated(name) + Zeros(NAME_SIZE - |Truncated(name)|)
  }

  function NewInode(name: seq<byte>, parent: nat, kind: byte): Inode {
    ZeroInode().(kind := kind, parent := parent, name := StoredName(name))
  }

  ghost function DoCreate(v: View, name: seq<byte>, parent: nat, kind: byte): (res: (View, int))
    requires WfView(v) && parent < 0x1_0000
    ensures WfView(res.0)
  {
    var i := FirstFree(v, 1);
    if Find(v, name, parent, 1) != -1 || i == -1 then (v, -1)
    else (v.(inodes := v.inodes[i := NewInode(name, parent, kind)]), i)
  }

  // The block bits with a range forced to one value.
  ghost function Fill(bits: seq<bool>, start: nat, count: nat, val: bool): (r: seq<bool>)
    ensures |r| == |bits|
    ensures forall b | 0 <= b < |bits| :: r[b] == if start <= b < start + count then val else bits[b]
  {
    seq(|bits|, b requires 0 <= b < |bits| => if start <= b < start + count then val else bits[b])
  }

  ghost function Reclaimed(v: View, n: Inode): (r: seq<bool>)
    requires WfView(v)
    ensures |r| == BITMAP_BITS
  {
    Fill(v.bits, n.start, n.count, false)
  }

  ghost function DoDelete(v: View, idx: nat): (res: (View, int))
    requires WfView(v)
    ensures WfView(res.0)
  {
    if idx == ROOT_INODE || !Live(v, idx) then (v, -1)
    else (v.(bits := Reclaimed(v, v.inodes[idx]), inodes := v.inodes[idx := ZeroInode()]), 0)
  }

  ghost predicate FreeRun(bits: seq<bool>, start: nat, count: nat)
    requires |bits| == BITMAP_BITS
  {
    start + count <= MAX_BLOCKS && forall b | start <= b < start + count :: !bits[b]
  }

  // Where first fit places an extent: the lowest free run, or -1.
  ghost function LowestRun(bits: seq<bool>, count: nat, from: nat): (r: int)
    requires |bits| == BITMAP_BITS && from <= MAX_BLOCKS
    ensures r == -1 || (from <= r && FreeRun(bits, r, count))
    ensures forall s | from <= s && (r == -1 || s < r) :: !FreeRun(bits, s, count)
    decreases |bits| - from
  {
    if FreeRun(bits, from, count) then from
    else if from == MAX_BLOCKS then -1
    else LowestRun(bits, count, from + 1)
  }

  // (uint16_t)((len + 511) / 512), with the sum in 32 bits.
  function Needed(len: nat): (k: nat)
    requires len < WORD32
  {
    Add32(len, BLOCK_SIZE - 1) / BLOCK_SIZE % 0x1_0000
  }

  // Block i of a file with this content, zero-padded.
  function Block(buf: seq<byte>, i: nat): (s: seq<byte>)
    ensures |s| == BLOCK_SIZE
  {
    seq(BLOCK_SIZE, k requires 0 <= k < BLOCK_SIZE =>
      if BLOCK_SIZE * i + k < |buf| then buf[BLOCK_SIZE * i + k] else 0)
  }

  function Blocks(buf: seq<byte>, n: nat): (s: seq<seq<byte>>)
    ensures |s| == n && forall i | 0 <= i < n :: s[i] == Block(buf, i)
  {
    seq(n, i requires 0 <= i < n => Block(buf, i))
  }

  // alloc_blocks with a count of 0 (only after truncation) still looks for one free block.
  function RunLength(count: nat): nat { if count == 0 then 1 else count }

  ghost function PlacedAt(v: View, idx: nat, len: nat): (r: int)
    requires WfView(v) && idx < MAX_INODES && len < WORD32
  {
    LowestRun(Reclaimed(v, v.inodes[idx]), RunLength(Needed(len)), 0)
  }

  ghost function DoWrite(v: View, idx: nat, buf: seq<byte>): (res: (View, int))
    requires WfView(v) && |buf| < WORD32
    ensures WfView(res.0)
  {
    if idx >= MAX_INODES || v.inodes[idx].kind != TYPE_FILE then (v, -1)
    else
      var n := v.inodes[idx];
      var k := Needed(|buf|);
      if buf == [] then (v.(inodes := v.inodes[idx := n.(size := 0)]), 0)
      else if k > MAX_FILE_BLOCKS || PlacedAt(v, idx, |buf|) == -1 then (v, -1)
      else
        var s := PlacedAt(v, idx, |buf|);
        (View(v.inodes[idx := n.(start := s, count := k, size := |buf|)],
              Fill(Reclaimed(v, n), s, k, true),
              Splice(v.blocks, s, Blocks(buf, k))), 0)
  }

  datatype ReadResult = Failed | Bytes(bytes: seq<byte>)

  // What tetfs_read copies out of an extent, including what the 32-bit sum offset + len does
  // when it wraps.
  function ReadBytes(raw: seq<byte>, size: nat, offset: nat, len: nat): (s: seq<byte>)
    requires size <= |raw| && offset < WORD32 && len < WORD32
    ensures |s| <= len
  {
    if offset >= size then []
    else if Add32(offset, len) > size then raw[offset..size]
    else raw[offset..if offset + len <= |raw| then offset + len else |raw|]
  }

  // The inode, if it is a file, has its bytes on the disk.
  ghost predicate Readable(v: View, idx: nat) {
    && WfView(v)
    && (idx < MAX_INODES && v.inodes[idx].kind == TYPE_FILE ==> WfInode(v.inodes[idx]))
  }

  ghost function DoRead(v: View, idx: nat, offset: nat, len: nat): ReadResult
    requires Readable(v, idx) && offset < WORD32 && len < WORD32
  {
    if idx >= MAX_INODES || v.inodes[idx].kind != TYPE_FILE then Failed
    else Bytes(ReadBytes(Raw(v, v.inodes[idx]), v.inodes[idx].size, offset, len))
  }

  ghost function Step(v: View, op: Op): (res: (View, int))
    requires WfView(v) && Callable(op)
    ensures WfView(res.0)
  {
    match op
    case Create(name, parent, kind) => DoCreate(v, name, parent, kind)
    case Delete(idx) => DoDelete(v, idx)
    case Write(idx, buf) => DoWrite(v, idx, buf)
  }

  // The arguments are C values of their parameter types; names are C strings.
  predicate Callable(op: Op) {
    match op
    case Create(name, parent, kind) => 0 !in name && parent < 0x1_0000
    case Delete(idx) => idx < 0x1_0000
    case Write(idx, buf) => idx < 0x1_0000 && |buf| < WORD32
  }

  // The calls that keep a disk well formed: those whose block count survives its cast to 16
  // bits, and creations of something other than a free inode.
  const MAX_WRITE := 33_553_920

  predicate Sensible(op: Op) {
    && Callable(op)
    && (op.Create? ==> op.kind != TYPE_FREE)
    && (op.Write? ==> |op.buf| <= MAX_WRITE)
  }

  // ---- format ----

  ghost predicate Formatted(v: View) {
    && WfView(v)
    && v.inodes[ROOT_INODE] == NewInode([0x2F], NO_PARENT, TYPE_DIR)
    && (forall i | 1 <= i < MAX_INODES :: v.inodes[i] == ZeroInode())
    && (forall b | 0 <= b < BITMAP_BITS :: !v.bits[b])
  }
}
