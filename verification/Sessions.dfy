// Runs of calls around one open descriptor: reading a file to the end while the rest of the disk
// changes, and whether the descriptor still names the file it was opened on.

module Sessions {
  import opened Bits
  import opened TetFsLayout
  import opened TetFsSpec
  import opened TetFsTheorems
  import opened TetFsDriver
  import opened Vfs
  import opened Fds

  // A read of len bytes through the descriptor, or a call by anyone else.
  datatype Event = Chunk(len: nat) | Change(op: Op)

  // The file of this inode is neither deleted nor rewritten.
  predicate Spares(e: Event, inode: nat) {
    match e
    case Chunk(len) => len < WORD32
    case Change(op) => Sensible(op) && op != Delete(inode) && !(op.Write? && op.idx == inode)
  }

  ghost predicate AllSpare(es: seq<Event>, inode: nat) {
    forall k | 0 <= k < |es| :: Spares(es[k], inode)
  }

  // How much is asked for in all.
  function Asked(es: seq<Event>): nat {
    if |es| == 0 then 0 else (if es[0].Chunk? then es[0].len else 0) + Asked(es[1..])
  }

  // No read reaches past the 32 bits of offset + len.
  ghost predicate NoWrap(size: nat, offset: nat, es: seq<Event>)
    decreases |es|
  {
    |es| > 0 ==>
      match es[0]
      case Chunk(len) => offset + len < WORD32 && NoWrap(size, End(size, offset, len), es[1..])
      case Change(_) => NoWrap(size, offset, es[1..])
  }

  ghost predicate IsFile(v: View, inode: nat) {
    Inv(v) && inode < MAX_INODES && v.inodes[inode].kind == TYPE_FILE
  }

  ghost function ContentOf(v: View, inode: nat): seq<byte>
    requires IsFile(v, inode)
  {
    EntryOf(v, inode).content
  }

  // A descriptor inside a file, before calls that leave it alone.
  ghost predicate Reading(v: View, inode: nat, offset: nat, es: seq<Event>) {
    && IsFile(v, inode) && offset <= |ContentOf(v, inode)| < WORD32
    && AllSpare(es, inode) && NoWrap(|ContentOf(v, inode)|, offset, es)
  }

  // ---- what the descriptor delivers ----

  // What a read returns, a failure returning nothing.
  ghost function Got(v: View, inode: nat, offset: nat, len: nat): (b: seq<byte>)
    requires Inv(v) && offset < WORD32 && len < WORD32
  {
    InvReadable(v, inode);
    match DoRead(v, inode, offset, len)
    case Failed => []
    case Bytes(b) => b
  }

  // The disk and the offset after one event, and the bytes it delivered.
  ghost function Next(v: View, inode: nat, offset: nat, e: Event): (res: (View, nat, seq<byte>))
    requires Inv(v) && offset < WORD32 && Spares(e, inode)
    ensures Inv(res.0) && res.1 < WORD32
  {
    match e
    case Chunk(len) => var b := Got(v, inode, offset, len); (v, Add32(offset, |b|), b)
    case Change(op) =>
      StepRefines(v, op);
      (Step(v, op).0, offset, [])
  }

  // The disk and the offset after a run of events, and the bytes they delivered put together.
  ghost function Delivered(v: View, inode: nat, offset: nat, es: seq<Event>): (res: (View, nat, seq<byte>))
    requires Inv(v) && offset < WORD32 && AllSpare(es, inode)
    ensures Inv(res.0) && res.1 < WORD32
    decreases |es|
  {
    if |es| == 0 then (v, offset, [])
    else
      assert Spares(es[0], inode);
      var (v', offset', b) := Next(v, inode, offset, es[0]);
      var (last, end, more) := Delivered(v', inode, offset', es[1..]);
      (last, end, b + more)
  }

  // What one call does to one entry.
  lemma EntryAfter(t: TetFsSpec.Table, op: Op, r: int, t': TetFsSpec.Table, inode: nat)
    requires TableStep(t, op, r, t') && inode in t && inode != ROOT_INODE
    ensures inode in t' <==> op != Delete(inode)
    ensures inode in t' ==> t'[inode].(content := []) == t[inode].(content := [])
    ensures inode in t' && !(op.Write? && op.idx == inode) ==> t'[inode] == t[inode]
  {
  }

  lemma StepOnEntry(v: View, op: Op, inode: nat)
    requires Inv(v) && Sensible(op) && Live(v, inode) && inode != ROOT_INODE
    ensures var v' := Step(v, op).0;
      && Inv(v') && (Live(v', inode) <==> op != Delete(inode))
      && (Live(v', inode) ==> EntryOf(v', inode).(content := []) == EntryOf(v, inode).(content := []))
      && (Live(v', inode) && !(op.Write? && op.idx == inode) ==> EntryOf(v', inode) == EntryOf(v, inode))
  {
    StepRefines(v, op);
    var (v', r) := Step(v, op);
    EntryAfter(TableOf(v), op, r, TableOf(v'), inode);
    assert TableOf(v)[inode] == EntryOf(v, inode);
    assert inode in TableOf(v') ==> TableOf(v')[inode] == EntryOf(v', inode);
  }

  // A call that spares the file leaves its entry as it was.
  lemma ChangeKeepsFile(v: View, op: Op, inode: nat)
    requires IsFile(v, inode) && Spares(Change(op), inode)
    ensures IsFile(Step(v, op).0, inode) && EntryOf(Step(v, op).0, inode) == EntryOf(v, inode)
  {
    assert inode != ROOT_INODE;
    StepOnEntry(v, op, inode);
    assert EntryOf(Step(v, op).0, inode).kind == TYPE_FILE;
  }

  lemma ChunkReads(v: View, inode: nat, offset: nat, len: nat)
    requires IsFile(v, inode) && offset <= |ContentOf(v, inode)| && offset + len < WORD32
    ensures |ContentOf(v, inode)| == v.inodes[inode].size < WORD32
    ensures var content := ContentOf(v, inode);
      Got(v, inode, offset, len) == content[offset..End(|content|, offset, len)]
  {
    ReadMeaning(v, inode, offset, len);
    assert TableOf(v)[inode] == EntryOf(v, inode);
    InvReadable(v, inode);
  }

  // One event delivers the next piece of the content and leaves the rest to read.
  lemma {:induction false} ReadingStep(v: View, inode: nat, offset: nat, es: seq<Event>)
    requires Reading(v, inode, offset, es) && |es| > 0
    ensures Spares(es[0], inode)
    ensures var (v', e, b) := Next(v, inode, offset, es[0]);
      && Reading(v', inode, e, es[1..]) && ContentOf(v', inode) == ContentOf(v, inode)
      && offset <= e && b == ContentOf(v, inode)[offset..e]
      && e == End(|ContentOf(v, inode)|, offset, Asked(es[..1]))
  {
    assert Spares(es[0], inode);
    assert Asked(es[..1]) == (if es[0].Chunk? then es[0].len else 0) + Asked([]);
    match es[0]
    case Chunk(len) => ChunkReads(v, inode, offset, len);
    case Change(op) => ChangeKeepsFile(v, op, inode);
  }

  /** Whatever other files are created, deleted or written in between, successive reads of any sizes
      through one descriptor deliver the content from its offset on, in order and as far as they ask,
      while the file itself is neither deleted nor rewritten and no read wraps around. */
  lemma {:induction false} DescriptorDeliversContent(v: View, inode: nat, offset: nat, es: seq<Event>)
    requires Reading(v, inode, offset, es)
    ensures var content := ContentOf(v, inode);
      var end := End(|content|, offset, Asked(es));
      && Delivered(v, inode, offset, es).1 == end
      && Delivered(v, inode, offset, es).2 == content[offset..end]
    decreases |es|
  {
    if |es| > 0 {
      ReadingStep(v, inode, offset, es);
      var (v', e, b) := Next(v, inode, offset, es[0]);
      var content := ContentOf(v, inode);
      DescriptorDeliversContent(v', inode, e, es[1..]);
      SlicesJoin(content, offset, e, End(|content|, e, Asked(es[1..])));
    }
  }

  // ---- the calls that do this ----

  method Apply(fs: TetFs, op: Op) returns (r: int)
    requires fs.Valid() && Sensible(op)
    modifies fs`disk
    ensures fs.Valid() && (ViewOf(fs.disk), r) == Step(old(ViewOf(fs.disk)), op)
  {
    match op
    case Create(name, parent, kind) => r := fs.Create(name, parent, kind);
    case Delete(idx) => r := fs.Delete(idx);
    case Write(idx, buf) => r := fs.Write(idx, buf);
  }

  method VfsChunk(table: Vfs.Table, fd: int, len: nat) returns (b: seq<byte>)
    requires table.Valid() && table.IsOpen(fd) && len < WORD32
    modifies table.files
    ensures table.Valid()
    ensures var f := old(table.files[fd]);
      && b == Got(ViewOf(table.fs.disk), f.inode, f.offset, len)
      && table.files[..] == old(table.files[..])[fd := f.(offset := Add32(f.offset, |b|))]
  {
    var buf := new byte[len](_ => 0);
    var r := table.Read(fd, buf, len);
    b := if r > 0 then buf[..r] else [];
  }

  method VfsEvent(table: Vfs.Table, fd: int, e: Event) returns (b: seq<byte>)
    requires table.Valid() && table.IsOpen(fd) && Spares(e, table.files[fd].inode)
    modifies table.fs`disk, table.files
    ensures table.Valid()
    ensures var (f, v) := (old(table.files[fd]), old(ViewOf(table.fs.disk)));
      var (v', offset, delivered) := Next(v, f.inode, f.offset, e);
      && ViewOf(table.fs.disk) == v' && b == delivered
      && table.files[..] == old(table.files[..])[fd := f.(offset := offset)]
  {
    match e
    case Chunk(len) => b := VfsChunk(table, fd, len);
    case Change(op) =>
      var _ := Apply(table.fs, op);
      b := [];
      assert table.files[..] == old(table.files[..])[fd := old(table.files[fd])];
  }

  // A run of vfs_read calls on one descriptor and of calls by anyone else.
  method RunVfs(table: Vfs.Table, fd: int, es: seq<Event>) returns (out: seq<byte>)
    requires table.Valid() && table.IsOpen(fd) && AllSpare(es, table.files[fd].inode)
    modifies table.fs`disk, table.files
    ensures table.Valid()
    ensures var (f, v) := (old(table.files[fd]), old(ViewOf(table.fs.disk)));
      var (v', offset, delivered) := Delivered(v, f.inode, f.offset, es);
      && ViewOf(table.fs.disk) == v' && out == delivered
      && table.files[..] == old(table.files[..])[fd := f.(offset := offset)]
    decreases |es|
  {
    if |es| == 0 {
      assert table.files[..] == old(table.files[..])[fd := old(table.files[fd])];
      return [];
    }
    assert Spares(es[0], table.files[fd].inode);
    var b := VfsEvent(table, fd, es[0]);
    var more := RunVfs(table, fd, es[1..]);
    out := b + more;
  }

  /** Successive vfs_read calls on one descriptor, between calls of anyone else on the same disk:
      the bytes they return, put together, are the content from the descriptor's offset on, and
      the offset is behind them. */
  method ReadThroughVfs(table: Vfs.Table, fd: int, es: seq<Event>) returns (out: seq<byte>)
    requires table.Valid() && table.IsOpen(fd)
    requires Reading(ViewOf(table.fs.disk), table.files[fd].inode, table.files[fd].offset, es)
    modifies table.fs`disk, table.files
    ensures table.Valid()
    ensures var f := old(table.files[fd]);
      var content := old(ContentOf(ViewOf(table.fs.disk), table.files[fd].inode));
      var end := End(|content|, f.offset, Asked(es));
      && out == content[f.offset..end]
      && table.files[..] == old(table.files[..])[fd := f.(offset := end)]
  {
    DescriptorDeliversContent(ViewOf(table.fs.disk), table.files[fd].inode, table.files[fd].offset, es);
    out := RunVfs(table, fd, es);
  }

  method FsEvent(table: FdTable, fd: int, e: Event) returns (b: seq<byte>)
    requires table.Valid() && table.IsOpen(fd) && Spares(e, table.fds[fd].inode)
    modifies table.fs`disk, table.fds
    ensures table.Valid()
    ensures var (f, v) := (old(table.fds[fd]), old(ViewOf(table.fs.disk)));
      var (v', offset, delivered) := Next(v, f.inode, f.offset, e);
      && ViewOf(table.fs.disk) == v' && b == delivered
      && table.fds[..] == old(table.fds[..])[fd := f.(offset := offset)]
  {
    match e
    case Chunk(len) =>
      var buf := new byte[len](_ => 0);
      var r := table.Read(fd, buf, len);
      b := if r > 0 then buf[..r] else [];
    case Change(op) =>
      var _ := Apply(table.fs, op);
      b := [];
      assert table.fds[..] == old(table.fds[..])[fd := old(table.fds[fd])];
  }

  // A run of fs_read calls on one descriptor and of calls by anyone else.
  method RunFs(table: FdTable, fd: int, es: seq<Event>) returns (out: seq<byte>)
    requires table.Valid() && table.IsOpen(fd) && AllSpare(es, table.fds[fd].inode)
    modifies table.fs`disk, table.fds
    ensures table.Valid()
    ensures var (f, v) := (old(table.fds[fd]), old(ViewOf(table.fs.disk)));
      var (v', offset, delivered) := Delivered(v, f.inode, f.offset, es);
      && ViewOf(table.fs.disk) == v' && out == delivered
      && table.fds[..] == old(table.fds[..])[fd := f.(offset := offset)]
    decreases |es|
  {
    if |es| == 0 {
      assert table.fds[..] == old(table.fds[..])[fd := old(table.fds[fd])];
      return [];
    }
    assert Spares(es[0], table.fds[fd].inode);
    var b := FsEvent(table, fd, es[0]);
    var more := RunFs(table, fd, es[1..]);
    out := b + more;
  }

  /** The same of fs_read. */
  method ReadThroughFs(table: FdTable, fd: int, es: seq<Event>) returns (out: seq<byte>)
    requires table.Valid() && table.IsOpen(fd)
    requires Reading(ViewOf(table.fs.disk), table.fds[fd].inode, table.fds[fd].offset, es)
    modifies table.fs`disk, table.fds
    ensures table.Valid()
    ensures var f := old(table.fds[fd]);
      var content := old(ContentOf(ViewOf(table.fs.disk), table.fds[fd].inode));
      var end := End(|content|, f.offset, Asked(es));
      && out == content[f.offset..end]
      && table.fds[..] == old(table.fds[..])[fd := f.(offset := end)]
  {
    DescriptorDeliversContent(ViewOf(table.fs.disk), table.fds[fd].inode, table.fds[fd].offset, es);
    out := RunFs(table, fd, es);
  }

  // ---- which file a descriptor names ----

  // The inode stays in use at every point of the run.
  ghost predicate LiveThroughout(v: View, ops: seq<Op>, inode: nat)
    requires WfView(v) && SensibleRun(ops)
    decreases |ops|
  {
    Live(v, inode) && (|ops| > 0 ==> LiveThroughout(Step(v, ops[0]).0, ops[1..], inode))
  }

  /** A descriptor holds an inode number. It goes on naming the file it was opened on, under the same
      name in the same directory, exactly as long as nobody deletes that inode. */
  lemma {:induction false} NamesTheFileIff(v: View, ops: seq<Op>, inode: nat)
    requires Inv(v) && SensibleRun(ops) && Live(v, inode) && inode != ROOT_INODE
    ensures LiveThroughout(v, ops, inode) <==> Delete(inode) !in ops
    ensures var v' := Run(v, ops);
      LiveThroughout(v, ops, inode) ==>
        Inv(v') && Live(v', inode) && EntryOf(v', inode).(content := []) == EntryOf(v, inode).(content := [])
    decreases |ops|
  {
    if |ops| > 0 {
      var v1 := Step(v, ops[0]).0;
      StepOnEntry(v, ops[0], inode);
      if ops[0] != Delete(inode) { NamesTheFileIff(v1, ops[1..], inode); }
    }
  }

  // Deleting an entry and creating another.
  lemma ReusedEntry(t: TetFsSpec.Table, t1: TetFsSpec.Table, inode: nat, op: Op, r: int, t2: TetFsSpec.Table)
    requires inode in t && 1 <= inode < MAX_INODES && TableStep(t, Delete(inode), 0, t1)
    requires op.Create? && (forall i: nat :: !Named(t, i, op.name, op.parent)) && TableStep(t1, op, r, t2)
    ensures 1 <= r <= inode && (r == inode <==> forall j | 1 <= j < inode :: j in t)
    ensures r == inode ==> inode in t2 && t2[inode] == Entry(Truncated(op.name), op.parent, op.kind, [])
  {
    assert forall i: nat | Named(t1, i, op.name, op.parent) :: Named(t, i, op.name, op.parent);
    assert inode !in t1;
    assert forall j | 1 <= j < r :: j in t1 ==> j in t;
    if r < inode { assert r !in t; }
  }

  /** After the deletion a read fails, until a creation takes the slot, which the next one does if
      and only if no lower slot is free; the old descriptor then reads the new file. */
  lemma DeletedInodeReused(v: View, inode: nat, op: Op)
    requires IsFile(v, inode) && Sensible(op) && op.Create?
    requires forall i: nat :: !Named(TableOf(v), i, op.name, op.parent)
    ensures var v1 := Step(v, Delete(inode)).0;
      && Inv(v1) && Got(v1, inode, 0, 1) == []
      && var (v2, r) := Step(v1, op);
      && (r == inode <==> forall j | 1 <= j < inode :: Live(v, j))
      && (r == inode ==>
            && Inv(v2) && Live(v2, inode)
            && EntryOf(v2, inode) == Entry(Truncated(op.name), op.parent, op.kind, []))
  {
    StepRefines(v, Delete(inode));
    var v1 := Step(v, Delete(inode)).0;
    StepRefines(v1, op);
    var (v2, r) := Step(v1, op);
    ReusedEntry(TableOf(v), TableOf(v1), inode, op, r, TableOf(v2));
  }
}
