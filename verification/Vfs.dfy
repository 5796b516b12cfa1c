// The 32 descriptors of vfs.c over tetFS, with the offset each keeps between reads.

module Vfs {
  import opened Bits
  import opened TetFsLayout
  import opened TetFsSpec
  import opened TetFsProofs
  import opened TetFsDriver

  const MAX_OPEN_FILES := 32
  const O_RDONLY := 1
  const O_WRONLY := 2
  const O_RDWR := 3
  const O_CREAT := 4

  datatype File = File(inUse: bool, inode: nat, size: nat, kind: byte, flags: nat, offset: nat)

  const CLOSED := File(false, 0, 0, 0, 0, 0)

  // (flags & O_WRONLY) || (flags & O_RDWR), as vfs_write tests it.
  predicate Writable(flags: nat) {
    Bit(flags, 1) || Bit(flags, 0) || Bit(flags, 1)
  }

  /** O_RDWR shares its low bit with O_RDONLY, so a descriptor is refused for writing only when
      it has neither access bit; one opened O_RDONLY is writable. */
  lemma WriteRefusedIff(flags: nat)
    ensures !Writable(flags) <==> flags % 4 == 0
    ensures Writable(O_RDONLY) && Writable(O_WRONLY) && Writable(O_RDWR) && !Writable(O_CREAT)
  {
    assert Bit(flags, 1) == Bit(flags / 2, 0);
    assert Bit(4, 1) == Bit(2, 0);
    assert Bit(2, 1) == Bit(1, 0);
  }

  // The lowest of the slots not in use, or -1.
  ghost function FirstUnused(used: seq<bool>): (i: int)
    ensures i == -1 || (0 <= i < |used| && !used[i])
    ensures forall j | 0 <= j < (if i == -1 then |used| else i) :: used[j]
  {
    if i: nat :| i < |used| && !used[i] && forall j | 0 <= j < i :: used[j] then i else
      SomeUnused(used, |used|);
      -1
  }

  lemma {:induction false} SomeUnused(used: seq<bool>, n: nat)
    requires n <= |used|
    ensures (forall j | 0 <= j < n :: used[j])
      || exists i: nat :: i < |used| && !used[i] && forall j | 0 <= j < i :: used[j]
  {
    if n > 0 { SomeUnused(used, n - 1); }
  }

  // Where a search that goes up from 0 stops, -1 standing for the end.
  lemma SearchStops(used: seq<bool>, i: nat)
    requires i <= |used| && (forall j | 0 <= j < i :: used[j]) && (i < |used| ==> !used[i])
    ensures FirstUnused(used) == if i < |used| then i else -1
  {
  }

  function InUse(files: seq<File>): (used: seq<bool>)
    ensures |used| == |files| && forall i | 0 <= i < |files| :: used[i] == files[i].inUse
  {
    seq(|files|, i requires 0 <= i < |files| => files[i].inUse)
  }

  // The find-or-create half of both open calls: the inode to open, or -1.
  ghost function Target(v: View, path: seq<byte>, create: bool): (View, int)
    requires WfView(v)
  {
    var i := TetFsSpec.Find(v, path, ROOT_INODE, 1);
    if i >= 0 then (v, i)
    else if create then DoCreate(v, path, ROOT_INODE, TYPE_FILE)
    else (v, -1)
  }

  /** A descriptor opened names the file whose stored name is the path's first 50 bytes. */
  lemma TargetKeeps(v: View, path: seq<byte>, create: bool)
    requires Inv(v) && 0 !in path
    ensures var (v', i) := Target(v, path, create);
      && Inv(v')
      && (i >= 0 ==>
            && 1 <= i < MAX_INODES && Live(v', i)
            && TableOf(v')[i].name == Truncated(path) && TableOf(v')[i].parent == ROOT_INODE)
      && (i < 0 ==> v' == v)
      && (forall j | j in TableOf(v) :: j in TableOf(v') && TableOf(v')[j] == TableOf(v)[j])
      && (forall j | j in TableOf(v') && j !in TableOf(v) ::
            j == i && TableOf(v')[j] == Entry(Truncated(path), ROOT_INODE, TYPE_FILE, []))
  {
    var i := TetFsSpec.Find(v, path, ROOT_INODE, 1);
    if i >= 0 { FoundEntry(v, i, path); } else { CreatedEntry(v, path); }
  }

  /** There is an inode to open just when the root holds a file of that name, or the file may be created and
      an inode is free; a file that is there is not created again. */
  lemma TargetIff(v: View, path: seq<byte>, create: bool)
    requires Inv(v) && 0 !in path
    ensures var (t, (v', i)) := (TableOf(v), Target(v, path, create));
      var there := exists j: nat :: Named(t, j, path, ROOT_INODE);
      && (i >= 0 <==> there || (create && exists j :: 1 <= j < MAX_INODES && j !in t))
      && (there ==> v' == v && i >= 0 && Named(t, i, path, ROOT_INODE))
      && forall j: nat | Named(t, j, path, ROOT_INODE) :: i <= j
  {
    FindIsNamed(v, path, ROOT_INODE);
    var (t, i) := (TableOf(v), TetFsSpec.Find(v, path, ROOT_INODE, 1));
    assert forall j: nat :: Named(t, j, path, ROOT_INODE) <==> j != ROOT_INODE && Matches(v, j, path, ROOT_INODE);
    if i < 0 && create { CreateRefines(v, path, ROOT_INODE, TYPE_FILE); }
  }

  method FindOrCreate(fs: TetFs, path: seq<byte>, create: bool) returns (inode: int)
    requires fs.Valid() && 0 !in path
    modifies fs`disk
    ensures fs.Valid() && (ViewOf(fs.disk), inode) == Target(old(ViewOf(fs.disk)), path, create)
  {
    inode := fs.Find(path, ROOT_INODE);
    if inode < 0 && create { inode := fs.Create(path, ROOT_INODE, TYPE_FILE); }
  }

  class Table {
    const fs: TetFs
    const files: array<File>

    constructor (fs: TetFs)
      ensures this.fs == fs && fresh(files) && files.Length == MAX_OPEN_FILES
      ensures forall i | 0 <= i < MAX_OPEN_FILES :: files[i] == CLOSED
    {
      this.fs := fs;
      files := new File[MAX_OPEN_FILES](_ => CLOSED);
    }

    ghost predicate Valid()
      reads this, fs, files
    {
      && fs.Valid() && files.Length == MAX_OPEN_FILES
      && forall i | 0 <= i < MAX_OPEN_FILES :: files[i].inode < 0x1_0000 && files[i].offset < WORD32
    }

    predicate IsOpen(fd: int)
      requires files.Length == MAX_OPEN_FILES
      reads files
    {
      0 <= fd < MAX_OPEN_FILES && files[fd].inUse
    }

    method AllocSlot() returns (i: int)
      requires files.Length == MAX_OPEN_FILES
      ensures i == FirstUnused(InUse(files[..]))
    {
      i := 0;
      while i < MAX_OPEN_FILES
        invariant 0 <= i <= MAX_OPEN_FILES && forall j | 0 <= j < i :: files[j].inUse
      {
        if !files[i].inUse {
          SearchStops(InUse(files[..]), i);
          return;
        }
        i := i + 1;
      }
      SearchStops(InUse(files[..]), i);
      i := -1;
    }

    /** vfs_open: the lowest free descriptor, at offset 0, on the file called path under the root.
        The file is created if need be, and stays created when no slot is left. */
    method Open(path: seq<byte>, flags: nat) returns (fd: int)
      requires Valid() && 0 !in path && flags < WORD32
      modifies fs`disk, files
      ensures Valid()
      ensures path == [] ==> fd == -1 && fs.disk == old(fs.disk) && files[..] == old(files[..])
      ensures path != [] ==>
        var (v, inode) := Target(old(ViewOf(fs.disk)), path, Bit(flags, 2));
        && ViewOf(fs.disk) == v && fd == (if inode < 0 then -1 else FirstUnused(InUse(old(files[..]))))
        && (inode >= 0 ==> inode < MAX_INODES)
        && files[..] == if fd == -1 then old(files[..])
             else old(files[..])[fd := File(true, inode, v.inodes[inode].size, v.inodes[inode].kind, flags, 0)]
    {
      if path == [] { return -1; }
      TargetKeeps(ViewOf(fs.disk), path, Bit(flags, 2));
      var inode := FindOrCreate(fs, path, Bit(flags, 2));
      if inode < 0 { return -1; }
      fd := OpenInode(inode, flags);
    }

    method OpenInode(inode: nat, flags: nat) returns (fd: int)
      requires Valid() && inode < MAX_INODES && flags < WORD32
      modifies files
      ensures Valid() && fd == FirstUnused(InUse(old(files[..])))
      ensures files[..] == if fd == -1 then old(files[..]) else
        var node := ViewOf(fs.disk).inodes[inode];
        old(files[..])[fd := File(true, inode, node.size, node.kind, flags, 0)]
    {
      var ok, node := fs.ReadInode(inode);
      fd := AllocSlot();
      if fd < 0 { return -1; }
      files[fd] := File(true, inode, node.size, node.kind, flags, 0);
    }

    /** vfs_read: the bytes tetfs_read finds at the descriptor's offset; the offset moves past
        exactly the bytes returned. */
    method Read(fd: int, buf: array?<byte>, len: nat) returns (r: int)
      requires Valid() && len < WORD32 && (buf != null ==> len <= buf.Length)
      modifies files, buf
      ensures !IsOpen(fd) ==> r == -1
      ensures IsOpen(fd) && (buf == null || len == 0) ==> r == 0
      ensures !old(IsOpen(fd)) || buf == null || len == 0 ==> files[..] == old(files[..])
      ensures old(IsOpen(fd)) && buf != null && len > 0 ==>
        var f := old(files[fd]);
        Readable(ViewOf(fs.disk), f.inode) && match DoRead(ViewOf(fs.disk), f.inode, f.offset, len)
        case Failed => r == -1 && files[..] == old(files[..])
        case Bytes(b) =>
          && r == |b| && buf[..] == Splice(old(buf[..]), 0, b)
          && files[..] == old(files[..])[fd := f.(offset := Add32(f.offset, |b|))]
    {
      if fd < 0 || fd >= MAX_OPEN_FILES || !files[fd].inUse { return -1; }
      if buf == null || len == 0 { return 0; }
      var f := files[fd];
      r := fs.Read(f.inode, buf, f.offset, len);
      if r > 0 { files[fd] := f.(offset := Add32(f.offset, r)); }
      assert files[..] == old(files[..])[fd := files[fd]];
    }

    /** vfs_write: a whole-file rewrite; on success the descriptor's offset is the new length. */
    method Write(fd: int, buf: array?<byte>, len: nat) returns (r: int)
      requires Valid() && len < WORD32 && (buf != null ==> len <= buf.Length)
      modifies fs`disk, files
      ensures WfDisk(fs.disk) && (len <= MAX_WRITE ==> Valid())
      ensures !old(IsOpen(fd)) || buf == null || !Writable(old(files[fd].flags)) ==>
        r == -1 && fs.disk == old(fs.disk) && files[..] == old(files[..])
      ensures old(IsOpen(fd)) && buf != null && Writable(old(files[fd].flags)) ==>
        var f := old(files[fd]);
        && (ViewOf(fs.disk), r) == DoWrite(old(ViewOf(fs.disk)), f.inode, buf[..len])
        && files[..] == if r == 0 then old(files[..])[fd := f.(size := len, offset := len)] else old(files[..])
    {
      if fd < 0 || fd >= MAX_OPEN_FILES || !files[fd].inUse { return -1; }
      if buf == null { return -1; }
      var f := files[fd];
      if !Writable(f.flags) { return -1; }
      r := fs.Write(f.inode, buf[..len]);
      if r >= 0 { files[fd] := f.(size := len, offset := len); }
      assert files[..] == old(files[..])[fd := files[fd]];
    }

    method Close(fd: int) returns (r: int)
      requires Valid()
      modifies files
      ensures Valid() && (r == 0 <==> old(IsOpen(fd))) && (r == 0 || r == -1)
      ensures files[..] == if r == 0 then old(files[..])[fd := CLOSED] else old(files[..])
    {
      if fd < 0 || fd >= MAX_OPEN_FILES || !files[fd].inUse { return -1; }
      files[fd] := CLOSED;
      return 0;
    }
  }

  lemma FoundEntry(v: View, i: nat, path: seq<byte>)
    requires Inv(v) && Matches(v, i, path, ROOT_INODE)
    ensures TableOf(v)[i].name == path == Truncated(path) && TableOf(v)[i].parent == ROOT_INODE
  {
    assert TableOf(v)[i] == EntryOf(v, i);
  }

  lemma CreatedEntry(v: View, path: seq<byte>)
    requires Inv(v) && 0 !in path
    ensures var (v', r) := DoCreate(v, path, ROOT_INODE, TYPE_FILE);
      && Inv(v')
      && (r == -1 ||
            (1 <= r < MAX_INODES && Live(v', r) && TableOf(v')[r] == Entry(Truncated(path), ROOT_INODE, TYPE_FILE, [])))
      && TableStep(TableOf(v), Create(path, ROOT_INODE, TYPE_FILE), r, TableOf(v'))
  {
    CreateRefines(v, path, ROOT_INODE, TYPE_FILE);
  }
}
