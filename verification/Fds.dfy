// The 8 descriptors of fs_open, fs_read, fs_write and fs_close.

module Fds {
  import opened Bits
  import opened TetFsLayout
  import opened TetFsSpec
  import opened TetFsTheorems
  import opened TetFsDriver
  import opened Vfs

  const MAX_FD := 8

  datatype Fd = Fd(used: bool, inode: nat, offset: nat)

  function Used(fds: seq<Fd>): (used: seq<bool>)
    ensures |used| == |fds| && forall i | 0 <= i < |fds| :: used[i] == fds[i].used
  {
    seq(|fds|, i requires 0 <= i < |fds| => fds[i].used)
  }

  class FdTable {
    const fs: TetFs
    const fds: array<Fd>

    constructor (fs: TetFs)
      ensures this.fs == fs && fresh(fds) && fds.Length == MAX_FD
      ensures forall i | 0 <= i < MAX_FD :: fds[i] == Fd(false, 0, 0)
    {
      this.fs := fs;
      fds := new Fd[MAX_FD](_ => Fd(false, 0, 0));
    }

    ghost predicate Valid()
      reads this, fs, fds
    {
      && fs.Valid() && fds.Length == MAX_FD
      && forall i | 0 <= i < MAX_FD :: fds[i].inode < 0x1_0000 && fds[i].offset < WORD32
    }

    predicate IsOpen(fd: int)
      requires fds.Length == MAX_FD
      reads fds
    {
      0 <= fd < MAX_FD && fds[fd].used
    }

    method Unused() returns (fd: int)
      requires fds.Length == MAX_FD
      ensures fd == FirstUnused(Used(fds[..]))
    {
      fd := 0;
      while fd < MAX_FD
        invariant 0 <= fd <= MAX_FD && forall j | 0 <= j < fd :: fds[j].used
      {
        if !fds[fd].used {
          SearchStops(Used(fds[..]), fd);
          return;
        }
        fd := fd + 1;
      }
      SearchStops(Used(fds[..]), fd);
      fd := -1;
    }

    /** fs_open. */
    method Open(name: seq<byte>, write: bool) returns (fd: int)
      requires Valid() && 0 !in name
      modifies fs`disk, fds
      ensures Valid()
      ensures !fs.mounted ==> fd == -1 && fs.disk == old(fs.disk) && fds[..] == old(fds[..])
      ensures fs.mounted ==>
        var (v, inode) := Target(old(ViewOf(fs.disk)), name, write);
        && ViewOf(fs.disk) == v
        && fd == (if inode < 0 then -1 else FirstUnused(Used(old(fds[..]))))
        && fds[..] == if fd == -1 then old(fds[..]) else old(fds[..])[fd := Fd(true, inode, 0)]
    {
      if !fs.mounted { return -1; }
      TargetKeeps(ViewOf(fs.disk), name, write);
      var inode := FindOrCreate(fs, name, write);
      if inode < 0 { return -1; }
      fd := OpenInode(inode);
    }

    method OpenInode(inode: nat) returns (fd: int)
      requires Valid() && inode < MAX_INODES
      modifies fds
      ensures Valid() && fd == FirstUnused(Used(old(fds[..])))
      ensures fds[..] == if fd == -1 then old(fds[..]) else old(fds[..])[fd := Fd(true, inode, 0)]
    {
      fd := Unused();
      if fd >= 0 { fds[fd] := Fd(true, inode, 0); }
    }

    /** fs_read: the offset moves past exactly the bytes returned. */
    method Read(fd: int, buf: array<byte>, len: nat) returns (r: int)
      requires Valid() && len < WORD32 && len <= buf.Length
      modifies fds, buf
      ensures !old(IsOpen(fd)) ==> r == -1 && fds[..] == old(fds[..])
      ensures old(IsOpen(fd)) ==>
        var f := old(fds[fd]);
        Readable(ViewOf(fs.disk), f.inode) && match DoRead(ViewOf(fs.disk), f.inode, f.offset, len)
        case Failed => r == -1 && fds[..] == old(fds[..])
        case Bytes(b) =>
          && r == |b| && buf[..] == Splice(old(buf[..]), 0, b)
          && fds[..] == old(fds[..])[fd := f.(offset := Add32(f.offset, |b|))]
    {
      if fd < 0 || fd >= MAX_FD || !fds[fd].used { return -1; }
      var f := fds[fd];
      r := fs.Read(f.inode, buf, f.offset, len);
      if r > 0 { fds[fd] := f.(offset := Add32(f.offset, r)); }
      assert fds[..] == old(fds[..])[fd := fds[fd]];
    }

    /** fs_write: a whole-file rewrite that leaves every offset where it was. */
    method Write(fd: int, data: seq<byte>) returns (r: int)
      requires Valid() && |data| < WORD32
      modifies fs`disk
      ensures WfDisk(fs.disk) && (|data| <= MAX_WRITE ==> Valid())
      ensures !IsOpen(fd) ==> r == -1 && fs.disk == old(fs.disk)
      ensures IsOpen(fd) ==> (ViewOf(fs.disk), r) == DoWrite(old(ViewOf(fs.disk)), fds[fd].inode, data)
    {
      if fd < 0 || fd >= MAX_FD || !fds[fd].used { return -1; }
      r := fs.Write(fds[fd].inode, data);
    }

    /** fs_close. */
    method Close(fd: int)
      requires Valid()
      modifies fds
      ensures Valid()
      ensures fds[..] == if 0 <= fd < MAX_FD then old(fds[..])[fd := old(fds[fd]).(used := false)] else old(fds[..])
    {
      if 0 <= fd < MAX_FD { fds[fd] := fds[fd].(used := false); }
    }
  }

  /** Writing through a descriptor and reading on with it: vfs_write leaves the offset at the end,
      so nothing is left to read; fs_write leaves it where it was, in the new content. */
  lemma ReadAfterWrite(v: View, inode: nat, data: seq<byte>, offset: nat, len: nat)
    requires Inv(v) && Sensible(Write(inode, data)) && DoWrite(v, inode, data).1 == 0
    requires offset + len < WORD32 && |data| + len < WORD32
    ensures var v' := DoWrite(v, inode, data).0;
      && Readable(v', inode)
      && DoRead(v', inode, |data|, len) == Bytes([])
      && (DoRead(v', inode, offset, len) == Bytes([]) <==> offset >= |data| || len == 0)
  {
    WriteThenRead(v, inode, data, |data|, len);
    WriteThenRead(v, inode, data, offset, len);
  }
}
