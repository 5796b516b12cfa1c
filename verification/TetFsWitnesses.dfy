// Inputs on which tetFS does not keep its promises, starting from a disk just formatted.

module TetFsWitnesses {
  import opened Bits
  import opened TetFsLayout
  import opened TetFsSpec
  import opened TetFsProofs
  import opened TetFsTheorems

  // A file created on a formatted disk.
  lemma FirstCreate(v: View, name: seq<byte>)
    requires Formatted(v) && 0 !in name && name != []
    ensures var (v1, i) := DoCreate(v, name, ROOT_INODE, TYPE_FILE);
      && 1 <= i < MAX_INODES && Inv(v1) && v1.inodes[i] == NewInode(name, ROOT_INODE, TYPE_FILE)
      && v1 == v.(inodes := v.inodes[i := NewInode(name, ROOT_INODE, TYPE_FILE)])
      && UniqueNames(TableOf(v1)) && CString(v1.inodes[i].name) == Truncated(name)
  {
    FormatEstablishes(v);
    assert !Live(v, 1);
    CreateRefines(v, name, ROOT_INODE, TYPE_FILE);
    CreateNames(v, name, ROOT_INODE, TYPE_FILE);
    StoredNameReads(name);
  }

  // There is room for it, at the front of the disk.
  lemma FirstFit(v: View, name: seq<byte>, buf: seq<byte>)
    requires Formatted(v) && 0 !in name && name != [] && 0 < |buf| <= BLOCK_SIZE
    ensures var (v1, i) := DoCreate(v, name, ROOT_INODE, TYPE_FILE);
      && 1 <= i < MAX_INODES && Inv(v1) && v1.inodes[i].kind == TYPE_FILE
      && Needed(|buf|) == 1 && DoWrite(v1, i, buf).1 == 0
  {
    FirstCreate(v, name);
    var (v1, i) := DoCreate(v, name, ROOT_INODE, TYPE_FILE);
    NeededFits(|buf|);
    assert FreeRun(Reclaimed(v1, v1.inodes[i]), 0, 1);
    WriteSucceedsIff(v1, i, buf);
  }

  // The entry and the inode that a write leaves.
  lemma Written(v: View, i: nat, buf: seq<byte>)
    requires Inv(v) && Sensible(Write(i, buf)) && buf != [] && DoWrite(v, i, buf).1 == 0
    ensures var v' := DoWrite(v, i, buf).0;
      && Inv(v') && i in TableOf(v') && TableOf(v')[i].content == buf
      && v'.inodes[i].kind == TYPE_FILE && v'.inodes[i].size == |buf| && v'.inodes[i].count == Needed(|buf|)
  {
    WriteRefines(v, i, buf);
  }

  // Bytes written to it, at most a block.
  lemma FirstWrite(v: View, name: seq<byte>, buf: seq<byte>)
    requires Formatted(v) && 0 !in name && name != [] && 0 < |buf| <= BLOCK_SIZE
    ensures var (v1, i) := DoCreate(v, name, ROOT_INODE, TYPE_FILE);
      && 1 <= i < MAX_INODES
      && var (v2, r) := DoWrite(v1, i, buf);
      && r == 0 && Inv(v2) && i in TableOf(v2) && TableOf(v2)[i].content == buf && Readable(v2, i)
      && v2.inodes[i].kind == TYPE_FILE && v2.inodes[i].size == |buf| && v2.inodes[i].count == 1
  {
    FirstFit(v, name, buf);
    var (v1, i) := DoCreate(v, name, ROOT_INODE, TYPE_FILE);
    Written(v1, i, buf);
    InvReadable(DoWrite(v1, i, buf).0, i);
  }

  /** Two bytes written to a new file, and a read of them from offset 1 with a length of 2^32 - 1:
      one byte is left there, and 511 are returned. */
  lemma WrappingRead(v: View, name: seq<byte>, buf: seq<byte>)
    requires Formatted(v) && 0 !in name && name != [] && |buf| == 2
    ensures var (v1, i) := DoCreate(v, name, ROOT_INODE, TYPE_FILE);
      1 <= i < MAX_INODES && ReadsTooMuch(DoWrite(v1, i, buf).0, i, buf)
  {
    FirstWrite(v, name, buf);
    var (v1, i) := DoCreate(v, name, ROOT_INODE, TYPE_FILE);
    WrappingBytes(Raw(DoWrite(v1, i, buf).0, DoWrite(v1, i, buf).0.inodes[i]));
  }

  // The file holds buf, and that read returns 511 bytes and not the one it should.
  ghost predicate ReadsTooMuch(v: View, i: nat, buf: seq<byte>)
    requires WfView(v) && |buf| == 2
  {
    && Inv(v) && i in TableOf(v) && TableOf(v)[i].content == buf && Readable(v, i)
    && WrapsTo(DoRead(v, i, 1, 0xFFFF_FFFF), 511) && Window(buf, 1, 0xFFFF_FFFF) == [buf[1]]
  }

  lemma WrappingBytes(raw: seq<byte>)
    requires |raw| == BLOCK_SIZE
    ensures |ReadBytes(raw, 2, 1, 0xFFFF_FFFF)| == 511
  {
  }

  predicate WrapsTo(r: ReadResult, n: nat) { r.Bytes? && |r.bytes| == n }

  /** Two names of 51 bytes that differ in the last one: both files are created, both are stored
      under the same name, and neither is found under its own. */
  lemma LongNamesCollide(v: View, a: seq<byte>, b: seq<byte>)
    requires Formatted(v) && 0 !in a && 0 !in b && |a| == |b| == NAME_SIZE
    requires a[..NAME_SIZE - 1] == b[..NAME_SIZE - 1] && a != b
    ensures var (v1, i) := DoCreate(v, a, ROOT_INODE, TYPE_FILE);
      && var (v2, j) := DoCreate(v1, b, ROOT_INODE, TYPE_FILE);
      && 1 <= i && 1 <= j && i != j && Inv(v2) && !UniqueNames(TableOf(v2)) && Unknown(v2, a) && Unknown(v2, b)
  {
    FirstCreate(v, a);
    var (v1, i) := DoCreate(v, a, ROOT_INODE, TYPE_FILE);
    SecondCreate(v, v1, i, a, b);
    CreateNames(v1, b, ROOT_INODE, TYPE_FILE);
    assert TableOf(v1)[i] == EntryOf(v1, i);
    assert Named(TableOf(v1), i, Truncated(b), ROOT_INODE);
  }

  // Every inode in use is the root, or holds one of these two names, cut.
  ghost predicate OnlyLong(v: View, a: seq<byte>, b: seq<byte>) {
    && WfView(v) && 0 !in a && 0 !in b
    && forall k | 1 <= k < MAX_INODES && Live(v, k) ::
         v.inodes[k].name == StoredName(a) || v.inodes[k].name == StoredName(b)
  }

  // The search in the root directory does not find this name.
  ghost predicate Unknown(v: View, name: seq<byte>)
    requires WfView(v)
  {
    forall k | 1 <= k < MAX_INODES :: !Matches(v, k, name, ROOT_INODE)
  }

  lemma UnknownIsNotFound(v: View, name: seq<byte>)
    requires WfView(v)
    ensures Unknown(v, name) <==> Find(v, name, ROOT_INODE, 1) == -1
  {
  }

  lemma LongIsUnknown(v: View, a: seq<byte>, b: seq<byte>, name: seq<byte>)
    requires OnlyLong(v, a, b) && |name| == NAME_SIZE
    ensures Unknown(v, name)
  {
    StoredNameReads(a);
    StoredNameReads(b);
    forall k | 1 <= k < MAX_INODES ensures !Matches(v, k, name, ROOT_INODE) {
      if Live(v, k) { assert |CString(v.inodes[k].name)| < NAME_SIZE; }
    }
  }

  lemma FirstIsLong(v: View, v1: View, i: nat, a: seq<byte>, b: seq<byte>)
    requires Formatted(v) && 0 !in a && 0 !in b
    requires 1 <= i < MAX_INODES && v1 == v.(inodes := v.inodes[i := NewInode(a, ROOT_INODE, TYPE_FILE)])
    ensures OnlyLong(v1, a, b)
  {
  }

  lemma AnotherSlot(v: View, v1: View, i: nat, b: seq<byte>)
    requires Formatted(v) && 1 <= i < MAX_INODES && WfView(v1) && v1.inodes == v.inodes[i := v1.inodes[i]]
    requires Live(v1, i)
    requires Unknown(v1, b)
    ensures var (v2, j) := DoCreate(v1, b, ROOT_INODE, TYPE_FILE);
      1 <= j < MAX_INODES && i != j && v2 == v1.(inodes := v1.inodes[j := NewInode(b, ROOT_INODE, TYPE_FILE)])
  {
    UnknownIsNotFound(v1, b);
    assert !Live(v1, if i == 1 then 2 else 1);
  }

  lemma SecondIsLong(v1: View, j: nat, a: seq<byte>, b: seq<byte>)
    requires OnlyLong(v1, a, b) && 1 <= j < MAX_INODES
    ensures OnlyLong(v1.(inodes := v1.inodes[j := NewInode(b, ROOT_INODE, TYPE_FILE)]), a, b)
  {
    var v2 := v1.(inodes := v1.inodes[j := NewInode(b, ROOT_INODE, TYPE_FILE)]);
    forall k | 1 <= k < MAX_INODES && Live(v2, k)
      ensures v2.inodes[k].name == StoredName(a) || v2.inodes[k].name == StoredName(b)
    {
      assert k != j ==> Live(v1, k);
    }
  }

  lemma SecondCreate(v: View, v1: View, i: nat, a: seq<byte>, b: seq<byte>)
    requires Formatted(v) && 1 <= i < MAX_INODES
    requires v1 == v.(inodes := v.inodes[i := NewInode(a, ROOT_INODE, TYPE_FILE)])
    requires 0 !in a && 0 !in b && |a| == |b| == NAME_SIZE && a[..NAME_SIZE - 1] == b[..NAME_SIZE - 1]
    ensures var (v2, j) := DoCreate(v1, b, ROOT_INODE, TYPE_FILE);
      1 <= j && i != j && Unknown(v2, a) && Unknown(v2, b)
  {
    FirstIsLong(v, v1, i, a, b);
    LongIsUnknown(v1, a, b, b);
    AnotherSlot(v, v1, i, b);
    var (v2, j) := DoCreate(v1, b, ROOT_INODE, TYPE_FILE);
    SecondIsLong(v1, j, a, b);
    LongIsUnknown(v2, a, b, a);
    LongIsUnknown(v2, a, b, b);
  }

  // Deleting the only file of a disk leaves what was formatted.
  lemma CreateThenDelete(v: View, name: seq<byte>)
    requires Formatted(v) && 0 !in name && name != []
    ensures var (v1, i) := DoCreate(v, name, ROOT_INODE, TYPE_FILE);
      i >= 1 && DoDelete(v1, i) == (v, 0)
  {
    FirstCreate(v, name);
    var (v1, i) := DoCreate(v, name, ROOT_INODE, TYPE_FILE);
    assert Reclaimed(v1, v1.inodes[i]) == v.bits;
    assert v1.inodes[i := ZeroInode()] == v.inodes;
  }

  /** A file created, opened and deleted, and another one created and written: the inode number kept
      by the descriptor of the first is that of the second, and reads its bytes. */
  lemma StaleDescriptor(v: View, a: seq<byte>, b: seq<byte>, buf: seq<byte>)
    requires Formatted(v) && 0 !in a && a != [] && 0 !in b && b != [] && |buf| == 2
    ensures var (v1, i) := DoCreate(v, a, ROOT_INODE, TYPE_FILE);
      && i >= 1
      && var v2 := DoDelete(v1, i).0;
      && var (v3, j) := DoCreate(v2, b, ROOT_INODE, TYPE_FILE);
      && j == i
      && var v4 := DoWrite(v3, j, buf).0;
      Readable(v4, i) && DoRead(v4, i, 0, 2) == Bytes(buf)
  {
    CreateThenDelete(v, a);
    FirstWrite(v, b, buf);
    var (v3, j) := DoCreate(v, b, ROOT_INODE, TYPE_FILE);
    assert DoCreate(v, a, ROOT_INODE, TYPE_FILE).1 == j by { FirstCreate(v, a); FirstCreate(v, b); }
    ReadMeaning(DoWrite(v3, j, buf).0, j, 0, 2);
  }
}
