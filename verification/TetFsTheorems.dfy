// The promises of tetFS over whole runs, and where the code stops keeping them.

module TetFsTheorems {
  import opened Bits
  import opened TetFsLayout
  import opened TetFsSpec
  import opened TetFsProofs

  // ---- every run refines the table of files ----

  const ROOT_ENTRY := Entry([0x2F], NO_PARENT, TYPE_DIR, [])

  lemma FormatEstablishes(v: View)
    requires Formatted(v)
    ensures Inv(v) && TableOf(v) == map[ROOT_INODE := ROOT_ENTRY]
  {
    assert forall i: nat, b: nat :: !Owns(v, i, b);
    assert forall i: nat :: Live(v, i) <==> i == ROOT_INODE;
    StoredNameReads([0x2F]);
    assert Inv(v);
    assert EntryOf(v, ROOT_INODE) == ROOT_ENTRY;
  }

  lemma StepRefines(v: View, op: Op)
    requires Inv(v) && Sensible(op)
    ensures var (v', r) := Step(v, op); Inv(v') && TableStep(TableOf(v), op, r, TableOf(v'))
  {
    match op
    case Create(name, parent, kind) => CreateRefines(v, name, parent, kind);
    case Delete(idx) => DeleteRefines(v, idx);
    case Write(idx, buf) => WriteRefines(v, idx, buf);
  }

  ghost predicate SensibleRun(ops: seq<Op>) {
    forall k | 0 <= k < |ops| :: Sensible(ops[k])
  }

  ghost function Run(v: View, ops: seq<Op>): (v': View)
    requires WfView(v) && SensibleRun(ops)
    ensures WfView(v')
    decreases |ops|
  {
    if |ops| == 0 then v else Run(Step(v, ops[0]).0, ops[1..])
  }

  ghost function Results(v: View, ops: seq<Op>): (rs: seq<int>)
    requires WfView(v) && SensibleRun(ops)
    ensures |rs| == |ops|
    decreases |ops|
  {
    if |ops| == 0 then [] else var (v', r) := Step(v, ops[0]); [r] + Results(v', ops[1..])
  }

  ghost predicate TableRun(t: Table, ops: seq<Op>, rs: seq<int>, t': Table)
    requires |rs| == |ops|
    decreases |ops|
  {
    if |ops| == 0 then t' == t
    else exists t1 :: TableStep(t, ops[0], rs[0], t1) && TableRun(t1, ops[1..], rs[1..], t')
  }

  lemma {:induction false} RunRefines(v: View, ops: seq<Op>)
    requires Inv(v) && SensibleRun(ops)
    ensures Inv(Run(v, ops)) && TableRun(TableOf(v), ops, Results(v, ops), TableOf(Run(v, ops)))
    decreases |ops|
  {
    if |ops| > 0 {
      var (v1, r) := Step(v, ops[0]);
      StepRefines(v, ops[0]);
      RunRefines(v1, ops[1..]);
      RunSplits(v, ops);
      TableRunExtends(TableOf(v), TableOf(v1), ops, Results(v, ops), TableOf(Run(v, ops)));
    }
  }

  lemma RunSplits(v: View, ops: seq<Op>)
    requires WfView(v) && SensibleRun(ops) && |ops| > 0
    ensures var (v1, r) := Step(v, ops[0]);
      Run(v, ops) == Run(v1, ops[1..]) && Results(v, ops)[0] == r && Results(v, ops)[1..] == Results(v1, ops[1..])
  {
  }

  lemma TableRunExtends(t: Table, t1: Table, ops: seq<Op>, rs: seq<int>, t': Table)
    requires |rs| == |ops| > 0
    requires TableStep(t, ops[0], rs[0], t1) && TableRun(t1, ops[1..], rs[1..], t')
    ensures TableRun(t, ops, rs, t')
  {
  }

  // ---- allocation ----

  /** A write succeeds exactly when the file exists, its block count (after the cast to 16 bits) is
      allowed and, unless there is nothing to write, some run is free once the old extent is given
      back; the extent goes to the lowest such run. A write that fails changes nothing. */
  lemma WriteSucceedsIff(v: View, idx: nat, buf: seq<byte>)
    requires Inv(v) && |buf| < WORD32
    ensures var (v', r) := DoWrite(v, idx, buf);
      var possible := idx < MAX_INODES && v.inodes[idx].kind == TYPE_FILE && Needed(|buf|) <= MAX_FILE_BLOCKS;
      && (r == 0 <==>
            && possible
            && (buf == [] || exists s: nat :: FreeRun(Reclaimed(v, v.inodes[idx]), s, RunLength(Needed(|buf|)))))
      && (r == 0 && buf != [] ==> forall s: nat | s < v'.inodes[idx].start ::
            !FreeRun(Reclaimed(v, v.inodes[idx]), s, RunLength(Needed(|buf|))))
      && (r != 0 ==> r == -1 && v' == v)
      && (|buf| <= MAX_WRITE ==> (Needed(|buf|) <= MAX_FILE_BLOCKS <==> |buf| <= 8192))
  {
    if 0 < |buf| <= MAX_WRITE { NeededFits(|buf|); }
    if idx < MAX_INODES && v.inodes[idx].kind == TYPE_FILE && Needed(|buf|) <= MAX_FILE_BLOCKS {
      var s := PlacedAt(v, idx, |buf|);
      if s != -1 { assert FreeRun(Reclaimed(v, v.inodes[idx]), s, RunLength(Needed(|buf|))); }
    }
  }

  /** Writing nothing to a file empties it and keeps its blocks: nothing but its size changes. */
  lemma EmptyWrite(v: View, idx: nat)
    requires Inv(v) && idx < MAX_INODES && v.inodes[idx].kind == TYPE_FILE
    ensures var (v', r) := DoWrite(v, idx, []);
      && r == 0 && Inv(v') && TableOf(v') == TableOf(v)[idx := TableOf(v)[idx].(content := [])]
      && v'.bits == v.bits && v'.blocks == v.blocks
      && (forall i | 0 <= i < MAX_INODES && i != idx :: v'.inodes[i] == v.inodes[i])
      && v'.inodes[idx].size == 0 && v'.inodes[idx].kind == TYPE_FILE
      && v'.inodes[idx].start == v.inodes[idx].start && v'.inodes[idx].count == v.inodes[idx].count
      && v'.inodes[idx].name == v.inodes[idx].name && v'.inodes[idx].parent == v.inodes[idx].parent
  {
    WriteRefines(v, idx, []);
  }

  /** What is left over of the last block of a file written holds zeroes. */
  lemma WriteZeroFills(v: View, idx: nat, buf: seq<byte>)
    requires Inv(v) && Sensible(Write(idx, buf)) && buf != [] && DoWrite(v, idx, buf).1 == 0
    ensures var v' := DoWrite(v, idx, buf).0;
      && idx < MAX_INODES && Inv(v') && WfInode(v'.inodes[idx])
      && forall p | |buf| <= p < BLOCK_SIZE * v'.inodes[idx].count :: Raw(v', v'.inodes[idx])[p] == 0
  {
    var v' := DoWrite(v, idx, buf).0;
    WriteInvIff(v, idx, buf);
    assert Live(v', idx);
    WrittenBlocks(v, idx, buf);
    TailIsZero(v', v'.inodes[idx], buf);
  }

  lemma WrittenBlocks(v: View, idx: nat, buf: seq<byte>)
    requires WfView(v) && |buf| < WORD32 && buf != [] && DoWrite(v, idx, buf).1 == 0
    ensures var v' := DoWrite(v, idx, buf).0;
      && idx < MAX_INODES && v'.inodes[idx].start + v'.inodes[idx].count <= MAX_BLOCKS
      && forall k | 0 <= k < v'.inodes[idx].count :: v'.blocks[v'.inodes[idx].start + k] == Block(buf, k)
  {
    assert FreeRun(Reclaimed(v, v.inodes[idx]), PlacedAt(v, idx, |buf|), RunLength(Needed(|buf|)));
  }

  lemma TailIsZero(v: View, n: Inode, buf: seq<byte>)
    requires WfView(v) && n.start + n.count <= MAX_BLOCKS
    requires forall k | 0 <= k < n.count :: v.blocks[n.start + k] == Block(buf, k)
    ensures forall p | |buf| <= p < BLOCK_SIZE * n.count :: Raw(v, n)[p] == 0
  {
    forall p | |buf| <= p < BLOCK_SIZE * n.count ensures Raw(v, n)[p] == 0 {
      assert v.blocks[n.start + p / BLOCK_SIZE] == Block(buf, p / BLOCK_SIZE);
      assert p == BLOCK_SIZE * (p / BLOCK_SIZE) + p % BLOCK_SIZE;
    }
  }

  /** The cast of the block count to 16 bits: a write of 32 MB to a file is accepted as long as
      one block is free, and stores not one of its bytes. */
  lemma LongWriteStoresNothing(v: View, idx: nat, buf: seq<byte>)
    requires Inv(v) && |buf| == 0x200_0000
    requires idx < MAX_INODES && v.inodes[idx].kind == TYPE_FILE
    requires exists s: nat :: FreeRun(Reclaimed(v, v.inodes[idx]), s, 1)
    ensures var (v', r) := DoWrite(v, idx, buf);
      && r == 0 && v'.inodes[idx].size == |buf| && v'.inodes[idx].count == 0
      && v'.blocks == v.blocks && !Inv(v')
  {
    assert Needed(|buf|) == 0;
    WriteSucceedsIff(v, idx, buf);
    WriteInvIff(v, idx, buf);
    var s := PlacedAt(v, idx, |buf|);
    assert Splice(v.blocks, s, Blocks(buf, 0)) == v.blocks;
  }

  // ---- reading ----

  // Where a read of len bytes at an offset stops.
  function End(size: nat, offset: nat, len: nat): (e: nat) {
    if offset + len <= size then offset + len else size
  }

  // What a read at this offset should return.
  function Window(content: seq<byte>, offset: nat, len: nat): (s: seq<byte>)
    ensures |s| <= len
  {
    if offset >= |content| then [] else content[offset..End(|content|, offset, len)]
  }

  /** A read returns the window of the content exactly when the 32-bit sum offset + len does not
      wrap inside the file, or the file fills its last block (so that there is no slack to read
      into). */
  lemma ReadMeaning(v: View, idx: nat, offset: nat, len: nat)
    requires Inv(v) && offset < WORD32 && len < WORD32
    requires idx < MAX_INODES && v.inodes[idx].kind == TYPE_FILE
    ensures Readable(v, idx)
    ensures var n := v.inodes[idx];
      DoRead(v, idx, offset, len) == Bytes(Window(TableOf(v)[idx].content, offset, len))
      <==> (offset + len < WORD32 || offset >= n.size || n.size == BLOCK_SIZE * n.count)
  {
    InvReadable(v, idx);
    assert TableOf(v)[idx] == EntryOf(v, idx);
    ReadBytesMeaning(Raw(v, v.inodes[idx]), v.inodes[idx].size, offset, len);
  }

  /** A read fails just when there is no file of that number, and one that wraps inside a file hands out
      all that is left of the extent, the content first. */
  lemma ReadOtherwise(v: View, idx: nat, offset: nat, len: nat)
    requires Inv(v) && offset < WORD32 && len < WORD32
    ensures Readable(v, idx)
    ensures DoRead(v, idx, offset, len) == Failed <==> !(idx < MAX_INODES && v.inodes[idx].kind == TYPE_FILE)
    ensures
      idx < MAX_INODES && v.inodes[idx].kind == TYPE_FILE && offset < v.inodes[idx].size && offset + len >= WORD32 ==>
      var (n, bytes) := (v.inodes[idx], DoRead(v, idx, offset, len).bytes);
      |bytes| == BLOCK_SIZE * n.count - offset && bytes[..n.size - offset] == TableOf(v)[idx].content[offset..]
  {
    InvReadable(v, idx);
    if idx < MAX_INODES && v.inodes[idx].kind == TYPE_FILE && offset < v.inodes[idx].size && offset + len >= WORD32 {
      assert TableOf(v)[idx] == EntryOf(v, idx);
      WrappedBytes(Raw(v, v.inodes[idx]), v.inodes[idx].size, offset, len);
    }
  }

  lemma WrappedBytes(raw: seq<byte>, size: nat, offset: nat, len: nat)
    requires offset < size <= |raw| < WORD32 && len < WORD32 && offset + len >= WORD32
    ensures ReadBytes(raw, size, offset, len) == raw[offset..]
    ensures raw[offset..][..size - offset] == raw[..size][offset..]
  {
    assert Add32(offset, len) < size;
  }

  /** What a write stored is what a read at any offset finds, whatever the file held before. */
  lemma WriteThenRead(v: View, idx: nat, buf: seq<byte>, offset: nat, len: nat)
    requires Inv(v) && Sensible(Write(idx, buf)) && DoWrite(v, idx, buf).1 == 0 && offset + len < WORD32
    ensures var v' := DoWrite(v, idx, buf).0;
      Readable(v', idx) && DoRead(v', idx, offset, len) == Bytes(Window(buf, offset, len))
  {
    var v' := DoWrite(v, idx, buf).0;
    WriteRefines(v, idx, buf);
    ReadMeaning(v', idx, offset, len);
  }

  lemma InvReadable(v: View, idx: nat)
    requires Inv(v)
    ensures Readable(v, idx)
  {
    assert Live(v, idx) ==> idx < MAX_INODES && WfInode(v.inodes[idx]);
  }

  lemma SliceOfPrefix<T>(s: seq<T>, n: nat, a: nat, b: nat)
    requires a <= b <= n <= |s|
    ensures s[..n][a..b] == s[a..b]
  {
  }

  lemma ReadBytesMeaning(raw: seq<byte>, size: nat, offset: nat, len: nat)
    requires size <= |raw| < WORD32 && offset < WORD32 && len < WORD32
    ensures ReadBytes(raw, size, offset, len) == Window(raw[..size], offset, len)
      <==> (offset + len < WORD32 || offset >= size || size == |raw|)
  {
    if offset < size {
      var w := Window(raw[..size], offset, len);
      var stop := if offset + len <= size then offset + len else size;
      SliceOfPrefix(raw, size, offset, stop);
      assert w == raw[offset..stop];
      if offset + len >= WORD32 {
        assert Add32(offset, len) < size;
        assert |ReadBytes(raw, size, offset, len)| == |raw| - offset;
      }
    }
  }

  function Sum(sizes: seq<nat>): nat {
    if |sizes| == 0 then 0 else sizes[0] + Sum(sizes[1..])
  }

  // Reading in pieces of the given sizes, each starting where the last one ended.
  function Pieces(content: seq<byte>, offset: nat, sizes: seq<nat>): (s: seq<byte>)
    requires offset <= |content|
    decreases |sizes|
  {
    if |sizes| == 0 then []
    else
      var e := End(|content|, offset, sizes[0]);
      content[offset..e] + Pieces(content, e, sizes[1..])
  }

  /** However a file is cut into reads, the pieces put together are its content. */
  lemma {:induction false} PiecesConcatenate(content: seq<byte>, offset: nat, sizes: seq<nat>)
    requires offset <= |content|
    ensures Pieces(content, offset, sizes) == content[offset..End(|content|, offset, Sum(sizes))]
    decreases |sizes|
  {
    if |sizes| > 0 {
      var e := End(|content|, offset, sizes[0]);
      PiecesConcatenate(content, e, sizes[1..]);
      SlicesJoin(content, offset, e, End(|content|, e, Sum(sizes[1..])));
    }
  }

  lemma SlicesJoin<T>(s: seq<T>, a: nat, b: nat, c: nat)
    requires a <= b <= c <= |s|
    ensures s[a..b] + s[b..c] == s[a..c]
  {
  }

  // ---- names ----

  ghost predicate UniqueNames(t: Table) {
    forall i, j | i in t && j in t && i != ROOT_INODE && j != ROOT_INODE
      && t[i].name == t[j].name && t[i].parent == t[j].parent :: i == j
  }

  /** A creation keeps (parent, name) unique exactly when the name as stored was not taken; for
      names of at most 50 bytes the code checks that. The file is then found under the name it
      was created with exactly when that name was not cut. */
  lemma CreateNames(v: View, name: seq<byte>, parent: nat, kind: byte)
    requires Inv(v) && Sensible(Create(name, parent, kind)) && UniqueNames(TableOf(v))
    requires DoCreate(v, name, parent, kind).1 != -1
    ensures var (v', r) := DoCreate(v, name, parent, kind);
      && Inv(v')
      && (UniqueNames(TableOf(v')) <==> !exists i :: Named(TableOf(v), i, Truncated(name), parent))
      && (|name| < NAME_SIZE ==> UniqueNames(TableOf(v')))
      && (Find(v', name, parent, 1) == r <==> |name| < NAME_SIZE)
  {
    var (v', r) := DoCreate(v, name, parent, kind);
    CreateRefines(v, name, parent, kind);
    UniqueAfterCreate(TableOf(v), name, parent, kind, r, TableOf(v'));
    FoundIffStored(v, name, parent, kind);
  }

  lemma UniqueAfterCreate(t: Table, name: seq<byte>, parent: nat, kind: byte, r: int, t': Table)
    requires UniqueNames(t) && r != -1 && TableStep(t, Create(name, parent, kind), r, t')
    ensures UniqueNames(t') <==> !exists i :: Named(t, i, Truncated(name), parent)
    ensures |name| < NAME_SIZE ==> UniqueNames(t')
  {
    if i: nat :| Named(t, i, Truncated(name), parent) {
      assert t'[i].name == t'[r].name && i != r;
    } else {
      assert forall i: nat | i in t && i != ROOT_INODE :: !Named(t, i, Truncated(name), parent);
    }
  }

  lemma FoundIffStored(v: View, name: seq<byte>, parent: nat, kind: byte)
    requires Inv(v) && Sensible(Create(name, parent, kind))
    requires DoCreate(v, name, parent, kind).1 != -1
    ensures var (v', r) := DoCreate(v, name, parent, kind);
      Find(v', name, parent, 1) == r <==> |name| < NAME_SIZE
  {
    var (v', r) := DoCreate(v, name, parent, kind);
    StoredNameReads(name);
    assert Matches(v', r, name, parent) <==> |name| < NAME_SIZE by {
      assert Truncated(name) == name <==> |name| < NAME_SIZE;
    }
    forall i: nat | 1 <= i < MAX_INODES && i != r
      ensures !Matches(v', i, name, parent)
    {
      assert !Matches(v, i, name, parent);
    }
  }

  ghost predicate ShortNames(ops: seq<Op>) {
    forall k | 0 <= k < |ops| && ops[k].Create? :: |ops[k].name| < NAME_SIZE
  }

  lemma StepKeepsNamesUnique(v: View, op: Op)
    requires Inv(v) && Sensible(op) && (op.Create? ==> |op.name| < NAME_SIZE) && UniqueNames(TableOf(v))
    ensures Inv(Step(v, op).0) && UniqueNames(TableOf(Step(v, op).0))
  {
    StepRefines(v, op);
    if op.Create? && Step(v, op).1 != -1 {
      CreateNames(v, op.name, op.parent, op.kind);
    }
  }

  lemma {:induction false} RunKeepsNamesUnique(v: View, ops: seq<Op>)
    requires Inv(v) && SensibleRun(ops) && ShortNames(ops) && UniqueNames(TableOf(v))
    ensures Inv(Run(v, ops)) && UniqueNames(TableOf(Run(v, ops)))
    decreases |ops|
  {
    if |ops| > 0 {
      StepKeepsNamesUnique(v, ops[0]);
      RunKeepsNamesUnique(Step(v, ops[0]).0, ops[1..]);
      RunSplits(v, ops);
    }
  }
}
