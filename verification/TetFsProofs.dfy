// tetFS as a refinement: every run of create, delete and write from a formatted disk keeps the
// bitmap exact and acts on the table of files as the abstract operations do.

module TetFsProofs {
  import opened Bits
  import opened TetFsLayout
  import opened TetFsSpec

  lemma {:induction false} CStringUnique(s: seq<byte>, r: seq<byte>)
    requires |r| < |s| && s[..|r|] == r && s[|r|] == 0 && 0 !in r
    ensures CString(s) == r
  {
    if r != [] {
      assert s[0] == r[0];
      CStringUnique(s[1..], r[1..]);
    }
  }

  lemma StoredNameReads(name: seq<byte>)
    requires 0 !in name
    ensures CString(StoredName(name)) == Truncated(name) && 0 in StoredName(name)
  {
    var s := StoredName(name);
    assert s[|Truncated(name)|] == 0;
    CStringUnique(s, Truncated(name));
  }

  // ---- create ----

  lemma FindIsNamed(v: View, name: seq<byte>, parent: nat)
    requires Inv(v)
    ensures Find(v, name, parent, 1) != -1 <==> exists i :: Named(TableOf(v), i, name, parent)
  {
    var t := TableOf(v);
    assert forall i: nat :: Named(t, i, name, parent) <==> i != ROOT_INODE && Matches(v, i, name, parent);
    var r := Find(v, name, parent, 1);
    if r != -1 { assert Named(t, r, name, parent); }
  }

  lemma CreateRefines(v: View, name: seq<byte>, parent: nat, kind: byte)
    requires Inv(v) && Sensible(Create(name, parent, kind))
    ensures var (v', r) := DoCreate(v, name, parent, kind);
      Inv(v') && TableStep(TableOf(v), Create(name, parent, kind), r, TableOf(v'))
  {
    var (v', r) := DoCreate(v, name, parent, kind);
    FindIsNamed(v, name, parent);
    if r != -1 {
      CreateInv(v, name, parent, kind);
      OneEntryChanges(v, v', r);
      NewEntry(v, name, parent, kind);
    }
  }

  lemma NewEntry(v: View, name: seq<byte>, parent: nat, kind: byte)
    requires Inv(v) && Sensible(Create(name, parent, kind))
    requires DoCreate(v, name, parent, kind).1 != -1 && Inv(DoCreate(v, name, parent, kind).0)
    ensures var (v', r) := DoCreate(v, name, parent, kind);
      Live(v', r) && EntryOf(v', r) == Entry(Truncated(name), parent, kind, [])
  {
    StoredNameReads(name);
  }

  lemma CreateInv(v: View, name: seq<byte>, parent: nat, kind: byte)
    requires Inv(v) && Sensible(Create(name, parent, kind))
    requires DoCreate(v, name, parent, kind).1 != -1
    ensures Inv(DoCreate(v, name, parent, kind).0)
  {
    var (v', r) := DoCreate(v, name, parent, kind);
    StoredNameReads(name);
    assert !Live(v, r);
    assert forall i: nat, b: nat :: Owns(v', i, b) <==> Owns(v, i, b);
    assert forall i: nat | i != r :: Live(v', i) <==> Live(v, i);
  }

  // If a step touches no block of another inode, the other files read as before.
  lemma OthersKeepTheirBytes(v: View, v': View, r: nat)
    requires Inv(v) && Inv(v')
    requires forall i | 0 <= i < MAX_INODES && i != r :: v'.inodes[i] == v.inodes[i]
    requires forall i: nat, b: nat | i != r && Owns(v, i, b) :: v'.blocks[b] == v.blocks[b]
    ensures forall i | i in TableOf(v) && i != r :: i in TableOf(v') && TableOf(v')[i] == TableOf(v)[i]
    ensures forall i | i in TableOf(v') && i != r :: i in TableOf(v)
  {
    forall i: nat | i in TableOf(v) && i != r
      ensures Raw(v', v'.inodes[i]) == Raw(v, v.inodes[i])
    {
      var n := v.inodes[i];
      forall p | 0 <= p < BLOCK_SIZE * n.count
        ensures Raw(v', n)[p] == Raw(v, n)[p]
      {
        assert Owns(v, i, n.start + p / BLOCK_SIZE);
      }
    }
    assert forall i: nat | i != r :: Live(v', i) <==> Live(v, i);
  }

  lemma OneEntryChanges(v: View, v': View, idx: nat)
    requires Inv(v) && Inv(v')
    requires forall i | 0 <= i < MAX_INODES && i != idx :: v'.inodes[i] == v.inodes[i]
    requires forall i: nat, b: nat | i != idx && Owns(v, i, b) :: v'.blocks[b] == v.blocks[b]
    ensures TableOf(v') == if Live(v', idx) then TableOf(v)[idx := EntryOf(v', idx)] else TableOf(v) - {idx}
  {
    OthersKeepTheirBytes(v, v', idx);
  }

  // ---- delete ----

  lemma DeleteRefines(v: View, idx: nat)
    requires Inv(v)
    ensures var (v', r) := DoDelete(v, idx);
      Inv(v') && TableStep(TableOf(v), Delete(idx), r, TableOf(v'))
  {
    var (v', r) := DoDelete(v, idx);
    if r == 0 {
      ReclaimedExact(v, idx);
      assert forall i: nat, b: nat :: Owns(v', i, b) <==> i != idx && Owns(v, i, b);
      assert forall i: nat :: Live(v', i) <==> i != idx && Live(v, i);
      OneEntryChanges(v, v', idx);
    }
  }

  // Clearing an inode's extent leaves exactly the blocks the other inodes own.
  lemma ReclaimedExact(v: View, idx: nat)
    requires Inv(v) && Live(v, idx)
    ensures forall b | 0 <= b < BITMAP_BITS ::
      Reclaimed(v, v.inodes[idx])[b] <==> exists i: nat :: i != idx && Owns(v, i, b)
  {
    forall b | 0 <= b < BITMAP_BITS
      ensures Reclaimed(v, v.inodes[idx])[b] <==> exists i: nat :: i != idx && Owns(v, i, b)
    {
      if Owns(v, idx, b) {
        assert !exists i: nat :: i != idx && Owns(v, i, b);
      } else if v.bits[b] {
        var i: nat :| Owns(v, i, b);
        assert i != idx && Owns(v, i, b);
      }
    }
  }

  // ---- write ----

  lemma NeededFits(len: nat)
    requires 0 < len <= MAX_WRITE
    ensures Needed(len) == (len + BLOCK_SIZE - 1) / BLOCK_SIZE
    ensures Needed(len) <= MAX_FILE_BLOCKS <==> len <= BLOCK_SIZE * MAX_FILE_BLOCKS
    ensures 1 <= Needed(len) && BLOCK_SIZE * (Needed(len) - 1) < len <= BLOCK_SIZE * Needed(len)
  {
  }

  lemma WriteOwners(v: View, idx: nat, buf: seq<byte>)
    requires Inv(v) && |buf| < WORD32 && buf != []
    requires DoWrite(v, idx, buf).1 == 0
    ensures var v' := DoWrite(v, idx, buf).0;
      && (forall i: nat, b: nat | i != idx :: Owns(v', i, b) <==> Owns(v, i, b))
      && (forall b: nat :: Owns(v', idx, b) <==> PlacedAt(v, idx, |buf|) <= b < PlacedAt(v, idx, |buf|) + Needed(|buf|))
      && (forall i: nat, b: nat | i != idx && Owns(v', i, b) :: !Owns(v', idx, b))
      && (forall b | 0 <= b < BITMAP_BITS :: v'.bits[b] <==> exists i: nat :: Owns(v', i, b))
  {
    var v' := DoWrite(v, idx, buf).0;
    var (s, k) := (PlacedAt(v, idx, |buf|), Needed(|buf|));
    var bits := Reclaimed(v, v.inodes[idx]);
    ReclaimedExact(v, idx);
    assert FreeRun(bits, s, RunLength(k));
    forall i: nat, b: nat | i != idx
      ensures Owns(v', i, b) <==> Owns(v, i, b)
    {}
    forall b: nat
      ensures Owns(v', idx, b) <==> s <= b < s + k
    {}
    forall i: nat, b: nat | i != idx && Owns(v', i, b)
      ensures !Owns(v', idx, b)
    {
      assert Owns(v, i, b) && bits[b];
    }
    forall b | 0 <= b < BITMAP_BITS
      ensures v'.bits[b] <==> exists i: nat :: Owns(v', i, b)
    {
      if s <= b < s + k {
        assert v'.bits[b] && Owns(v', idx, b);
      } else if bits[b] {
        var i: nat :| i != idx && Owns(v, i, b);
        assert Owns(v', i, b);
      }
    }
  }

  lemma WriteContent(v: View, idx: nat, buf: seq<byte>)
    requires Inv(v) && 0 < |buf| <= BLOCK_SIZE * MAX_FILE_BLOCKS
    requires DoWrite(v, idx, buf).1 == 0
    ensures var v' := DoWrite(v, idx, buf).0;
      v'.inodes[idx].start + v'.inodes[idx].count <= MAX_BLOCKS && |buf| <= BLOCK_SIZE * v'.inodes[idx].count
      && Raw(v', v'.inodes[idx])[..|buf|] == buf
  {
    var v' := DoWrite(v, idx, buf).0;
    var n := v'.inodes[idx];
    NeededFits(|buf|);
    BlocksHoldContent(buf, n.count);
    forall p | 0 <= p < |buf|
      ensures Raw(v', n)[p] == buf[p]
    {
      assert v'.blocks[n.start + p / BLOCK_SIZE] == Blocks(buf, n.count)[p / BLOCK_SIZE];
    }
  }

  lemma BlocksHoldContent(buf: seq<byte>, n: nat)
    requires |buf| <= BLOCK_SIZE * n
    ensures forall p | 0 <= p < |buf| :: p / BLOCK_SIZE < n && Blocks(buf, n)[p / BLOCK_SIZE][p % BLOCK_SIZE] == buf[p]
  {
    forall p | 0 <= p < |buf|
      ensures p / BLOCK_SIZE < n && Blocks(buf, n)[p / BLOCK_SIZE][p % BLOCK_SIZE] == buf[p]
    {
      assert p == BLOCK_SIZE * (p / BLOCK_SIZE) + p % BLOCK_SIZE;
    }
  }

  /** A rewrite keeps the disk well formed exactly when the length fits the 16 blocks of a file;
      the code enforces that itself for every length up to MAX_WRITE. */
  lemma WriteInvIff(v: View, idx: nat, buf: seq<byte>)
    requires Inv(v) && |buf| < WORD32
    requires DoWrite(v, idx, buf).1 == 0
    ensures Inv(DoWrite(v, idx, buf).0) <==> |buf| <= BLOCK_SIZE * MAX_FILE_BLOCKS
    ensures |buf| <= MAX_WRITE ==> |buf| <= BLOCK_SIZE * MAX_FILE_BLOCKS
  {
    var v' := DoWrite(v, idx, buf).0;
    if buf == [] {
      assert forall i: nat, b: nat :: Owns(v', i, b) <==> Owns(v, i, b);
    } else {
      if |buf| <= MAX_WRITE { NeededFits(|buf|); }
      WriteOwners(v, idx, buf);
      assert forall i: nat :: Live(v', i) <==> Live(v, i);
      if |buf| > BLOCK_SIZE * MAX_FILE_BLOCKS {
        assert Live(v', idx) && !WfInode(v'.inodes[idx]);
      } else {
        var s := PlacedAt(v, idx, |buf|);
        assert FreeRun(Reclaimed(v, v.inodes[idx]), s, RunLength(Needed(|buf|)));
        forall i: nat, j: nat, b: nat | Owns(v', i, b) && Owns(v', j, b)
          ensures i == j
        {
          if i != idx && j != idx { assert Owns(v, i, b) && Owns(v, j, b); }
        }
      }
    }
  }

  lemma WriteRefines(v: View, idx: nat, buf: seq<byte>)
    requires Inv(v) && Sensible(Write(idx, buf))
    ensures var (v', r) := DoWrite(v, idx, buf);
      Inv(v') && TableStep(TableOf(v), Write(idx, buf), r, TableOf(v'))
  {
    var (v', r) := DoWrite(v, idx, buf);
    if r == 0 {
      WriteInvIff(v, idx, buf);
      if buf != [] {
        WriteKeepsOthers(v, idx, buf);
        WriteContent(v, idx, buf);
      }
      OneEntryChanges(v, v', idx);
      assert EntryOf(v', idx) == TableOf(v)[idx].(content := buf);
    }
  }

  lemma WriteKeepsOthers(v: View, idx: nat, buf: seq<byte>)
    requires Inv(v) && |buf| < WORD32 && buf != []
    requires DoWrite(v, idx, buf).1 == 0
    ensures forall i: nat, b: nat | i != idx && Owns(v, i, b) :: DoWrite(v, idx, buf).0.blocks[b] == v.blocks[b]
  {
    var v' := DoWrite(v, idx, buf).0;
    WriteOwners(v, idx, buf);
    forall i: nat, b: nat | i != idx && Owns(v, i, b)
      ensures v'.blocks[b] == v.blocks[b]
    {
      assert Owns(v', i, b) && !Owns(v', idx, b);
    }
  }
}
