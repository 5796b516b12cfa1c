// The byte pipe of ipc.c: a ring of 256 bytes. Each call runs under the pipe's spin lock, so
// calls do not overlap.

module Pipe {
  import opened Bits

  const CAPACITY := 256

  class PipeBuffer {
    const buffer: array<byte>
    var readIdx: nat
    var writeIdx: nat
    var size: nat

    ghost predicate Valid()
      reads this
    {
      && buffer.Length == CAPACITY && readIdx < CAPACITY && size <= CAPACITY
      && writeIdx == (readIdx + size) % CAPACITY
    }

    // The bytes in the pipe, oldest first.
    ghost function Contents(): (s: seq<byte>)
      requires Valid()
      reads this, buffer
      ensures |s| == size
    {
      Window(buffer[..], readIdx, size)
    }

    constructor ()
      ensures Valid() && Contents() == [] && fresh(buffer)
    {
      buffer := new byte[CAPACITY](_ => 0);
      readIdx, writeIdx, size := 0, 0, 0;
    }

    /** pipe_read takes as many bytes as it is asked for, or all there are, from the front. */
    method Read(buf: array?<byte>, len: nat) returns (n: int)
      requires Valid() && len < WORD32 && (buf != null ==> len <= buf.Length && buf != buffer)
      modifies this, buf
      ensures Valid()
      ensures buf == null ==> n == -1 && Contents() == old(Contents())
      ensures buf != null ==>
        && n == Least(len, |old(Contents())|)
        && buf[..n] == old(Contents())[..n] && buf[n..] == old(buf[..])[n..]
        && Contents() == old(Contents())[n..]
        && Serve(Traffic(old(Contents()), [], []), Get(len)) == Traffic(Contents(), buf[..n], [])
    {
      if buf == null { return -1; }
      ghost var all := Contents();
      n := 0;
      while n < len && size > 0
        invariant 0 <= n <= Least(len, |all|) && Valid() && Contents() == all[n..]
        invariant forall k | 0 <= k < buf.Length :: buf[k] == if k < n then all[k] else old(buf[k])
      {
        buf[n] := Take();
        n := n + 1;
      }
      assert [] + buf[..n] == buf[..n];
    }

    // One turn of the loop of pipe_read.
    method Take() returns (b: byte)
      requires Valid() && size > 0
      modifies this
      ensures Valid() && b == old(Contents())[0] && Contents() == old(Contents())[1..]
    {
      Oldest(buffer[..], readIdx, size);
      b := buffer[readIdx];
      readIdx := (readIdx + 1) % CAPACITY;
      size := size - 1;
    }

    /** pipe_write accepts as many bytes as it is given, or as many as fit, at the back. */
    method Write(buf: array?<byte>, len: nat) returns (n: int)
      requires Valid() && len < WORD32 && (buf != null ==> len <= buf.Length && buf != buffer)
      modifies this, buffer
      ensures Valid()
      ensures buf == null ==> n == -1 && Contents() == old(Contents())
      ensures buf != null ==>
        && n == Least(len, CAPACITY - |old(Contents())|)
        && Contents() == old(Contents()) + buf[..n]
        && Serve(Traffic(old(Contents()), [], []), Put(buf[..len])) == Traffic(Contents(), [], buf[..n])
    {
      if buf == null { return -1; }
      ghost var all := Contents();
      n := 0;
      while n < len && size < CAPACITY
        invariant 0 <= n <= Least(len, CAPACITY - |all|) && Valid() && size == |all| + n
        invariant Contents() == all + buf[..n]
      {
        Newest(buffer[..], readIdx, size, buf[n]);
        ghost var before := buffer[..];
        buffer[writeIdx] := buf[n];
        assert buffer[..] == before[writeIdx := buf[n]];
        writeIdx := (writeIdx + 1) % CAPACITY;
        size := size + 1;
        n := n + 1;
      }
      assert [] + buf[..n] == buf[..n] == buf[..len][..n];
    }
  }

  function Least(a: nat, b: nat): nat { if a <= b then a else b }

  // n bytes round the ring from an index.
  function Window(ring: seq<byte>, at: nat, n: nat): (s: seq<byte>)
    requires |ring| == CAPACITY
    ensures |s| == n
  {
    seq(n, k requires 0 <= k < n => ring[(at + k) % CAPACITY])
  }

  lemma Oldest(ring: seq<byte>, at: nat, n: nat)
    requires |ring| == CAPACITY && at < CAPACITY && 0 < n <= CAPACITY
    ensures Window(ring, at, n)[0] == ring[at]
    ensures Window(ring, (at + 1) % CAPACITY, n - 1) == Window(ring, at, n)[1..]
    ensures ((at + 1) % CAPACITY + (n - 1)) % CAPACITY == (at + n) % CAPACITY
  {
    forall k | 0 <= k < n - 1
      ensures Window(ring, (at + 1) % CAPACITY, n - 1)[k] == Window(ring, at, n)[1..][k]
    {
      assert ((at + 1) % 256 + k) % 256 == (at + (k + 1)) % 256;
    }
  }

  lemma Newest(ring: seq<byte>, at: nat, n: nat, b: byte)
    requires |ring| == CAPACITY && at < CAPACITY && n < CAPACITY
    ensures var w := (at + n) % CAPACITY;
      Window(ring[w := b], at, n + 1) == Window(ring, at, n) + [b] && (w + 1) % CAPACITY == (at + (n + 1)) % CAPACITY
  {
    var w := (at + n) % 256;
    forall k | 0 <= k < n
      ensures Window(ring[w := b], at, n + 1)[k] == Window(ring, at, n)[k]
    {
      assert (at + k) % 256 != w;
    }
  }

  // ---- every interleaving of readers and writers ----

  datatype Call = Get(len: nat) | Put(bytes: seq<byte>)

  // The pipe between calls, everything ever delivered and everything ever accepted.
  datatype Traffic = Traffic(contents: seq<byte>, delivered: seq<byte>, accepted: seq<byte>)

  // What Read and Write promise, with the totals.
  function Serve(t: Traffic, c: Call): Traffic
    requires |t.contents| <= CAPACITY
  {
    match c
    case Get(len) =>
      var n := Least(len, |t.contents|);
      Traffic(t.contents[n..], t.delivered + t.contents[..n], t.accepted)
    case Put(bytes) =>
      var n := Least(|bytes|, CAPACITY - |t.contents|);
      Traffic(t.contents + bytes[..n], t.delivered, t.accepted + bytes[..n])
  }

  function ServeAll(t: Traffic, cs: seq<Call>): Traffic
    requires |t.contents| <= CAPACITY
    decreases |cs|
  {
    if |cs| == 0 then t else ServeAll(Serve(t, cs[0]), cs[1..])
  }

  /** However reads and writes of any sizes interleave, the bytes delivered and then the bytes
      still in the pipe are the bytes accepted, in order. */
  lemma {:induction false} Fifo(t: Traffic, cs: seq<Call>)
    requires |t.contents| <= CAPACITY && t.delivered + t.contents == t.accepted
    ensures var t' := ServeAll(t, cs);
      |t'.contents| <= CAPACITY && t'.delivered + t'.contents == t'.accepted
    decreases |cs|
  {
    if |cs| > 0 {
      var t1 := Serve(t, cs[0]);
      match cs[0] {
        case Get(len) =>
          var n := Least(len, |t.contents|);
          assert t.contents == t.contents[..n] + t.contents[n..];
          assert t1.delivered + t1.contents == t.delivered + t.contents;
        case Put(bytes) =>
          var n := Least(|bytes|, CAPACITY - |t.contents|);
          assert t1.delivered + t1.contents == (t.delivered + t.contents) + bytes[..n];
      }
      Fifo(t1, cs[1..]);
    }
  }
}
