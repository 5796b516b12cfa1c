// Bits, bytes and little-endian fields: the machine arithmetic the other modules share.

module Bits {

  const WORD32 := 0x1_0000_0000

  type byte = x: int | 0 <= x < 0x100

  type uint32 = x: int | 0 <= x < 0x1_0000_0000

  // A sum in uint32_t.
  function Add32(a: nat, b: nat): (r: nat)
    requires a < WORD32 && b < WORD32
    ensures r < WORD32 && (r == a + b || r == a + b - WORD32)
  {
    if a + b < WORD32 then a + b else a + b - WORD32
  }

  // (w >> k) & 1
  predicate Bit(w: nat, k: nat) {
    if k == 0 then w % 2 == 1 else Bit(w / 2, k - 1)
  }

  // w | (1 << k)
  function SetBit(w: nat, k: nat): nat {
    if k == 0 then w - w % 2 + 1 else 2 * SetBit(w / 2, k - 1) + w % 2
  }

  // w & ~(1 << k)
  function ClearBit(w: nat, k: nat): nat {
    if k == 0 then w - w % 2 else 2 * ClearBit(w / 2, k - 1) + w % 2
  }

  // An all-ones word of the given width, for the reset value 0xFFFFFFFF.
  function Ones(width: nat): nat {
    if width == 0 then 0 else 2 * Ones(width - 1) + 1
  }

  function Pow2(k: nat): nat {
    if k == 0 then 1 else 2 * Pow2(k - 1)
  }

  /** OR with a one-hot mask, bit by bit. */
  lemma {:induction false} SetBitBits(w: nat, k: nat, j: nat)
    ensures Bit(SetBit(w, k), j) == (j == k || Bit(w, j))
  {
    if k > 0 {
      assert SetBit(w, k) / 2 == SetBit(w / 2, k - 1);
      if j > 0 { SetBitBits(w / 2, k - 1, j - 1); }
    } else {
      assert SetBit(w, k) / 2 == w / 2;
    }
  }

  /** AND with a one-cold mask, bit by bit. */
  lemma {:induction false} ClearBitBits(w: nat, k: nat, j: nat)
    ensures Bit(ClearBit(w, k), j) == (j != k && Bit(w, j))
  {
    if k > 0 {
      assert ClearBit(w, k) / 2 == ClearBit(w / 2, k - 1);
      if j > 0 { ClearBitBits(w / 2, k - 1, j - 1); }
    } else {
      assert ClearBit(w, k) / 2 == w / 2;
    }
  }

  /** Neither operation leaves a word of n bits. */
  lemma {:induction false} BitOpsStayInWidth(w: nat, k: nat, n: nat)
    requires k < n && w < Pow2(n)
    ensures SetBit(w, k) < Pow2(n) && ClearBit(w, k) <= w
  {
    if k > 0 { BitOpsStayInWidth(w / 2, k - 1, n - 1); }
  }

  lemma {:induction false} OnesBits(width: nat, k: nat)
    requires k < width
    ensures Bit(Ones(width), k)
  {
    assert Ones(width) / 2 == Ones(width - 1);
    if k > 0 { OnesBits(width - 1, k - 1); }
  }

  lemma {:induction false} OnesBelow(width: nat)
    ensures Ones(width) + 1 == Pow2(width)
  {
    if width > 0 { OnesBelow(width - 1); }
  }

  lemma {:induction false} ZeroBits(k: nat)
    ensures !Bit(0, k)
  {
    if k > 0 { ZeroBits(k - 1); }
  }

  // The low n bits do not depend on the rest.
  lemma {:induction false} LowBits(x: nat, y: nat, q: nat, n: nat, b: nat)
    requires x == Pow2(n) * q + y && b < n
    ensures Bit(x, b) == Bit(y, b)
  {
    var m := Pow2(n - 1) * q;
    assert x == 2 * m + y;
    if b > 0 { LowBits(x / 2, y / 2, q, n - 1, b - 1); }
  }

  lemma Widths()
    ensures Pow2(8) == 0x100 && Pow2(32) == 0x1_0000_0000 && Ones(32) == 0xFFFF_FFFF
  {
    assert Pow2(4) == 16;
    assert Pow2(8) == 0x100;
    assert Pow2(12) == 0x1000;
    assert Pow2(16) == 0x1_0000;
    assert Pow2(20) == 0x10_0000;
    assert Pow2(24) == 0x100_0000;
    assert Pow2(28) == 0x1000_0000;
    OnesBelow(32);
  }

  function Zeros(n: nat): (s: seq<byte>)
    ensures |s| == n && forall k | 0 <= k < n :: s[k] == 0
  {
    seq(n, _ => 0)
  }

  // Little-endian fields.
  function Le16(x: nat): (s: seq<byte>)
    requires x < 0x1_0000
    ensures |s| == 2
  {
    [x % 0x100, x / 0x100]
  }

  function Le32(x: nat): (s: seq<byte>)
    requires x < WORD32
    ensures |s| == 4
  {
    Le16(x % 0x1_0000) + Le16(x / 0x1_0000)
  }

  function Read16(s: seq<byte>, at: nat): (x: nat)
    requires at + 2 <= |s|
    ensures x < 0x1_0000
  {
    s[at] as int + 0x100 * s[at + 1] as int
  }

  function Read32(s: seq<byte>, at: nat): (x: nat)
    requires at + 4 <= |s|
    ensures x < WORD32
  {
    Read16(s, at) + 0x1_0000 * Read16(s, at + 2)
  }

  // Writing a run of bytes over part of a buffer (memcpy into its middle).
  function Splice<T>(s: seq<T>, at: nat, t: seq<T>): (r: seq<T>)
    requires at + |t| <= |s|
    ensures |r| == |s|
    ensures forall k | 0 <= k < |s| :: r[k] == if at <= k < at + |t| then t[k - at] else s[k]
  {
    seq(|s|, k requires 0 <= k < |s| => if at <= k < at + |t| then t[k - at] else s[k])
  }
}
