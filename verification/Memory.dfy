// memset and memcpy over byte buffers.

module Memory {
  import opened Bits

  method MemSet(dst: array<byte>, val: byte)
    modifies dst
    ensures forall k | 0 <= k < dst.Length :: dst[k] == val
  {
    for k := 0 to dst.Length
      invariant forall j | 0 <= j < k :: dst[j] == val
    {
      dst[k] := val;
    }
  }

  // memcpy of part of src to an offset of dst.
  method MemCpy(dst: array<byte>, at: nat, src: seq<byte>)
    requires at + |src| <= dst.Length
    modifies dst
    ensures dst[..] == Splice(old(dst[..]), at, src)
  {
    for k := 0 to |src|
      invariant dst[..] == Splice(old(dst[..]), at, src[..k])
    {
      dst[at + k] := src[k];
      assert src[..k + 1] == src[..k] + [src[k]];
      assert dst[..] == Splice(old(dst[..]), at, src[..k])[at + k := src[k]];
    }
    assert src[..|src|] == src;
  }
}
