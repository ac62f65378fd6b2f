/** memcpy and memset on byte arrays. */
module Memory {
  import opened Words

  method MemCpy(dst: array<byte>, to: nat, src: array<byte>, from: nat, n: nat)
    requires dst != src && to + n <= dst.Length && from + n <= src.Length
    modifies dst
    ensures dst[..] == Overlay(old(dst[..]), to, src[from..from + n])
  {
    for i := 0 to n
      invariant forall k :: to <= k < to + i ==> dst[k] == src[from + (k - to)]
      invariant forall k :: 0 <= k < dst.Length && !(to <= k < to + i) ==> dst[k] == old(dst[k])
    {
      dst[to + i] := src[from + i];
    }
  }

  method MemSet(dst: array<byte>, to: nat, n: nat)
    requires to + n <= dst.Length
    modifies dst
    ensures dst[..] == Overlay(old(dst[..]), to, Zeros(n))
  {
    for i := 0 to n
      invariant forall k :: to <= k < to + i ==> dst[k] == 0
      invariant forall k :: 0 <= k < dst.Length && !(to <= k < to + i) ==> dst[k] == old(dst[k])
    {
      dst[to + i] := 0;
    }
  }
}
