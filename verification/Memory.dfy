/** The C library's `memcpy` and `memset` on distinct buffers. */
module Memory {
  method Copy<T>(dst: array<T>, at: nat, src: array<T>, from: nat, count: nat)
    requires dst != src
    requires at + count <= dst.Length && from + count <= src.Length
    modifies dst
    ensures dst[..] == old(dst[..at]) + src[from..from + count] + old(dst[at + count..])
  {
    forall i | 0 <= i < count {
      dst[at + i] := src[from + i];
    }
  }

  method Fill<T>(dst: array<T>, value: T)
    modifies dst
    ensures dst[..] == seq(dst.Length, _ => value)
  {
    forall i | 0 <= i < dst.Length {
      dst[i] := value;
    }
  }
}
