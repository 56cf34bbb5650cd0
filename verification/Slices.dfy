/** Bytes, and what Go's built-in slice operations do to arrays. */
module Slices {

  type byte = bv8

  /** copy(dst[at:], src[lo:hi]): as if the source had been read first. */
  method Copy<T>(dst: array<T>, at: nat, src: array<T>, lo: nat, hi: nat)
    requires lo <= hi <= src.Length && at + (hi - lo) <= dst.Length
    modifies dst
    ensures dst[..] == old(dst[..at]) + old(src[lo..hi]) + old(dst[at + (hi - lo)..])
  {
    forall i | 0 <= i < hi - lo {
      dst[at + i] := src[lo + i];
    }
    assert dst[..] == dst[..at] + dst[at..at + (hi - lo)] + dst[at + (hi - lo)..];
    assert dst[at..at + (hi - lo)] == old(src[lo..hi]);
    assert dst[..at] == old(dst[..at]);
    assert dst[at + (hi - lo)..] == old(dst[at + (hi - lo)..]);
  }
}
