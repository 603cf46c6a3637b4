/** Copying into a part of a buffer. */
module Buffers {
  import opened Gf256

  method Copy(from: seq<byte>, to: array<byte>, at: nat)
    requires at + |from| <= to.Length
    modifies to
    ensures to[..at] == old(to[..at])
    ensures to[at..at + |from|] == from
    ensures to[at + |from|..] == old(to[at + |from|..])
  {
    for i := 0 to |from|
      invariant to[..at] == old(to[..at])
      invariant forall k :: 0 <= k < i ==> to[at + k] == from[k]
      invariant forall k :: at + i <= k < to.Length ==> to[k] == old(to[k])
    {
      to[at + i] := from[i];
    }
  }
}
