/** memcpy into a buffer. */
module Buffers {
  import opened Lines

  /** Copy s to the place where the first n bytes of the buffer end. */
  method Put(dest: array<Byte>, n: nat, s: seq<Byte>)
    requires n + |s| <= dest.Length
    modifies dest
    ensures dest[..n + |s|] == old(dest[..n]) + s
    ensures forall i | n + |s| <= i < dest.Length :: dest[i] == old(dest[i])
  {
    for i := 0 to |s|
      invariant dest[..n + i] == old(dest[..n]) + s[..i]
      invariant forall j | n + i <= j < dest.Length :: dest[j] == old(dest[j])
    {
      dest[n + i] := s[i];
    }
  }
}
