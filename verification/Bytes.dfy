/** Byte strings, 16-byte blocks and big-endian integers shared by the models. */
module Bytes {

  type Block = b: seq<bv8> | |b| == 16 witness Zeros(16)

  const ZERO_BLOCK: Block := Zeros(16)

  function Xor(a: seq<bv8>, b: seq<bv8>): (r: seq<bv8>)
    requires |a| == |b|
    ensures |r| == |a|
  {
    seq(|a|, i requires 0 <= i < |a| => a[i] ^ b[i])
  }

  lemma XorCancels(a: seq<bv8>, b: seq<bv8>)
    requires |a| == |b|
    ensures Xor(Xor(a, b), b) == a
  {
    forall i | 0 <= i < |a|
      ensures Xor(Xor(a, b), b)[i] == a[i]
    {
      assert (a[i] ^ b[i]) ^ b[i] == a[i];
    }
  }

  /** Sixteen bytes of s from `at` on under the mask t. */
  function Under(s: seq<bv8>, at: nat, t: Block): Block
    requires at + 16 <= |s|
  {
    seq(16, k requires 0 <= k < 16 => s[at + k] ^ t[k])
  }

  function Zeros(n: nat): (r: seq<bv8>)
    ensures |r| == n
  {
    seq(n, _ => 0)
  }

  /** The concatenation of the pieces that a message is cut into. */
  function Concat(pieces: seq<seq<bv8>>): seq<bv8> {
    if pieces == [] then [] else Concat(pieces[..|pieces| - 1]) + pieces[|pieces| - 1]
  }

  /** memcpy() into a buffer. */
  method Write(dst: array<bv8>, off: nat, s: seq<bv8>)
    requires off + |s| <= dst.Length
    modifies dst
    ensures dst[..off] == old(dst[..off]) && dst[off..off + |s|] == s && dst[off + |s|..] == old(dst[off + |s|..])
    ensures dst[..off + |s|] == old(dst[..off]) + s
  {
    for i := 0 to |s|
      invariant dst[..off] == old(dst[..off]) && dst[off..off + i] == s[..i]
      invariant dst[off + |s|..] == old(dst[off + |s|..])
    {
      dst[off + i] := s[i];
    }
  }
}
