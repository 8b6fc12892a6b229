/** The hash and the HMAC of the SM3 specification, byte by byte. */
module Sm3Facts {
  import opened Arithmetic
  import opened Bytes
  import opened BigEndian
  import opened Words32
  import opened Sm3

  /** The blocks go through the compression function one after the other. */
  lemma FoldInTurn(f: Compress, v: Words, s: Octets, b: Octets)
    requires |s| % 64 == 0 && |b| == 64
    ensures Fold(f, v, []) == v && Fold(f, v, s + b) == f(Fold(f, v, s), b)
  {
    hide Rest;
    Split(f, v, s, b);
    RestOfBlocks(s, |s| / 64);
    assert [] + b == b;
    OneBlock(f, Fold(f, v, s), b);
  }

  /** The padded message: the message, 0x80, fewer than 64 zeros, and the bit length modulo 2^64 in eight bytes. */
  lemma PadBytes(m: Octets)
    ensures var r := Pad(m);
            && |r| % 64 == 0 && |m| + 9 <= |r| < |m| + 73
            && r[..|m|] == m && r[|m|] == 0x80 && (forall i | |m| < i < |r| - 8 :: r[i] == 0)
            && FromBe(r[|r| - 8..]) == 8 * |m| % 0x1_0000_0000_0000_0000
  {
    hide ToBe, FromBe;
    var n := 8 * |m| % TWO64;
    LengthFits();
    FromBeToBe(n, 8);
    var r := Pad(m);
    assert r[|r| - 8..] == ToBe(n, 8);
  }

  lemma LengthFits()
    ensures Pow256(8) == TWO64
  {
    assert Pow256(4) == TWO32;
  }

  /** Word i is at 4 i, most significant byte first. */
  lemma {:induction false} SerializeWord(w: seq<bv32>, i: nat)
    requires i < |w|
    ensures GetBe32(Serialize(w), 4 * i) == w[i]
    decreases |w|
  {
    hide GetBe32, PutBe32;
    var n, s := |w| - 1, Serialize(w);
    if i == n {
      assert s[4 * i..4 * i + 4] == PutBe32(w[i]);
      GetAt(s, 4 * i, w[i]);
    } else {
      var t := Serialize(w[..n]);
      SerializeWord(w[..n], i);
      PutAt(t, 4 * i);
      assert s[4 * i..4 * i + 4] == t[4 * i..4 * i + 4];
      GetAt(s, 4 * i, w[i]);
    }
  }

  /** The digest is the final state, from the initial value of section 4.1 of GM/T 0004-2012 on. */
  lemma HashWord(f: Compress, m: Octets, i: nat)
    requires i < 8
    ensures var v: Words := [0x7380166F, 0x4914B2B9, 0x172442D7, 0xDA8A0600, 0xA96F30BC, 0x163138AA, 0xE38DEE4D, 0xB0FB0E4E];
            GetBe32(Hash(f, m), 4 * i) == Fold(f, v, Pad(m))[i]
  {
    hide GetBe32, Fold, Pad, Serialize;
    InitialLength();
    SerializeWord(Fold(f, INITIAL, Pad(m)), i);
  }

  /** k is the key, or the digest of a key of more than 64 bytes, with zeros behind it. */
  ghost predicate FillsBlock(f: Compress, key: Octets, k: Octets) {
    var s := if |key| > 64 then Hash(f, key) else key;
    |k| == 64 && (forall j | 0 <= j < |s| :: k[j] == s[j]) && (forall j | |s| <= j < 64 :: k[j] == 0)
  }

  ghost predicate MaskedBy(r: Octets, k: Octets, x: bv8) {
    |r| == |k| && forall j | 0 <= j < |k| :: r[j] == k[j] ^ x
  }

  /** HMAC: the outer hash under 0x5c of the inner one under 0x36. */
  lemma HmacIs(f: Compress, key: Octets, text: Octets, k: Octets, inner: Octets, outer: Octets)
    requires FillsBlock(f, key, k) && MaskedBy(inner, k, 0x36) && MaskedBy(outer, k, 0x5C)
    ensures Hmac(f, key, text) == Hash(f, outer + Hash(f, inner + text))
  {
    hide Hash;
    assert k == KeyBlock(f, key);
    MaskedIs(inner, k, 0x36);
    MaskedIs(outer, k, 0x5C);
  }

  lemma MaskedIs(r: Octets, k: Octets, x: bv8)
    requires MaskedBy(r, k, x)
    ensures r == Masked(k, x)
  {
    forall j | 0 <= j < |k|
      ensures r[j] == Masked(k, x)[j]
    {
      XorSwaps(k[j], x);
    }
  }

  lemma XorSwaps(a: bv8, b: bv8)
    ensures a ^ b == b ^ a
  {
  }

  /** A long key stands for its digest. */
  lemma LongKey(f: Compress, key: Octets, text: Octets)
    requires |key| > 64
    ensures Hmac(f, key, text) == Hmac(f, Hash(f, key), text)
  {
    hide Hash;
  }
}
