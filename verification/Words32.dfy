/** 32-bit words in big-endian byte order. */
module Words32 {

  function GetBe32(b: seq<bv8>, i: nat): bv32
    requires i + 4 <= |b|
  {
    ((b[i] as bv32) << 24) | ((b[i + 1] as bv32) << 16) | ((b[i + 2] as bv32) << 8) | (b[i + 3] as bv32)
  }

  function PutBe32(n: bv32): (r: seq<bv8>)
    ensures |r| == 4
  {
    [((n >> 24) & 0xff) as bv8, ((n >> 16) & 0xff) as bv8, ((n >> 8) & 0xff) as bv8, (n & 0xff) as bv8]
  }

  lemma GetPut(n: bv32)
    ensures GetBe32(PutBe32(n), 0) == n
  {
  }

  lemma PutGet(b: seq<bv8>)
    requires |b| == 4
    ensures PutBe32(GetBe32(b, 0)) == b
  {
  }

  lemma GetAt(b: seq<bv8>, i: nat, n: bv32)
    requires i + 4 <= |b| && b[i..i + 4] == PutBe32(n)
    ensures GetBe32(b, i) == n
  {
    GetPut(n);
    assert b[i] == b[i..i + 4][0] && b[i + 1] == b[i..i + 4][1] && b[i + 2] == b[i..i + 4][2] && b[i + 3] == b[i..i + 4][3];
  }

  lemma PutAt(b: seq<bv8>, i: nat)
    requires i + 4 <= |b|
    ensures PutBe32(GetBe32(b, i)) == b[i..i + 4]
  {
    PutGet(b[i..i + 4]);
  }

  /** Big-endian: the first byte weighs most. */
  lemma GetWeights(b: seq<bv8>, i: nat)
    requires i + 4 <= |b|
    ensures GetBe32(b, i) == (b[i] as bv32) * 0x1000000 + (b[i + 1] as bv32) * 0x10000 + (b[i + 2] as bv32) * 0x100 + (b[i + 3] as bv32)
  {
  }

  lemma PutWeights(n: bv32)
    ensures var s := PutBe32(n);
            n == (s[0] as bv32) * 0x1000000 + (s[1] as bv32) * 0x10000 + (s[2] as bv32) * 0x100 + (s[3] as bv32)
  {
    hide GetBe32, PutBe32;
    GetPut(n);
    GetWeights(PutBe32(n), 0);
  }
}
