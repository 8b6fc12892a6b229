/** The functions of NIST SP 800-38D on short inputs, written out. */
module GcmFacts {
  import opened Arithmetic
  import opened Bytes
  import opened ByteValues
  import opened BigEndian
  import opened GfWords
  import opened GcmSpec
  import Gcm

  /** One step of GHASH. */
  function Step(h: Block, y: Block, b: Block): Block {
    BlockMul(Xor(y, b), h)
  }

  /** With a 96-bit nonce, one block of associated data and one of ciphertext, the tag is the hash of these two and of
      their bit lengths, associated data first, under the encryption of the nonce with counter one. */
  lemma TagOfTwoBlocks(e: Block -> Block, iv: seq<bv8>, a: Block, c: Block, j: Block, lengths: Block)
    requires |iv| == 12 && j == iv + [0, 0, 0, 1] && lengths == ToBe(128, 8) + ToBe(128, 8)
    ensures var h := e(ZERO_BLOCK);
            Tag(e, iv, a, c) == Xor(e(j), Step(h, Step(h, Step(h, ZERO_BLOCK, a), c), lengths))
  {
    hide BlockMul, Ghash, Xor, ToBe, Step;
    ThreeBlocks(e(ZERO_BLOCK), a, c, lengths);
    assert Pad(a) == a && Pad(c) == c;
    assert Pad(a) + Pad(c) + Len64(16) + Len64(16) == a + c + lengths;
  }

  lemma ThreeBlocks(h: Block, a: Block, b: Block, c: Block)
    ensures Ghash(h, ZERO_BLOCK, a + b + c) == Step(h, Step(h, Step(h, ZERO_BLOCK, a), b), c)
  {
    hide BlockMul, Ghash, Xor;
    TwoBlocks(h, a, b);
    GhashBlock(h, ZERO_BLOCK, a + b, c);
  }

  /** With associated data alone, its length stands first. */
  lemma TagOfAad(e: Block -> Block, iv: seq<bv8>, a: Block, j: Block, lengths: Block)
    requires |iv| == 12 && j == iv + [0, 0, 0, 1] && lengths == ToBe(128, 8) + ToBe(0, 8)
    ensures var h := e(ZERO_BLOCK);
            Tag(e, iv, a, []) == Xor(e(j), Step(h, Step(h, ZERO_BLOCK, a), lengths))
  {
    hide BlockMul, Ghash, Xor, ToBe, Step;
    TwoBlocks(e(ZERO_BLOCK), a, lengths);
    assert Pad(a) == a && Pad([]) == [];
    assert Pad(a) + Pad([]) + Len64(16) + Len64(0) == a + lengths;
  }

  lemma TwoBlocks(h: Block, a: Block, b: Block)
    ensures Ghash(h, ZERO_BLOCK, a + b) == Step(h, Step(h, ZERO_BLOCK, a), b)
  {
    hide BlockMul, Ghash, Xor;
    Gcm.GhashNil(h, ZERO_BLOCK);
    GhashBlock(h, ZERO_BLOCK, [], a);
    assert [] + a == a;
    GhashBlock(h, ZERO_BLOCK, a, b);
  }

  /** The first byte of ciphertext is under the encryption of counter two. */
  lemma FirstByte(e: Block -> Block, iv: seq<bv8>, p: bv8, ctr: Block)
    requires |iv| == 12 && ctr == iv + [0, 0, 0, 2]
    ensures Ciphertext(e, iv, [p]) == [p ^ e(ctr)[0]]
  {
    hide ToBe, FromBe;
    CounterTwo(iv);
  }

  lemma CounterTwo(iv: seq<bv8>)
    requires |iv| == 12
    ensures Inc32(Inc32(iv + [0, 0, 0, 1], 1), 0) == iv + [0, 0, 0, 2]
  {
    hide ToBe, FromBe;
    SmallWord();
    var b: Block := iv + [0, 0, 0, 1];
    var c: Block := iv + [0, 0, 0, 2];
    assert b[12..] == [0, 0, 0, 1] && b[..12] == iv && c[12..] == [0, 0, 0, 2] && c[..12] == iv;
    assert Inc32(b, 1) == c;
  }

  lemma SmallWord()
    ensures FromBe([0, 0, 0, 1]) == 1 && FromBe([0, 0, 0, 2]) == 2 && ToBe(2, 4) == [0, 0, 0, 2]
  {
    hide Value, FromBe, ToBe;
    ZeroAndOne();
    NextByte(1);
    FromBeNil();
    FromBeSnoc([], 0);
    FromBeSnoc([0], 0);
    FromBeSnoc([0, 0], 0);
    FromBeSnoc([0, 0, 0], 1);
    FromBeSnoc([0, 0, 0], 2);
    assert [] + [0 as bv8] == [0] && [0 as bv8] + [0] == [0, 0] && [0 as bv8, 0] + [0] == [0, 0, 0];
    assert [0 as bv8, 0, 0] + [1] == [0, 0, 0, 1] && [0 as bv8, 0, 0] + [2] == [0, 0, 0, 2];
    ToBeFromBe([0, 0, 0, 2]);
  }
}
