/** The CTR mode of core/crypto/sm4.c: a big-endian counter incremented byte by byte. */
module Sm4Ctr {
  import opened Arithmetic
  import opened Bytes
  import opened ByteValues
  import opened BigEndian
  import opened BlockModes
  import opened Sm4
  import opened Sm4Modes
  import opened Sm4Runs

  // ---------- the counter ----------

  /** The counter block n further on, as a 128-bit number. */
  function Add(ctr: Block, n: nat): Block {
    ToBe((FromBe(ctr) + n) % TWO128, 16)
  }

  /** Increment the last byte, and while a byte becomes zero, the one before it. */
  function Inc(s: seq<bv8>): (r: seq<bv8>)
    ensures |r| == |s|
  {
    if s == [] then []
    else
      var n := |s| - 1;
      if s[n] + 1 != 0 then s[..n] + [s[n] + 1] else Inc(s[..n]) + [0]
  }

  /** The byte-wise carry is an increment of the number. */
  lemma {:induction false} IncIsNext(s: seq<bv8>)
    ensures FromBe(Inc(s)) == if FromBe(s) + 1 == Pow256(|s|) then 0 else FromBe(s) + 1
  {
    hide FromBe, Value;
    ZeroAndOne();
    if s == [] {
      FromBeNil();
    } else {
      var n := |s| - 1;
      var p := s[..n];
      NextByte(s[n]);
      FromBeBound(p);
      IncIsNext(p);
      assert s == p + [s[n]];
      FromBeSnoc(p, s[n]);
      if s[n] + 1 != 0 {
        FromBeSnoc(p, s[n] + 1);
      } else {
        FromBeSnoc(Inc(p), 0);
      }
    }
  }

  lemma IncIsAdd(ctr: Block)
    ensures Inc(ctr) == Add(ctr, 1)
  {
    hide FromBe, ToBe, Inc;
    Pow256Of16();
    FromBeBound(ctr);
    IncIsNext(ctr);
    ToBeFromBe(Inc(ctr));
  }

  lemma AddAdd(ctr: Block, m: nat, n: nat)
    ensures Add(Add(ctr, m), n) == Add(ctr, m + n)
  {
    hide FromBe, ToBe;
    Pow256Of16();
    var c := FromBe(ctr);
    FromBeToBe((c + m) % TWO128, 16);
    ModAdd(c + m, n);
  }

  lemma ModAdd(a: nat, n: nat)
    ensures (a % TWO128 + n) % TWO128 == (a + n) % TWO128
  {
    assert a + n == a / TWO128 * TWO128 + (a % TWO128 + n);
  }

  lemma AddNone(ctr: Block)
    ensures Add(ctr, 0) == ctr
  {
    hide FromBe, ToBe;
    Pow256Of16();
    FromBeBound(ctr);
    ToBeFromBe(ctr);
  }

  lemma IncStep(s: seq<bv8>, i: nat)
    requires i < |s|
    ensures s[i] + 1 != 0 ==> Inc(s[..i + 1]) == s[..i] + [s[i] + 1]
    ensures s[i] + 1 == 0 ==> Inc(s[..i + 1]) == Inc(s[..i]) + [0]
  {
    assert s[..i + 1][..i] == s[..i];
  }

  /** The counter with its last n bytes gone to zero. */
  function Cleared(ctr: Block, n: nat): Block
    requires n <= 16
  {
    ctr[..16 - n] + Zeros(n)
  }

  /** What is still to be done: an increment of the bytes before the last n. */
  function Pending(ctr: Block, n: nat): Block
    requires n <= 16
  {
    Inc(ctr[..16 - n]) + Zeros(n)
  }

  lemma CarryStep(ctr: Block, n: nat)
    requires n < 16
    ensures var c, i := Cleared(ctr, n), 15 - n;
            && c[i] == ctr[i]
            && (c[i] + 1 != 0 ==> c[i := c[i] + 1] == Pending(ctr, n))
            && (c[i] + 1 == 0 ==> c[i := 0] == Cleared(ctr, n + 1) && Pending(ctr, n) == Pending(ctr, n + 1))
  {
    hide Inc;
    var i := 15 - n;
    IncStep(ctr, i);
    assert [0] + Zeros(n) == Zeros(n + 1);
    assert Inc(ctr[..i]) + [0] + Zeros(n) == Inc(ctr[..i]) + Zeros(n + 1);
  }

  lemma CarryEnds(ctr: Block)
    ensures Cleared(ctr, 0) == ctr && Pending(ctr, 0) == Inc(ctr) && Cleared(ctr, 16) == Pending(ctr, 16)
  {
    assert ctr[..16] == ctr && ctr[..0] == [];
    assert Inc(ctr) + Zeros(0) == Inc(ctr);
  }

  /** The inner loop of sm4_crypt_ctr() */
  method IncCounter(ctr: Block) returns (c: Block)
    ensures c == Add(ctr, 1)
  {
    hide Add, Inc, Cleared, Pending;
    IncIsAdd(ctr);
    CarryEnds(ctr);
    c := ctr;
    for i := 16 downto 0
      invariant c == Cleared(ctr, 16 - i) && Pending(ctr, 16 - i) == Inc(ctr)
    {
      CarryStep(ctr, 15 - i);
      c := c[i := c[i] + 1];
      if c[i] != 0 {
        return;
      }
    }
  }

  // ---------- the mode ----------

  function Ctr(f: Block -> Block, ctr: Block, s: seq<bv8>): (r: seq<bv8>)
    requires |s| % 16 == 0
    ensures |r| == |s|
    decreases |s|
  {
    hide Add, Xor;
    if s == [] then [] else MoreBlocks(|s|, 16); Xor(s[..16], f(ctr)) + Ctr(f, Add(ctr, 1), s[16..])
  }

  lemma {:induction false} CtrAppend(f: Block -> Block, ctr: Block, a: seq<bv8>, b: seq<bv8>, j: nat)
    requires |a| == 16 * j && |b| % 16 == 0
    ensures Ctr(f, ctr, a + b) == Ctr(f, ctr, a) + Ctr(f, Add(ctr, j), b)
    decreases j
  {
    hide Add, Xor;
    if j == 0 {
      assert a + b == b;
      AddNone(ctr);
    } else {
      assert (a + b)[..16] == a[..16] && (a + b)[16..] == a[16..] + b;
      CtrAppend(f, Add(ctr, 1), a[16..], b, j - 1);
      AddAdd(ctr, 1, j - 1);
    }
  }

  lemma CtrBlock(f: Block -> Block, ctr: Block, b: Block)
    ensures Ctr(f, ctr, b) == Xor(b, f(ctr))
  {
    hide Add, Xor;
    assert b[..16] == b && b[16..] == [];
    assert Ctr(f, ctr, b) == Xor(b, f(ctr)) + [];
  }

  /** The mode is its own inverse, over any block function at all. */
  lemma {:induction false} CtrTwice(f: Block -> Block, ctr: Block, s: seq<bv8>)
    requires |s| % 16 == 0
    ensures Ctr(f, ctr, Ctr(f, ctr, s)) == s
    decreases |s|
  {
    hide Add, Xor;
    if s != [] {
      var r := Ctr(f, ctr, s);
      assert r[..16] == Xor(s[..16], f(ctr)) && r[16..] == Ctr(f, Add(ctr, 1), s[16..]);
      XorCancels(s[..16], f(ctr));
      CtrTwice(f, Add(ctr, 1), s[16..]);
    }
  }

  /** Every byte: the key stream block j is the encryption of the counter j further on. */
  lemma {:induction false} CtrBytes(f: Block -> Block, ctr: Block, s: seq<bv8>, j: nat, i: nat)
    requires |s| % 16 == 0 && 16 * j + 16 <= |s| && i < 16
    ensures Ctr(f, ctr, s)[16 * j + i] == s[16 * j + i] ^ f(Add(ctr, j))[i]
    decreases j
  {
    hide Add;
    if j == 0 {
      AddNone(ctr);
    } else {
      MoreBlocks(|s|, 16);
      CtrBytes(f, Add(ctr, 1), s[16..], j - 1, i);
      AddAdd(ctr, 1, j - 1);
      assert Ctr(f, ctr, s)[16 * j + i] == Ctr(f, Add(ctr, 1), s[16..])[16 * (j - 1) + i];
    }
  }

  // ---------- the code ----------

  /** sm4_crypt_ctr() */
  method CryptCtr(ctx: Context, ctr: Block, input: seq<bv8>, output: array<bv8>) returns (ctr': Block)
    requires ctx.Valid() && |input| % 16 == 0 && output.Length == |input|
    modifies output
    ensures output[..] == Ctr(Cipher(ctx.sbox, ctx.sk[..]), ctr, input) && ctr' == Add(ctr, |input| / 16)
  {
    hide CryptBlock, Add, Ctr;
    ghost var f := Cipher(ctx.sbox, ctx.sk[..]);
    ctr' := ctr;
    AddNone(ctr);
    CtrNil(f, ctr);
    var off := 0;
    ghost var m := 0;
    assert output[..0] == [] == input[..0];
    while off < |input|
      invariant off == 16 * m <= |input|
      invariant output[..off] == Ctr(f, ctr, input[..off]) && ctr' == Add(ctr, m)
    {
      var block: Block := input[off..off + 16];
      assert input[..off] + block == input[..off + 16];
      CtrAppend(f, ctr, input[..off], block, m);
      CtrBlock(f, ctr', block);
      AddAdd(ctr, m, 1);
      var key := ctx.OneRound(ctr');
      Write(output, off, Xor(block, key));
      ctr' := IncCounter(ctr');
      off := off + 16;
      m := m + 1;
    }
    assert output[..off] == output[..] && input[..off] == input;
  }

  lemma CtrNil(f: Block -> Block, ctr: Block)
    ensures Ctr(f, ctr, []) == []
  {
  }

  /** Several calls in a row, each handing its counter to the next. */
  method CtrCalls(ctx: Context, ctr: Block, pieces: seq<seq<bv8>>) returns (out: seq<bv8>)
    requires ctx.Valid() && Whole(pieces)
    ensures |Concat(pieces)| % 16 == 0 && out == Ctr(Cipher(ctx.sbox, ctx.sk[..]), ctr, Concat(pieces))
  {
    hide Cipher, Add, Ctr;
    JoinWhole(pieces);
    ghost var f := Cipher(ctx.sbox, ctx.sk[..]);
    var c := ctr;
    ghost var m := 0;
    out := [];
    AddNone(ctr);
    CtrNil(f, ctr);
    assert pieces[..0] == [];
    for k := 0 to |pieces|
      invariant |Concat(pieces[..k])| == 16 * m && ctx.sk[..] == old(ctx.sk[..])
      invariant out == Ctr(f, ctr, Concat(pieces[..k])) && c == Add(ctr, m)
    {
      assert |pieces[k]| % 16 == 0;
      assert pieces[..k + 1][..k] == pieces[..k];
      var buf := new bv8[|pieces[k]|];
      CtrAppend(f, ctr, Concat(pieces[..k]), pieces[k], m);
      ghost var n := |pieces[k]| / 16;
      assert |pieces[k]| == 16 * n;
      AddAdd(ctr, m, n);
      c := CryptCtr(ctx, c, pieces[k], buf);
      out := out + buf[..];
      m := m + n;
    }
    assert pieces[..|pieces|] == pieces;
  }

  /** Encryption and decryption under one encryption context, each cut at block boundaries of its own. */
  method CtrRoundTripRun(sbox: bv8 -> bv8, key: Block, ctr: Block, pieces: seq<seq<bv8>>, cipherPieces: seq<seq<bv8>>)
      returns (cipher: seq<bv8>, plain: seq<bv8>)
    requires Whole(pieces) && Whole(cipherPieces)
    ensures |Concat(pieces)| % 16 == 0 && cipher == Ctr(EncBlock(sbox, key), ctr, Concat(pieces))
    ensures Concat(cipherPieces) == cipher ==> plain == Concat(pieces)
  {
    hide Schedule, CK, Cipher, Backwards, Ctr;
    var enc, dec := KeyPair(sbox, key);
    cipher := CtrCalls(enc, ctr, pieces);
    plain := CtrCalls(enc, ctr, cipherPieces);
    CtrTwice(EncBlock(sbox, key), ctr, Concat(pieces));
  }
}
