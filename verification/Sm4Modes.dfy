/** The CBC and XTS modes of core/crypto/sm4.c, writing into the caller's output buffer. */
module Sm4Modes {
  import opened Bytes
  import opened Sm4
  import opened BlockModes
  import Xts

  /** The block function of a context. */
  function Cipher(sbox: bv8 -> bv8, sk: seq<bv32>): Block -> Block {
    b => CryptBlock(sbox, sk, b)
  }

  /** Encryption and decryption contexts of one key undo each other. */
  lemma CipherUndoes(sbox: bv8 -> bv8, sk: seq<bv32>)
    ensures Undoes(Cipher(sbox, Backwards(sk)), Cipher(sbox, sk))
    ensures Undoes(Cipher(sbox, sk), Cipher(sbox, Backwards(sk)))
  {
    hide CryptBlock, Backwards;
    BackwardsTwice(sk);
    forall b: Block
      ensures Cipher(sbox, Backwards(sk))(Cipher(sbox, sk)(b)) == b
      ensures Cipher(sbox, sk)(Cipher(sbox, Backwards(sk))(b)) == b
    {
      BlockInverse(sbox, sk, b);
      BlockInverse(sbox, Backwards(sk), b);
    }
  }

  /** The encrypting loop of sm4_crypt_cbc() */
  method CbcEncrypt(ctx: Context, iv: Block, input: seq<bv8>, output: array<bv8>) returns (iv': Block)
    requires ctx.Valid() && |input| % 16 == 0 && output.Length == |input|
    modifies output
    ensures output[..] == CbcEnc(Cipher(ctx.sbox, ctx.sk[..]), iv, input) && iv' == Chain(iv, output[..])
  {
    hide CryptBlock, CbcEnc, Xor, Chain;
    iv' := iv;
    ghost var f := Cipher(ctx.sbox, ctx.sk[..]);
    var off := 0;
    ghost var m := 0;
    CbcNothing(f, iv);
    assert input[..0] == [] == output[..0];
    while off < |input|
      invariant off == 16 * m <= |input|
      invariant output[..off] == CbcEnc(f, iv, input[..off]) && iv' == Chain(iv, output[..off])
    {
      var block: Block := input[off..off + 16];
      assert input[..off] + block == input[..off + 16];
      var out := ctx.OneRound(Xor(block, iv'));
      CbcEncAppend(f, iv, input[..off], block);
      CbcEncBlock(f, iv', block);
      ChainEnd(iv, output[..off], out);
      Write(output, off, out);
      iv' := out;
      off := off + 16;
      m := m + 1;
    }
    assert output[..off] == output[..] && input[..off] == input;
  }

  /** The decrypting loop */
  method CbcDecrypt(ctx: Context, iv: Block, input: seq<bv8>, output: array<bv8>) returns (iv': Block)
    requires ctx.Valid() && |input| % 16 == 0 && output.Length == |input|
    modifies output
    ensures output[..] == CbcDec(Cipher(ctx.sbox, ctx.sk[..]), iv, input) && iv' == Chain(iv, input)
  {
    hide CryptBlock, CbcDec, Xor, Chain;
    iv' := iv;
    ghost var f := Cipher(ctx.sbox, ctx.sk[..]);
    var off := 0;
    ghost var m := 0;
    CbcNothing(f, iv);
    assert input[..0] == [] == output[..0];
    while off < |input|
      invariant off == 16 * m <= |input|
      invariant output[..off] == CbcDec(f, iv, input[..off]) && iv' == Chain(iv, input[..off])
    {
      var block: Block := input[off..off + 16];
      assert input[..off] + block == input[..off + 16];
      var out := ctx.OneRound(block);
      CbcDecAppend(f, iv, input[..off], block);
      CbcDecBlock(f, iv', block);
      ChainEnd(iv, input[..off], block);
      Write(output, off, Xor(out, iv'));
      iv' := block;
      off := off + 16;
      m := m + 1;
    }
    assert output[..off] == output[..] && input[..off] == input;
  }

  lemma ChainEnd(iv: Block, a: seq<bv8>, b: Block)
    requires |a| % 16 == 0
    ensures |a + b| % 16 == 0 && Chain(iv, a + b) == b
  {
    MoreBlocks(|a|, 16);
  }

  lemma CbcNothing(f: Block -> Block, iv: Block)
    ensures CbcEnc(f, iv, []) == [] == CbcDec(f, iv, []) && Chain(iv, []) == iv
  {
  }

  /** sm4_crypt_cbc() */
  method CryptCbc(ctx: Context, iv: Block, input: seq<bv8>, output: array<bv8>) returns (iv': Block)
    requires ctx.Valid() && |input| % 16 == 0 && output.Length == |input|
    modifies output
    ensures var f := Cipher(ctx.sbox, ctx.sk[..]);
            if ctx.mode == Encrypt
            then output[..] == CbcEnc(f, iv, input) && iv' == Chain(iv, output[..])
            else output[..] == CbcDec(f, iv, input) && iv' == Chain(iv, input)
  {
    hide CryptBlock, CbcEnc, CbcDec;
    if ctx.mode == Encrypt {
      iv' := CbcEncrypt(ctx, iv, input, output);
    } else {
      iv' := CbcDecrypt(ctx, iv, input, output);
    }
  }

  lemma FoldByte(x: bv8, last: bv8)
    ensures Xts.ShiftIn(x, 0) ^ (0x87 & (0 - Xts.TopBit(last))) == Xts.FirstByte(x, last)
  {
    assert last >> 7 == 0 || last >> 7 == 1;
  }

  lemma MulParts(t: Block, r: seq<bv8>)
    requires |r| == 16 && r[0] == Xts.FirstByte(t[0], t[15])
    requires forall j | 0 < j < 16 :: r[j] == Xts.Shifted(t[j], t[j - 1])
    ensures r == Xts.Mul(t)
  {
    hide Xts.FirstByte, Xts.Shifted, Xts.Mul;
    forall i | 0 <= i < 16
      ensures r[i] == Xts.Mul(t)[i]
    {
      Xts.MulByte(t, i);
    }
  }

  /** xts_multi(): one pass with a carry. */
  method XtsMulti(t: Block) returns (out: Block)
    ensures out == Xts.Mul(t)
  {
    hide Xts.ShiftIn, Xts.TopBit, Xts.FirstByte, Xts.Mul;
    var tt: bv8, carry: bv8 := 0, 0;
    var r: seq<bv8> := [];
    for i := 0 to 16
      invariant |r| == i && (if i == 0 then carry == 0 else carry == tt == Xts.TopBit(t[i - 1]))
      invariant 0 < i ==> r[0] == Xts.ShiftIn(t[0], 0)
      invariant forall j | 0 < j < i :: r[j] == Xts.Shifted(t[j], t[j - 1])
    {
      tt := Xts.TopBit(t[i]);
      r := r + [Xts.ShiftIn(t[i], carry)];
      carry := tt;
    }
    FoldByte(t[0], t[15]);
    out := r[0 := r[0] ^ (0x87 & (0 - tt))];
    MulParts(t, out);
  }

  lemma XexParts(f: Block -> Block, t: Block, b: Block)
    ensures Xts.Xex(f, t, b) == Xor(f(Xor(b, t)), t)
  {
  }

  /** One block under its tweak. */
  method XexBlock(ctx: Context, tweak: Block, b: Block) returns (r: Block)
    requires ctx.Valid()
    ensures r == Xts.Xex(Cipher(ctx.sbox, ctx.sk[..]), tweak, b)
    ensures forall i | 0 <= i < 16 :: r[i] == CryptBlock(ctx.sbox, ctx.sk[..], Under(b, 0, tweak))[i] ^ tweak[i]
  {
    hide CryptBlock, Xts.Xex, Under;
    Xts.XexBytes(Cipher(ctx.sbox, ctx.sk[..]), tweak, b, 0);
    assert b[0..16] == b;
    XexParts(Cipher(ctx.sbox, ctx.sk[..]), tweak, b);
    var ct := Xor(b, tweak);
    ct := ctx.OneRound(ct);
    r := Xor(ct, tweak);
  }

  /** Block m of input, under tweak m, extends the output by one block. */
  lemma OneMore(f: Block -> Block, t: Block, input: seq<bv8>, m: nat)
    requires 16 * m + 16 <= |input|
    ensures Xts.Blocks(f, t, input[..16 * m + 16])
            == Xts.Blocks(f, t, input[..16 * m]) + Xts.Xex(f, Xts.Tweak(t, m), input[16 * m..16 * m + 16])
    ensures Xts.Mul(Xts.Tweak(t, m)) == Xts.Tweak(t, m + 1)
  {
    hide Xts.Blocks, Xts.Xex, Xts.Mul, Xts.Tweak;
    var b: Block := input[16 * m..16 * m + 16];
    assert input[..16 * m] + b == input[..16 * m + 16];
    Xts.BlocksAppend(f, t, input[..16 * m], b, m);
    Xts.BlocksOne(f, Xts.Tweak(t, m), b);
    Xts.TweakNext(t, m);
  }

  lemma Parts(s: seq<bv8>, n: nat, a: seq<bv8>, b: seq<bv8>)
    requires n <= |s| && s[..n] == a && s[n..] == b
    ensures s == a + b
  {
  }

  lemma StealEncIs(f: Block -> Block, t: Block, s: seq<bv8>, off: nat)
    requires off + 16 < |s| < off + 32
    ensures var n := |s| - off - 16;
            var cc := Xts.Xex(f, t, s[off..off + 16]);
            Xts.StealEnc(f, t, s[off..]) == Xts.Xex(f, Xts.Mul(t), s[off + 16..] + cc[n..]) + cc[..n]
  {
    hide Xts.Xex, Xts.Mul;
    assert s[off..][..16] == s[off..off + 16] && s[off..][16..] == s[off + 16..];
  }

  lemma StealDecIs(f: Block -> Block, t: Block, s: seq<bv8>, off: nat)
    requires off + 16 < |s| < off + 32
    ensures var n := |s| - off - 16;
            var pp := Xts.Xex(f, Xts.Mul(t), s[off..off + 16]);
            Xts.StealDec(f, t, s[off..]) == Xts.Xex(f, t, s[off + 16..] + pp[n..]) + pp[..n]
  {
    hide Xts.Xex, Xts.Mul;
    assert s[off..][..16] == s[off..off + 16] && s[off..][16..] == s[off + 16..];
  }

  /** The tail of an encryption: the block before off gives up its first bytes. */
  method StealTailEnc(ctx: Context, tweak: Block, input: seq<bv8>, output: array<bv8>, off: nat, ghost t: Block, ghost m: nat)
    requires ctx.Valid() && output.Length == |input| && off == 16 * m + 16 < |input| < off + 16
    requires var f := Cipher(ctx.sbox, ctx.sk[..]);
             tweak == Xts.Tweak(t, m + 1) && output[..off] == Xts.Blocks(f, t, input[..off])
    modifies output
    ensures output[..] == Xts.Encrypt(Cipher(ctx.sbox, ctx.sk[..]), t, input)
  {
    hide CryptBlock, Xts.Blocks, Xts.Xex, Xts.Mul, Xts.Tweak, Xts.Encrypt, Xts.StealEnc;
    ghost var f := Cipher(ctx.sbox, ctx.sk[..]);
    OneMore(f, t, input, m);
    Xts.EncryptPartial(f, t, input, m);
    var len := |input| - off;
    var ct: Block := output[off - 16..off];
    ghost var cc := ct;
    assert output[..off - 16] == output[..off][..off - 16] && cc == output[..off][off - 16..];
    Write(output, off, ct[..len]);
    assert output[..off - 16] == output[..off][..off - 16];
    ct := input[off..] + ct[len..];
    ct := XexBlock(ctx, tweak, ct);
    Write(output, off - 16, ct);
    assert output[..off] == output[..off - 16 + |ct|];
    StealEncIs(f, Xts.Tweak(t, m), input, 16 * m);
    Xts.TweakNext(t, m);
    Parts(output[..], off, Xts.Blocks(f, t, input[..16 * m]) + ct, cc[..len]);
    Xts.Assoc(Xts.Blocks(f, t, input[..16 * m]), ct, cc[..len]);
  }

  /** The tail of a decryption: the last whole block is decrypted under the later tweak first. */
  method StealTailDec(ctx: Context, tweak: Block, input: seq<bv8>, output: array<bv8>, off: nat, ghost t: Block, ghost m: nat)
    requires ctx.Valid() && output.Length == |input| && off == 16 * m && off + 16 < |input| < off + 32
    requires var f := Cipher(ctx.sbox, ctx.sk[..]);
             tweak == Xts.Tweak(t, m) && output[..off] == Xts.Blocks(f, t, input[..off])
    modifies output
    ensures output[..] == Xts.Decrypt(Cipher(ctx.sbox, ctx.sk[..]), t, input)
  {
    hide CryptBlock, Xts.Blocks, Xts.Xex, Xts.Mul, Xts.Tweak, Xts.Decrypt, Xts.StealDec;
    ghost var f := Cipher(ctx.sbox, ctx.sk[..]);
    Xts.DecryptPartial(f, t, input, m);
    var len := |input| - off - 16;
    var tweak1 := XtsMulti(tweak);
    var ct := XexBlock(ctx, tweak1, input[off..off + 16]);
    ghost var pp := ct;
    Write(output, off + 16, ct[..len]);
    ct := input[off + 16..] + ct[len..];
    ct := XexBlock(ctx, tweak, ct);
    assert output[..off] == output[..off + 16][..off];
    Write(output, off, ct);
    assert output[..off + 16] == output[..off + |ct|];
    StealDecIs(f, tweak, input, off);
    Parts(output[..], off + 16, Xts.Blocks(f, t, input[..off]) + ct, pp[..len]);
    Xts.Assoc(Xts.Blocks(f, t, input[..off]), ct, pp[..len]);
  }

  /** The loop of sm4_crypt_xts() over the first `total` bytes, up to less than a block. */
  method XtsLoop(ctx: Context, t: Block, input: seq<bv8>, output: array<bv8>, total: nat)
      returns (tweak: Block, off: nat, len: nat, ghost m: nat)
    requires ctx.Valid() && total <= |input| == output.Length
    modifies output
    ensures off == 16 * m && off + len == total && len < 16
    ensures tweak == Xts.Tweak(t, m) && output[..off] == Xts.Blocks(Cipher(ctx.sbox, ctx.sk[..]), t, input[..off])
  {
    hide CryptBlock, Xts.Blocks, Xts.Xex, Xts.Mul, Xts.Tweak;
    ghost var f := Cipher(ctx.sbox, ctx.sk[..]);
    tweak, off, len, m := t, 0, total, 0;
    XtsStart(f, t, input);
    assert output[..0] == [] == input[..0];
    while len >= 16
      invariant off == 16 * m && off + len == total
      invariant tweak == Xts.Tweak(t, m) && output[..off] == Xts.Blocks(f, t, input[..off])
    {
      OneMore(f, t, input, m);
      var out := XexBlock(ctx, tweak, input[off..off + 16]);
      Write(output, off, out);
      tweak := XtsMulti(tweak);
      m := m + 1;
      len := len - 16;
      off := off + 16;
    }
  }

  /** sm4_crypt_xts() */
  method CryptXts(ctx: Context, ek: Context, dk: Context, iv: Block, input: seq<bv8>, output: array<bv8>) returns (iv': Block)
    requires ctx.Valid() && ek.Valid() && dk.Valid() && |input| >= 16 && output.Length == |input|
    modifies output
    ensures var f := Cipher(ctx.sbox, ctx.sk[..]);
            var t := Cipher(ek.sbox, ek.sk[..])(iv);
            && output[..] == (if ctx.mode == Encrypt then Xts.Encrypt(f, t, input) else Xts.Decrypt(f, t, input))
            && iv' == if |input| % 16 == 0 then Cipher(dk.sbox, dk.sk[..])(Xts.Tweak(t, |input| / 16)) else iv
  {
    hide CryptBlock, Xts.Blocks, Xts.Xex, Xts.Mul, Xts.Tweak, Xts.Encrypt, Xts.Decrypt;
    iv' := iv;
    ghost var f := Cipher(ctx.sbox, ctx.sk[..]);
    var t := ek.OneRound(iv);
    var total := |input|;
    if ctx.mode == Decrypt && |input| % 16 != 0 {
      total := total - 16;
    }
    var tweak, off, len;
    ghost var m;
    tweak, off, len, m := XtsLoop(ctx, t, input, output, total);
    Remainder(|input|, total, m, len);
    if len == 0 {
      assert input[..off] == input && output[..off] == output[..];
      WholeUnit(f, t, input, m);
      iv' := dk.OneRound(tweak);
    } else if ctx.mode == Encrypt {
      StealTailEnc(ctx, tweak, input, output, off, t, m - 1);
    } else {
      StealTailDec(ctx, tweak, input, output, off, t, m);
    }
  }

  /** What is left of n bytes, the last 16 of which may be held back. */
  lemma Remainder(n: nat, total: nat, m: nat, len: nat)
    requires n >= 16 && total == 16 * m + len && len < 16
    requires total == n || (total == n - 16 && n % 16 != 0)
    ensures len == 0 <==> n % 16 == 0
    ensures len == 0 ==> total == n && m >= 1
    ensures total == n ==> m >= 1
  {
  }

  lemma WholeUnit(f: Block -> Block, t: Block, s: seq<bv8>, m: nat)
    requires |s| == 16 * m && m > 0
    ensures |s| % 16 == 0 && |s| / 16 == m
    ensures Xts.Encrypt(f, t, s) == Xts.Blocks(f, t, s) == Xts.Decrypt(f, t, s)
  {
    hide Xts.Blocks;
  }

  lemma XtsStart(f: Block -> Block, t: Block, input: seq<bv8>)
    ensures Xts.Blocks(f, t, []) == [] && Xts.Tweak(t, 0) == t
  {
  }
}
