/** Whole uses of the SM4 modes: keys set, data cut into calls, decryption after encryption. */
module Sm4Runs {
  import opened Bytes
  import opened Sm4
  import opened BlockModes
  import opened Sm4Modes
  import Xts

  /** A context for encryption and one for decryption under the same key. */
  method KeyPair(sbox: bv8 -> bv8, key: Block) returns (enc: Context, dec: Context)
    ensures enc.Valid() && dec.Valid() && enc.mode == Encrypt && dec.mode == Decrypt && enc.sbox == dec.sbox == sbox
    ensures fresh(enc) && fresh(dec) && enc.sk[..] == Schedule(sbox, key, CK) && dec.sk[..] == Backwards(Schedule(sbox, key, CK))
  {
    hide Schedule, CK;
    enc := new Context(sbox);
    dec := new Context(sbox);
    enc.SetKeyEnc(key);
    dec.SetKeyDec(key);
  }

  function EncBlock(sbox: bv8 -> bv8, key: Block): Block -> Block {
    Cipher(sbox, Schedule(sbox, key, CK))
  }

  function DecBlock(sbox: bv8 -> bv8, key: Block): Block -> Block {
    Cipher(sbox, Backwards(Schedule(sbox, key, CK)))
  }

  lemma KeyUndoes(sbox: bv8 -> bv8, key: Block)
    ensures Undoes(DecBlock(sbox, key), EncBlock(sbox, key)) && Undoes(EncBlock(sbox, key), DecBlock(sbox, key))
  {
    hide Schedule, CK, Cipher, Backwards;
    CipherUndoes(sbox, Schedule(sbox, key, CK));
  }

  /** One XTS call on fresh contexts. */
  method XtsCall(sbox: bv8 -> bv8, mode: Mode, key1: Block, key2: Block, iv: Block, input: seq<bv8>)
      returns (output: seq<bv8>, iv': Block)
    requires |input| >= 16
    ensures var t := EncBlock(sbox, key2)(iv);
            && output == (if mode == Encrypt then Xts.Encrypt(EncBlock(sbox, key1), t, input)
                          else Xts.Decrypt(DecBlock(sbox, key1), t, input))
            && iv' == if |input| % 16 == 0 then DecBlock(sbox, key2)(Xts.Tweak(t, |input| / 16)) else iv
  {
    hide Schedule, CK, Cipher, Backwards, Xts.Encrypt, Xts.Decrypt, Xts.Tweak;
    var enc, dec := KeyPair(sbox, key1);
    var ek, dk := KeyPair(sbox, key2);
    var out := new bv8[|input|];
    if mode == Encrypt {
      iv' := CryptXts(enc, ek, dk, iv, input, out);
    } else {
      iv' := CryptXts(dec, ek, dk, iv, input, out);
    }
    output := out[..];
  }

  /** XTS decryption undoes encryption for every key pair, IV and length of at least 16 bytes. */
  method XtsRoundTrip(sbox: bv8 -> bv8, key1: Block, key2: Block, iv: Block, p: seq<bv8>) returns (p': seq<bv8>)
    requires |p| >= 16
    ensures p' == p
  {
    hide Xts.Encrypt, Xts.Decrypt, EncBlock, DecBlock;
    var c, iv' := XtsCall(sbox, Encrypt, key1, key2, iv, p);
    p', iv' := XtsCall(sbox, Decrypt, key1, key2, iv, c);
    KeyUndoes(sbox, key1);
    Xts.RoundTrip(EncBlock(sbox, key1), DecBlock(sbox, key1), EncBlock(sbox, key2)(iv), p);
  }

  /** A call on whole blocks a followed by a call on b, with the IV that the first one saved, writes
      what one call on a + b writes, in either direction. */
  method XtsResume(sbox: bv8 -> bv8, mode: Mode, key1: Block, key2: Block, iv: Block, a: seq<bv8>, b: seq<bv8>)
      returns (pieces: seq<bv8>, whole: seq<bv8>, ivPieces: Block, ivWhole: Block)
    requires |a| > 0 && |a| % 16 == 0 && |b| >= 16
    ensures pieces == whole
    ensures |b| % 16 == 0 ==> ivPieces == ivWhole
  {
    hide Xts.Encrypt, Xts.Decrypt, Xts.Blocks, Xts.Tweak, EncBlock, DecBlock;
    var f := if mode == Encrypt then EncBlock(sbox, key1) else DecBlock(sbox, key1);
    ghost var t, j := EncBlock(sbox, key2)(iv), |a| / 16;
    var first, iv' := XtsCall(sbox, mode, key1, key2, iv, a);
    WholeUnit(f, t, a, j);
    KeyUndoes(sbox, key2);
    assert EncBlock(sbox, key2)(iv') == Xts.Tweak(t, j);
    var second;
    second, ivPieces := XtsCall(sbox, mode, key1, key2, iv', b);
    pieces := first + second;
    whole, ivWhole := XtsCall(sbox, mode, key1, key2, iv, a + b);
    Xts.EncryptAppend(f, t, a, b, j);
    Xts.DecryptAppend(f, t, a, b, j);
    if |b| % 16 == 0 {
      Xts.TweakSum(t, j, |b| / 16);
      assert |a + b| / 16 == j + |b| / 16;
    }
  }

  // ---------- CBC ----------

  ghost predicate Whole(pieces: seq<seq<bv8>>) {
    forall i | 0 <= i < |pieces| :: |pieces[i]| % 16 == 0
  }

  lemma {:induction false} JoinWhole(pieces: seq<seq<bv8>>)
    requires Whole(pieces)
    ensures |Concat(pieces)| % 16 == 0
  {
    if pieces != [] {
      var last := pieces[|pieces| - 1];
      JoinWhole(pieces[..|pieces| - 1]);
      MoreBlocks(|Concat(pieces[..|pieces| - 1])|, |last|);
    }
  }

  /** Several CBC calls in a row, each handing its IV to the next. */
  method CbcCalls(ctx: Context, iv: Block, pieces: seq<seq<bv8>>) returns (out: seq<bv8>)
    requires ctx.Valid() && Whole(pieces)
    ensures |Concat(pieces)| % 16 == 0
    ensures out == if ctx.mode == Encrypt then CbcEnc(Cipher(ctx.sbox, ctx.sk[..]), iv, Concat(pieces))
                   else CbcDec(Cipher(ctx.sbox, ctx.sk[..]), iv, Concat(pieces))
  {
    hide Cipher;
    JoinWhole(pieces);
    ghost var f := Cipher(ctx.sbox, ctx.sk[..]);
    var chain := iv;
    out := [];
    assert pieces[..0] == [];
    for k := 0 to |pieces|
      invariant |Concat(pieces[..k])| % 16 == 0 && |out| % 16 == 0 && ctx.sk[..] == old(ctx.sk[..])
      invariant if ctx.mode == Encrypt then out == CbcEnc(f, iv, Concat(pieces[..k])) && chain == Chain(iv, out)
                else out == CbcDec(f, iv, Concat(pieces[..k])) && chain == Chain(iv, Concat(pieces[..k]))
    {
      assert |pieces[k]| % 16 == 0;
      assert pieces[..k + 1][..k] == pieces[..k];
      var buf := new bv8[|pieces[k]|];
      CbcEncAppend(f, iv, Concat(pieces[..k]), pieces[k]);
      CbcDecAppend(f, iv, Concat(pieces[..k]), pieces[k]);
      ChainTwice(iv, if ctx.mode == Encrypt then out else Concat(pieces[..k]),
                 if ctx.mode == Encrypt then CbcEnc(f, chain, pieces[k]) else pieces[k]);
      chain := CryptCbc(ctx, chain, pieces[k], buf);
      out := out + buf[..];
    }
    assert pieces[..|pieces|] == pieces;
  }

  lemma ChainTwice(iv: Block, a: seq<bv8>, b: seq<bv8>)
    requires |a| % 16 == 0 && |b| % 16 == 0
    ensures |a + b| % 16 == 0 && Chain(Chain(iv, a), b) == Chain(iv, a + b)
  {
    if b == [] {
      assert a + b == a;
    }
  }

  /** CBC decryption undoes encryption, with independent splits at block boundaries on each side. */
  method CbcRoundTripRun(sbox: bv8 -> bv8, key: Block, iv: Block, pieces: seq<seq<bv8>>, cipherPieces: seq<seq<bv8>>)
      returns (cipher: seq<bv8>, plain: seq<bv8>)
    requires Whole(pieces) && Whole(cipherPieces)
    ensures |Concat(pieces)| % 16 == 0 && cipher == CbcEnc(EncBlock(sbox, key), iv, Concat(pieces))
    ensures Concat(cipherPieces) == cipher ==> plain == Concat(pieces)
  {
    hide Schedule, CK, Cipher, Backwards, CbcEnc, CbcDec;
    var enc, dec := KeyPair(sbox, key);
    cipher := CbcCalls(enc, iv, pieces);
    plain := CbcCalls(dec, iv, cipherPieces);
    KeyUndoes(sbox, key);
    CbcRoundTrip(EncBlock(sbox, key), DecBlock(sbox, key), iv, Concat(pieces));
  }
}
