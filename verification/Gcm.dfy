/** The streaming AES-GCM state of core/crypto/aes-gcm.c and aes-gcm-sw.c.

    crypto_aes_enc_block() under the expanded key is an arbitrary function on blocks. */
module Gcm {
  import opened Arithmetic
  import opened Bytes
  import opened BigEndian
  import opened GfWords
  import opened GfTables
  import opened GcmSpec
  import opened GcmCode

  datatype Option<+T> = None | Some(value: T)

  function Splice(buf: Block, pos: nat, piece: seq<bv8>): Block
    requires pos + |piece| <= 16
  {
    buf[..pos] + piece + buf[pos + |piece|..]
  }

  lemma SpliceParts(buf: Block, pos: nat, piece: seq<bv8>)
    requires pos + |piece| <= 16
    ensures Splice(buf, pos, piece)[..pos + |piece|] == buf[..pos] + piece
    ensures Splice(buf, pos, piece)[pos + |piece|..] == buf[pos + |piece|..]
    ensures pos + |piece| == 16 ==> Splice(buf, pos, piece) == buf[..pos] + piece
  {
  }

  class State {
    /** CFG_AES_GCM_TABLE_BASED */
    const tableBased: bool
    var e: Block -> Block
    var key: GhashKey?
    var hashSubkey: Block
    var ctr0: nat
    var ctr1: nat
    var hashState: Block
    var bufTag: Block
    var bufHash: Block
    var bufCryp: Block
    var tagLen: nat
    var aadBytes: nat
    var payloadBytes: nat
    var bufPos: nat

    /** Everything that went into GHASH so far, whether or not its block is complete. */
    ghost var hashed: seq<bv8>
    /** The number of AAD and payload bytes taken so far, unbounded. */
    ghost var aadDone: nat
    ghost var done: nat
    ghost var first: nat
    ghost var nonce: seq<bv8>
    ghost var mode: Mode

    ghost predicate KeyOk()
      reads `e, `key, `hashSubkey, if key == null then {} else {key.hl, key.hh}
    {
      hashSubkey == e(ZERO_BLOCK) && (tableBased ==> key != null && key.TableOf(hashSubkey))
    }

    ghost predicate CtrOk()
      reads `ctr0, `ctr1
    {
      ctr0 < TWO64 && ctr1 < TWO64
    }

    ghost function Ctr(): nat
      reads `ctr0, `ctr1
    {
      ctr0 * TWO64 + ctr1
    }

    /** The payload part of the state, when k payload bytes have been taken. */
    ghost predicate CryptOk(k: nat)
      reads `ctr0, `ctr1, `mode, `e, `first, `bufCryp
    {
      CtrOk() && KeyReady(mode, e, first, k, bufCryp, Ctr())
    }

    ghost predicate HashOk(s: seq<bv8>)
      reads `hashSubkey, `hashState, `bufHash, `bufPos
    {
      Hashed(hashSubkey, hashState, bufHash, bufPos, s)
    }

    ghost predicate Valid()
      reads this, if key == null then {} else {key.hl, key.hh}
    {
      KeyOk() && CryptOk(done) && HashOk(hashed) && NonceOk() && CountsOk()
    }

    ghost predicate NonceOk()
      reads `first, `e, `nonce, `bufTag, `tagLen
    {
      first == FirstCounter(e, nonce) && bufTag == e(CodeJ0(e, nonce)) && tagLen <= 16
    }

    /** Both byte counts wrap at 2^32. */
    ghost predicate Counted()
      reads `aadBytes, `aadDone, `payloadBytes, `done
    {
      aadBytes == aadDone % TWO32 && payloadBytes == done % TWO32
    }

    ghost predicate CountsOk()
      reads `aadBytes, `aadDone, `payloadBytes, `done, `bufPos
    {
      Counted() && (payloadBytes != 0 ==> bufPos == done % 16)
    }

    constructor (tableBased: bool)
      ensures this.tableBased == tableBased
    {
      this.tableBased := tableBased;
      e := b => b;
      key := null;
      hashSubkey, hashState, bufTag, bufHash, bufCryp := ZERO_BLOCK, ZERO_BLOCK, ZERO_BLOCK, ZERO_BLOCK, ZERO_BLOCK;
      ctr0, ctr1, tagLen, aadBytes, payloadBytes, bufPos := 0, 0, 0, 0, 0, 0;
    }

    // ---------- the counter ----------

    function CtrBlock(): Block
      reads `ctr0, `ctr1
    {
      ToBe(ctr0, 8) + ToBe(ctr1, 8)
    }

    lemma CtrBlockIsCounter()
      requires CtrOk()
      ensures Ctr() < TWO128 && CtrBlock() == Counter(Ctr())
    {
      TwoWords(ctr0, ctr1);
    }

    /** internal_aes_gcm_inc_ctr(): a 128-bit increment with the carry done by hand. */
    method IncCtr()
      requires CtrOk()
      modifies `ctr0, `ctr1
      ensures CtrOk() && Ctr() == (old(Ctr()) + 1) % TWO128
    {
      var c := (ctr1 + 1) % TWO64;
      ctr1 := c;
      if c == 0 {
        c := (ctr0 + 1) % TWO64;
        ctr0 := c;
      }
    }

    // ---------- GHASH ----------

    /** ghash_update_block(), with either multiplier. */
    method GhashUpdateBlock(data: Block)
      requires KeyOk()
      modifies `hashState
      ensures hashState == BlockMul(Xor(old(hashState), data), hashSubkey)
    {
      hide BlockMul;
      var y := Xor(hashState, data);
      if tableBased {
        hashState := key.Mult(y, hashSubkey);
      } else {
        hashState := GfMul(hashSubkey, y);
        BlockMulCommutes(hashSubkey, y);
      }
    }

    /** internal_aes_gcm_ghash_update() */
    method GhashUpdate(head: Option<Block>, data: seq<bv8>, numBlocks: nat)
      requires KeyOk() && 16 * numBlocks <= |data|
      modifies `hashState
      ensures hashState == Ghash(hashSubkey, old(hashState), (if head.Some? then head.value else []) + data[..16 * numBlocks])
      ensures head.Some? && numBlocks == 0 ==> hashState == Ghash(hashSubkey, old(hashState), head.value)
    {
      hide BlockMul;
      ghost var start: seq<bv8> := if head.Some? then head.value else [];
      if head.Some? {
        GhashUpdateBlock(head.value);
        assert start[..16] == start && start[16..] == [];
      }
      assert start + data[..0] == start;
      for n := 0 to numBlocks
        invariant hashState == Ghash(hashSubkey, old(hashState), start + data[..16 * n])
      {
        var block: Block := data[16 * n..16 * n + 16];
        GhashBlock(hashSubkey, old(hashState), start + data[..16 * n], block);
        assert start + data[..16 * n] + block == start + data[..16 * (n + 1)];
        GhashUpdateBlock(block);
      }
    }

    // ---------- additional authenticated data ----------

    /** __gcm_update_aad(): data is at address addr, which decides when it is hashed in place. */
    method UpdateAad(addr: nat, data: seq<bv8>) returns (res: TeeResult)
      requires Valid()
      modifies `aadBytes, `bufHash, `bufPos, `hashState, `hashed, `aadDone
      ensures Valid()
      ensures old(payloadBytes) != 0 ==> res == BadParameters && hashed == old(hashed) && aadDone == old(aadDone)
      ensures old(payloadBytes) == 0 ==> res == Success && hashed == old(hashed) + data && aadDone == old(aadDone) + |data|
    {
      hide KeyOk, CryptOk, HashOk, NonceOk;
      if payloadBytes != 0 {
        return BadParameters;
      }
      HashAad(addr, data, hashed);
      aadBytes, aadDone := (aadBytes + |data|) % TWO32, aadDone + |data|;
      hashed := hashed + data;
      return Success;
    }

    /** The loop of __gcm_update_aad(): no byte is hashed twice, although head keeps its old value
        from one round to the next. */
    method HashAad(addr: nat, data: seq<bv8>, ghost s: seq<bv8>)
      requires KeyOk() && HashOk(s)
      modifies `bufHash, `bufPos, `hashState
      ensures HashOk(s + data)
    {
      hide BlockMul, Ghash, GhashKey.TableOf, Hashed;
      HashedPos(hashSubkey, hashState, bufHash, bufPos, s);
      assert s + data[..0] == s;
      var head: Option<Block> := None;
      var off := 0;
      while off < |data|
        invariant off <= |data| && HashOk(s + data[..off]) && bufPos < 16
        invariant head.Some? ==> off == |data| || (addr + off) % 16 != 0 || |data| - off < 16
      {
        ghost var from, y, buf, pos := off, hashState, bufHash, bufPos;
        if bufPos != 0 || (addr + off) % 16 != 0 || |data| - off < 16 {
          var n := if 16 - bufPos <= |data| - off then 16 - bufPos else |data| - off;
          bufHash := Splice(bufHash, bufPos, data[off..off + n]);
          bufPos := bufPos + n;
          if bufPos != 16 {
            HashedFill(hashSubkey, y, buf, pos, s + data[..off], data[off..], bufHash);
            assert s + data[..off] + data[off..] == s + data;
            return;
          }
          bufPos := 0;
          head := Some(bufHash);
          off := off + n;
        }
        var n := if (addr + off) % 16 == 0 then (|data| - off) / 16 else 0;
        GhashUpdate(head, data[off..], n);
        HashedRound(hashSubkey, y, buf, pos, s, data, from, off, 16 * n, bufHash);
        off := off + 16 * n;
      }
      assert s + data[..off] == s + data;
    }

    // ---------- payload ----------

    /** encrypt_block(): the key stream block is already in bufCryp. */
    method EncryptBlock(src: Block, ghost k: nat) returns (dst: Block)
      requires KeyOk() && CryptOk(k) && mode == Encrypt && k % 16 == 0
      modifies `bufCryp, `hashState, `ctr0, `ctr1
      ensures CryptOk(k + 16) && dst == Crypt(e, first, k, src)
      ensures hashState == Ghash(hashSubkey, old(hashState), dst)
    {
      hide BlockMul, Ghash, Crypt, Counter, KeyOk, Stream, CtrBlock;
      CryptPiece(e, first, k, bufCryp, src);
      bufCryp := Xor(bufCryp, src);
      GhashUpdate(Some(bufCryp), [], 0);
      dst := bufCryp;
      CtrBlockIsCounter();
      bufCryp := e(CtrBlock());
      KeyFinish(mode, e, first, k, Ctr(), 16, bufCryp);
      IncCtr();
    }

    /** decrypt_block(): the key stream block is made now, from the counter. */
    method DecryptBlock(src: Block, ghost k: nat) returns (dst: Block)
      requires KeyOk() && CryptOk(k) && mode == Decrypt && k % 16 == 0
      modifies `bufCryp, `hashState, `ctr0, `ctr1
      ensures CryptOk(k + 16) && dst == Crypt(e, first, k, src)
      ensures hashState == Ghash(hashSubkey, old(hashState), src)
    {
      hide BlockMul, Ghash, Crypt, Counter, KeyOk, Stream, CtrBlock;
      CtrBlockIsCounter();
      bufCryp := e(CtrBlock());
      StreamStart(e, first, k, Ctr());
      CryptPiece(e, first, k, bufCryp, src);
      KeyFinish(mode, e, first, k, Ctr(), 16, Xor(bufCryp, src));
      IncCtr();
      bufCryp := Xor(bufCryp, src);
      GhashUpdate(Some(src), [], 0);
      dst := bufCryp;
    }

    /** internal_aes_gcm_update_payload_blocks() */
    method UpdatePayloadBlocks(m: Mode, src: seq<bv8>, numBlocks: nat, ghost k: nat) returns (dst: seq<bv8>)
      requires KeyOk() && CryptOk(k) && m == mode && k % 16 == 0 && |src| == 16 * numBlocks
      modifies `bufCryp, `hashState, `ctr0, `ctr1
      ensures CryptOk(k + |src|) && dst == Crypt(e, first, k, src)
      ensures hashState == Ghash(hashSubkey, old(hashState), if m == Encrypt then dst else src)
    {
      hide BlockMul, Ghash, Crypt, KeyOk, CryptOk;
      dst := [];
      GhashNil(hashSubkey, hashState);
      CryptNil(e, first, k);
      for n := 0 to numBlocks
        invariant |dst| == 16 * n && dst == Crypt(e, first, k, src[..16 * n])
        invariant CryptOk(k + 16 * n)
        invariant hashState == Ghash(hashSubkey, old(hashState), if m == Encrypt then dst else src[..16 * n])
      {
        var block: Block := src[16 * n..16 * n + 16];
        WholeBlocks(k, 16 * n);
        CryptSplit(e, first, k, src[..16 * n], block);
        assert src[..16 * n] + block == src[..16 * (n + 1)];
        var out;
        if m == Encrypt {
          out := EncryptBlock(block, k + 16 * n);
          GhashAppend(hashSubkey, old(hashState), dst, out);
        } else {
          out := DecryptBlock(block, k + 16 * n);
          GhashAppend(hashSubkey, old(hashState), src[..16 * n], block);
        }
        dst := dst + out;
      }
      assert src[..16 * numBlocks] == src;
    }

    ghost function CtrAt(k: nat): nat
      reads `first, `mode
    {
      (first + k / 16 + if mode == Encrypt then 1 else 0) % TWO128
    }

    /** Decryption makes the key stream block at the start of a block; encryption has made it already. */
    method KeyBlock(m: Mode, ghost k: nat)
      requires CryptOk(k) && m == mode && bufPos == k % 16
      modifies `bufCryp
      ensures CtrOk() && Ctr() == CtrAt(k) && Stream(e, first, k, bufCryp)
    {
      hide Counter, Stream, CtrBlock;
      CtrBlockIsCounter();
      if bufPos == 0 && m == Decrypt {
        bufCryp := e(CtrBlock());
        StreamStart(e, first, k, Ctr());
      }
    }

    /** The piece goes under the key stream, and its ciphertext into the hash buffer. */
    method FillBuffers(m: Mode, piece: seq<bv8>, ghost k: nat) returns (out: seq<bv8>, ghost cryp: Block)
      requires CryptOk(k) && m == mode && bufPos == k % 16 && |piece| <= 16 - bufPos
      modifies `bufCryp, `bufHash
      ensures CtrOk() && Ctr() == CtrAt(k) && Stream(e, first, k, cryp) && out == Crypt(e, first, k, piece)
      ensures bufCryp[bufPos + |piece|..] == cryp[bufPos + |piece|..]
      ensures bufHash == Splice(old(bufHash), bufPos, if m == Encrypt then out else piece)
    {
      hide Crypt, KeyReady, Stream, CtrBlock, Splice, Xor;
      KeyBlock(m, k);
      CryptPiece(e, first, k, bufCryp, piece);
      out := Xor(bufCryp[bufPos..bufPos + |piece|], piece);
      cryp := bufCryp;
      SpliceParts(cryp, bufPos, out);
      bufCryp := Splice(bufCryp, bufPos, out);
      bufHash := Splice(bufHash, bufPos, if m == Encrypt then out else piece);
    }

    /** The byte-wise branch of __gcm_update_payload(): at most the rest of one block. */
    method PartialPayload(m: Mode, piece: seq<bv8>, ghost k: nat, ghost s: seq<bv8>) returns (out: seq<bv8>)
      requires KeyOk() && CryptOk(k) && HashOk(s) && m == mode
      requires bufPos == k % 16 && 0 < |piece| <= 16 - bufPos
      modifies `bufCryp, `bufHash, `bufPos, `hashState, `ctr0, `ctr1
      ensures CryptOk(k + |piece|) && out == Crypt(e, first, k, piece)
      ensures HashOk(s + if m == Encrypt then out else piece) && bufPos == (k + |piece|) % 16
    {
      hide BlockMul, Ghash, Crypt, KeyOk, KeyReady, Stream, Hashed, Splice;
      ghost var y, buf, pos := hashState, bufHash, bufPos;
      ghost var cryp;
      out, cryp := FillBuffers(m, piece, k);
      ghost var text := if m == Encrypt then out else piece;
      SpliceParts(buf, pos, text);
      bufPos := bufPos + |piece|;
      if bufPos != 16 {
        SameBlock(k, |piece|);
        KeyPartial(mode, e, first, k, cryp, Ctr(), |piece|, bufCryp);
        HashedFill(hashSubkey, y, buf, pos, s, text, bufHash);
        return;
      }
      HashedComplete(hashSubkey, y, buf, pos, s, text, bufHash, bufHash);
      FinishBlock(m, k, |piece|);
    }

    /** The block in bufHash is complete: hash it and move the key stream on. */
    method FinishBlock(m: Mode, ghost k: nat, ghost n: nat)
      requires KeyOk() && CtrOk() && m == mode && k % 16 + n == 16
      requires Ctr() == CtrAt(k)
      modifies `bufCryp, `bufPos, `hashState, `ctr0, `ctr1
      ensures CryptOk(k + n) && bufPos == 0 == (k + n) % 16
      ensures hashState == Ghash(hashSubkey, old(hashState), bufHash)
    {
      hide BlockMul, Ghash, Counter, KeyOk, Stream, CtrBlock;
      CtrBlockIsCounter();
      NextBlock(k, n);
      GhashUpdate(Some(bufHash), [], 0);
      bufPos := 0;
      if m == Encrypt {
        bufCryp := e(CtrBlock());
      }
      KeyFinish(mode, e, first, k, Ctr(), n, bufCryp);
      IncCtr();
    }

    method CountPayload(n: nat)
      requires Counted()
      modifies `payloadBytes, `done
      ensures Counted() && done == old(done) + n
    {
      payloadBytes, done := (payloadBytes + n) % TWO32, done + n;
    }

    /** __gcm_update_payload() */
    method UpdatePayload(m: Mode, src: seq<bv8>) returns (dst: seq<bv8>)
      requires Valid() && m == mode
      modifies `bufCryp, `bufHash, `bufPos, `hashState, `ctr0, `ctr1, `payloadBytes, `done, `hashed
      ensures Valid() && done == old(done) + |src| && bufPos == done % 16
      ensures dst == Crypt(e, first, old(done), src)
      ensures hashed == (if old(payloadBytes) == 0 then Pad(old(hashed)) else old(hashed)) + (if m == Encrypt then dst else src)
    {
      hide KeyOk, CryptOk, HashOk, NonceOk, Crypt, Pad, Counted;
      ghost var k, s := done, if payloadBytes == 0 then Pad(hashed) else hashed;
      FinishAad();
      dst := TakePayload(m, src, k, s);
    }

    /** Everything after the AAD is closed. */
    method TakePayload(m: Mode, src: seq<bv8>, ghost k: nat, ghost s: seq<bv8>) returns (dst: seq<bv8>)
      requires KeyOk() && CryptOk(k) && HashOk(s) && m == mode && bufPos == k % 16 && Counted() && done == k
      modifies `bufCryp, `bufHash, `bufPos, `hashState, `ctr0, `ctr1, `payloadBytes, `done, `hashed
      ensures CryptOk(done) && HashOk(hashed) && CountsOk() && done == k + |src| && bufPos == done % 16
      ensures dst == Crypt(e, first, k, src) && hashed == s + if m == Encrypt then dst else src
    {
      hide KeyOk, CryptOk, HashOk, Crypt, Counted;
      dst := CryptPayload(m, src, k, s);
      CountPayload(|src|);
      hashed := s + if m == Encrypt then dst else src;
    }

    /** The first payload call pads a partial block of AAD with zeros. */
    method FinishAad()
      requires Valid()
      modifies `bufHash, `bufPos, `hashState
      ensures HashOk(if payloadBytes == 0 then Pad(hashed) else hashed) && bufPos == done % 16
    {
      hide BlockMul, Ghash, NonceOk, KeyOk, CryptOk, Pad, Hashed;
      HashedPos(hashSubkey, hashState, bufHash, bufPos, hashed);
      if payloadBytes == 0 {
        MultipleOf16(done);
        HashedPad(hashSubkey, hashState, bufHash, bufPos, hashed, bufHash[..bufPos] + Zeros(16 - bufPos));
        if bufPos != 0 {
          bufHash := bufHash[..bufPos] + Zeros(16 - bufPos);
          GhashUpdate(Some(bufHash), [], 0);
          bufPos := 0;
        }
      }
    }

    /** The loop of __gcm_update_payload() */
    method CryptPayload(m: Mode, src: seq<bv8>, ghost k: nat, ghost s: seq<bv8>) returns (dst: seq<bv8>)
      requires KeyOk() && CryptOk(k) && HashOk(s) && m == mode && bufPos == k % 16
      modifies `bufCryp, `bufHash, `bufPos, `hashState, `ctr0, `ctr1
      ensures CryptOk(k + |src|) && dst == Crypt(e, first, k, src) && bufPos == (k + |src|) % 16
      ensures HashOk(s + if m == Encrypt then dst else src)
    {
      hide BlockMul, Ghash, KeyOk, CryptOk, Crypt, Hashed;
      dst := [];
      CryptNil(e, first, k);
      assert s + [] == s && src[..0] == [];
      var off := 0;
      while off < |src|
        invariant off <= |src| && |dst| == off && dst == Crypt(e, first, k, src[..off])
        invariant CryptOk(k + off) && bufPos == (k + off) % 16
        invariant HashOk(s + if m == Encrypt then dst else src[..off])
      {
        var out;
        var n;
        if bufPos != 0 || |src| - off < 16 {
          n := if 16 - bufPos <= |src| - off then 16 - bufPos else |src| - off;
          out := PartialPayload(m, src[off..off + n], k + off, s + if m == Encrypt then dst else src[..off]);
        } else {
          n := (|src| - off) / 16 * 16;
          ghost var y := hashState;
          out := UpdatePayloadBlocks(m, src[off..off + n], (|src| - off) / 16, k + off);
          HashedBlocks(hashSubkey, y, bufHash, s + if m == Encrypt then dst else src[..off],
                       if m == Encrypt then out else src[off..off + n]);
          WholeBlocks(k + off, n);
        }
        CryptSplit(e, first, k, src[..off], src[off..off + n]);
        assert src[..off] + src[off..off + n] == src[..off + n];
        Regroup3(s, if m == Encrypt then dst else src[..off], if m == Encrypt then out else src[off..off + n]);
        dst := dst + out;
        off := off + n;
      }
      assert src[..off] == src;
    }

    // ---------- initialisation ----------

    method GhashUpdateCopied(data: seq<bv8>, n: nat)
      requires KeyOk() && 16 * n <= |data|
      modifies `hashState
      ensures hashState == Ghash(hashSubkey, old(hashState), data[..16 * n])
    {
      hide BlockMul, Ghash, KeyOk;
      assert data[..0] == [];
      GhashNil(hashSubkey, hashState);
      for m := 0 to n
        invariant hashState == Ghash(hashSubkey, old(hashState), data[..16 * m])
      {
        var block: Block := data[16 * m..16 * m + 16];
        GhashAppend(hashSubkey, old(hashState), data[..16 * m], block);
        assert data[..16 * m] + block == data[..16 * (m + 1)];
        GhashUpdate(Some(block), [], 0);
      }
    }

    /** ghash_update_pad_zero(): block by block through a copy when data is not aligned. */
    method GhashUpdatePadZero(addr: nat, data: seq<bv8>)
      requires KeyOk()
      modifies `hashState
      ensures hashState == Ghash(hashSubkey, old(hashState), Pad(data))
    {
      hide BlockMul, Ghash, KeyOk, Pad;
      var n := |data| / 16;
      assert data[..0] == [];
      GhashNil(hashSubkey, hashState);
      if n != 0 {
        if addr % 16 == 0 {
          GhashUpdate(None, data, n);
          assert [] + data[..16 * n] == data[..16 * n];
        } else {
          GhashUpdateCopied(data, n);
        }
      }
      PadParts(data);
      if |data| - 16 * n != 0 {
        var block: Block := data[16 * n..] + Zeros(16 - (|data| - 16 * n));
        GhashAppend(hashSubkey, old(hashState), data[..16 * n], block);
        GhashUpdate(Some(block), [], 0);
      }
    }

    /** ghash_update_lengths(): l * 8 is computed in 32 bits. */
    method GhashUpdateLengths(l1: nat, l2: nat)
      requires KeyOk()
      modifies `hashState
      ensures hashState == Ghash(hashSubkey, old(hashState), CodeLen(l1) + CodeLen(l2))
    {
      hide BlockMul, Ghash, KeyOk;
      var fields: Block := ToBe(l1 % TWO32 * 8 % TWO32, 8) + ToBe(l2 % TWO32 * 8 % TWO32, 8);
      GhashUpdate(Some(fields), [], 0);
    }

    /** internal_aes_gcm_set_key() */
    method SetKey()
      modifies `key, `hashSubkey
      ensures KeyOk()
    {
      hashSubkey := e(ZERO_BLOCK);
      key := null;
      if tableBased {
        key := new GhashKey(hashSubkey);
      }
    }

    /** The first part of __gcm_init(): the counter block of the nonce, then its encryption. */
    method LoadNonce(nonceAddr: nat, nonce: seq<bv8>)
      requires KeyOk() && hashState == ZERO_BLOCK
      modifies `ctr0, `ctr1, `hashState
      ensures CtrOk() && Ctr() == FromBe(CodeJ0(e, nonce)) && hashState == ZERO_BLOCK
    {
      hide BlockMul, Ghash, GhashKey.TableOf, Pad, CodeLen, FromBe;
      if |nonce| == 12 {
        ctr0, ctr1 := FromBe(nonce[..8]), FromBe(nonce[8..] + [0, 0, 0, 0]);
        NonceCounter(nonce);
        IncCtr();
      } else {
        GhashUpdatePadZero(nonceAddr, nonce);
        GhashUpdateLengths(0, |nonce|);
        GhashAppend(hashSubkey, ZERO_BLOCK, Pad(nonce), CodeLen(0) + CodeLen(|nonce|));
        Regroup3(Pad(nonce), CodeLen(0), CodeLen(|nonce|));
        BlockCounter(hashState);
        ctr0, ctr1 := FromBe(hashState[..8]), FromBe(hashState[8..]);
        hashState := ZERO_BLOCK;
      }
    }

    /** memset() of the counts. */
    method ClearCounts()
      modifies `aadBytes, `payloadBytes, `bufPos, `hashed, `aadDone, `done
      ensures CountsOk() && bufPos == 0 && hashed == [] && done == 0 == aadDone
    {
      aadBytes, payloadBytes, bufPos := 0, 0, 0;
      hashed, aadDone, done := [], 0, 0;
    }

    /** memset() of the buffers. */
    method ClearBuffers()
      modifies `hashState, `bufTag, `bufHash, `bufCryp, `ctr0, `ctr1
      ensures hashState == ZERO_BLOCK && bufHash == ZERO_BLOCK
    {
      hashState, bufTag, bufHash, bufCryp := ZERO_BLOCK, ZERO_BLOCK, ZERO_BLOCK, ZERO_BLOCK;
      ctr0, ctr1 := 0, 0;
    }

    lemma EmptyHash()
      requires hashState == ZERO_BLOCK && bufHash == ZERO_BLOCK && bufPos == 0
      ensures HashOk([])
    {
      HashedNil(hashSubkey);
    }

    /** __gcm_init() up to the counter block of the nonce. */
    method Prepare(e: Block -> Block, m: Mode, nonceAddr: nat, nonce: seq<bv8>, tagLen: nat)
      modifies this
      ensures KeyOk() && CountsOk() && HashOk(hashed) && hashed == [] && done == 0 == aadDone
      ensures this.e == e && mode == m && this.nonce == nonce && this.tagLen == tagLen
      ensures CtrOk() && Ctr() == FromBe(CodeJ0(e, nonce)) && first == FirstCounter(e, nonce)
    {
      hide KeyOk, CodeJ0, HashOk, CountsOk, FirstCounter, FromBe;
      ClearBuffers();
      this.e, this.tagLen := e, tagLen;
      this.nonce, mode, first := nonce, m, FirstCounter(e, nonce);
      SetKey();
      LoadNonce(nonceAddr, nonce);
      ClearCounts();
      EmptyHash();
    }

    /** __gcm_init() */
    method Init(e: Block -> Block, m: Mode, nonceAddr: nat, nonce: seq<bv8>, tagLen: nat) returns (res: TeeResult)
      modifies this
      ensures tagLen > 16 ==> res == BadParameters && unchanged(this)
      ensures tagLen <= 16 ==> res == Success && Valid() && hashed == [] && done == 0 == aadDone
      ensures tagLen <= 16 ==> this.e == e && mode == m && this.nonce == nonce && this.tagLen == tagLen
    {
      hide KeyOk, CryptOk, CodeJ0, HashOk, CountsOk, FromBe;
      if tagLen > 16 {
        return BadParameters;
      }
      Prepare(e, m, nonceAddr, nonce, tagLen);
      StartKeyStream(m);
      return Success;
    }

    /** The second part of __gcm_init(): encryption starts one block ahead. */
    method StartKeyStream(m: Mode)
      requires CtrOk() && Ctr() == FromBe(CodeJ0(e, nonce)) && first == Ctr() + 1 && m == mode
      modifies `bufTag, `bufCryp, `ctr0, `ctr1
      ensures bufTag == e(CodeJ0(e, nonce)) && CryptOk(0)
    {
      hide BlockMul, Ghash, CodeJ0, Counter, Stream, CtrBlock, FromBe;
      CtrBlockIsCounter();
      BlockCounter(CodeJ0(e, nonce));
      bufTag := e(CtrBlock());
      IncCtr();
      if m == Encrypt {
        FirstKeyBlock();
      }
    }

    method FirstKeyBlock()
      requires CtrOk() && Ctr() == first % TWO128 && mode == Encrypt
      modifies `bufCryp, `ctr0, `ctr1
      ensures CryptOk(0)
    {
      hide Counter, Stream, CtrBlock;
      CtrBlockIsCounter();
      bufCryp := e(CtrBlock());
      StreamStart(e, first, 0, Ctr());
      IncMod(first);
      IncCtr();
    }

    // ---------- finalisation ----------

    /** operation_final() pads a partial last block with zeros. */
    method FinishHash()
      requires KeyOk() && HashOk(hashed)
      modifies `bufHash, `hashState
      ensures hashState == Ghash(hashSubkey, ZERO_BLOCK, Pad(hashed))
    {
      hide BlockMul, Ghash, Hashed, Pad, KeyOk;
      HashedPad(hashSubkey, hashState, bufHash, bufPos, hashed, bufHash);
      HashedPos(hashSubkey, hashState, bufHash, bufPos, hashed);
      HashedWhole(hashSubkey, hashState, bufHash, bufPos, hashed);
      if bufPos != 0 {
        bufHash := bufHash[..bufPos] + Zeros(16 - bufPos);
        GhashUpdate(Some(bufHash), [], 0);
      }
    }

    /** The end of operation_final(): pad, hash the lengths, make the tag. */
    method FinishTag()
      requires Valid()
      modifies `bufHash, `hashState, `bufTag
      ensures bufTag[..tagLen] == CodeTag(e, nonce, hashed, aadDone, done)[..tagLen]
    {
      hide BlockMul, Ghash, HashOk, CryptOk, Pad, CodeLen, CodeJ0, FirstCounter, GhashKey.TableOf, Xor;
      FinishHash();
      CodeLenMod(aadDone);
      CodeLenMod(done);
      GhashUpdateLengths(aadBytes, payloadBytes);
      GhashAppend(hashSubkey, ZERO_BLOCK, Pad(hashed), CodeLen(aadDone) + CodeLen(done));
      Regroup3(Pad(hashed), CodeLen(aadDone), CodeLen(done));
      XorPrefix(bufTag, hashState, tagLen);
      bufTag := Xor(bufTag[..tagLen], hashState[..tagLen]) + bufTag[tagLen..];
    }

    /** operation_final() */
    method OperationFinal(m: Mode, src: seq<bv8>) returns (dst: seq<bv8>)
      requires Valid() && m == mode
      modifies `bufCryp, `bufHash, `bufPos, `hashState, `ctr0, `ctr1, `payloadBytes, `done, `hashed, `bufTag
      ensures done == old(done) + |src| && dst == Crypt(e, first, old(done), src)
      ensures hashed == (if old(payloadBytes) == 0 then Pad(old(hashed)) else old(hashed)) + (if m == Encrypt then dst else src)
      ensures bufTag[..tagLen] == CodeTag(e, nonce, hashed, aadDone, done)[..tagLen]
    {
      hide CodeTag, Crypt, Pad, KeyOk, CryptOk, HashOk, NonceOk, CountsOk;
      dst := UpdatePayload(m, src);
      FinishTag();
    }

    /** __gcm_enc_final(): tagCap is the size of the caller's tag buffer. */
    method EncFinal(src: seq<bv8>, tagCap: nat) returns (res: TeeResult, dst: seq<bv8>, tag: seq<bv8>)
      requires Valid() && mode == Encrypt
      modifies `bufCryp, `bufHash, `bufPos, `hashState, `ctr0, `ctr1, `payloadBytes, `done, `hashed, `bufTag
      ensures tagCap < tagLen ==> res == ShortBuffer && dst == [] == tag && unchanged(this)
      ensures tagLen <= tagCap ==> res == Success && done == old(done) + |src| && dst == Crypt(e, first, old(done), src)
      ensures tagLen <= tagCap ==> hashed == (if old(payloadBytes) == 0 then Pad(old(hashed)) else old(hashed)) + dst
      ensures tagLen <= tagCap ==> tag == CodeTag(e, nonce, hashed, aadDone, done)[..tagLen]
    {
      hide CodeTag, Crypt, Pad, KeyOk, CryptOk, HashOk, CountsOk;
      if tagCap < tagLen {
        return ShortBuffer, [], [];
      }
      dst := OperationFinal(Encrypt, src);
      return Success, dst, bufTag[..tagLen];
    }

    /** __gcm_dec_final(): the whole tag is compared. */
    method DecFinal(src: seq<bv8>, tag: seq<bv8>) returns (res: TeeResult, dst: seq<bv8>)
      requires Valid() && mode == Decrypt
      modifies `bufCryp, `bufHash, `bufPos, `hashState, `ctr0, `ctr1, `payloadBytes, `done, `hashed, `bufTag
      ensures |tag| != tagLen ==> res == MacInvalid && dst == [] && unchanged(this)
      ensures |tag| == tagLen ==> done == old(done) + |src| && dst == Crypt(e, first, old(done), src)
      ensures |tag| == tagLen ==> hashed == (if old(payloadBytes) == 0 then Pad(old(hashed)) else old(hashed)) + src
      ensures |tag| == tagLen ==> res == if tag == CodeTag(e, nonce, hashed, aadDone, done)[..tagLen] then Success else MacInvalid
    {
      hide CodeTag, Crypt, Pad, KeyOk, CryptOk, HashOk, CountsOk;
      if |tag| != tagLen {
        return MacInvalid, [];
      }
      dst := OperationFinal(Decrypt, src);
      return if bufTag[..tagLen] == tag then Success else MacInvalid, dst;
    }
  }

  lemma TwoWords(a: nat, b: nat)
    requires a < TWO64 && b < TWO64
    ensures a * TWO64 + b < TWO128 && ToBe(a, 8) + ToBe(b, 8) == Counter(a * TWO64 + b)
  {
    hide ToBe;
    Pow256Of8();
    ToBeConcat(a, b, 8, 8);
  }

  lemma Slices(s: seq<bv8>, data: seq<bv8>, from: nat, mid: nat, n: nat)
    requires from <= mid && mid + n <= |data|
    ensures s + data[..from] + (data[from..mid] + data[mid..][..n]) == s + data[..mid + n]
  {
    assert data[from..mid] + data[mid..][..n] == data[from..mid + n];
    assert data[..from] + data[from..mid + n] == data[..mid + n];
  }

  /** One round of the AAD loop: perhaps the buffered block, then n bytes of whole blocks. */
  lemma HashedRound(h: Block, y: Block, buf: Block, pos: nat, s: seq<bv8>, data: seq<bv8>,
                    from: nat, mid: nat, n: nat, buf': Block)
    requires from <= mid && mid + n <= |data| && n % 16 == 0
    requires Hashed(h, y, buf, pos, s + data[..from])
    ensures from == mid && pos == 0 ==> Hashed(h, Ghash(h, y, [] + data[mid..][..n]), buf, 0, s + data[..mid + n])
    ensures from < mid && pos + (mid - from) == 16 && buf' == buf[..pos] + data[from..mid]
            ==> Hashed(h, Ghash(h, y, buf' + data[mid..][..n]), buf', 0, s + data[..mid + n])
  {
    hide BlockMul, Ghash;
    Slices(s, data, from, mid, n);
    var blocks := data[mid..][..n];
    assert [] + blocks == blocks;
    if from == mid && pos == 0 {
      assert data[from..mid] + blocks == blocks;
      HashedBlocks(h, y, buf, s + data[..from], blocks);
    }
    if from < mid && pos + (mid - from) == 16 && buf' == buf[..pos] + data[from..mid] {
      HashedCompleteBlocks(h, y, buf, pos, s + data[..from], data[from..mid], buf', blocks);
    }
  }

  lemma Regroup3(a: seq<bv8>, b: seq<bv8>, c: seq<bv8>)
    ensures a + b + c == a + (b + c)
  {
  }

  lemma MultipleOf16(n: nat)
    requires n % TWO32 == 0
    ensures n % 16 == 0
  {
    assert n == n / TWO32 * TWO32;
  }

  lemma CodeLenMod(n: nat)
    ensures CodeLen(n % TWO32) == CodeLen(n)
  {
    hide ToBe;
  }

  lemma XorPrefix(a: Block, b: Block, n: nat)
    requires n <= 16
    ensures Xor(a[..n], b[..n]) == Xor(a, b)[..n]
  {
  }

  lemma GhashNil(h: Block, y: Block)
    ensures Ghash(h, y, []) == y
  {
  }

  lemma CryptNil(e: Block -> Block, c: nat, from: nat)
    ensures Crypt(e, c, from, []) == []
  {
  }

  lemma PadParts(data: seq<bv8>)
    ensures var n := |data| / 16;
            Pad(data) == if |data| - 16 * n == 0 then data[..16 * n]
                         else data[..16 * n] + (data[16 * n..] + Zeros(16 - (|data| - 16 * n)))
  {
    var n := |data| / 16;
    if |data| % 16 == 0 {
      assert data[..16 * n] == data;
    } else {
      assert data == data[..16 * n] + data[16 * n..];
    }
  }

  lemma BlockCounter(b: Block)
    ensures FromBe(b) == FromBe(b[..8]) * TWO64 + FromBe(b[8..])
    ensures FromBe(b[..8]) < TWO64 && FromBe(b[8..]) < TWO64 && FromBe(b) < TWO128
    ensures Counter(FromBe(b)) == b
  {
    hide FromBe, ToBe;
    Pow256Of8();
    FromBeConcat(b[..8], b[8..]);
    assert b[..8] + b[8..] == b;
    FromBeBound(b[..8]);
    FromBeBound(b[8..]);
    ToBeFromBe(b);
  }

  /** The 96-bit nonce with a zero word appended, plus one, is the nonce with a one appended. */
  lemma NonceCounter(nonce: seq<bv8>)
    requires |nonce| == 12
    ensures FromBe(nonce[..8]) < TWO64 && FromBe(nonce[8..] + [0, 0, 0, 0]) < TWO64
    ensures (FromBe(nonce[..8]) * TWO64 + FromBe(nonce[8..] + [0, 0, 0, 0]) + 1) % TWO128 == FromBe(nonce + [0, 0, 0, 1])
  {
    hide FromBe, Counter;
    var z: Block := nonce + [0, 0, 0, 0];
    var o: Block := nonce + [0, 0, 0, 1];
    BlockCounter(z);
    BlockCounter(o);
    assert z[..8] == nonce[..8] && z[8..] == nonce[8..] + [0, 0, 0, 0];
    FromBeSnoc(nonce + [0, 0, 0], 0);
    FromBeSnoc(nonce + [0, 0, 0], 1);
    assert nonce + [0, 0, 0] + [0] == z && nonce + [0, 0, 0] + [1] == o;
  }

  lemma Pow256Of8()
    ensures Pow256(8) == TWO64 && Pow256(4) == TWO32
  {
    assert Pow256(2) == 0x10000;
    assert Pow256(4) == 0x1_0000_0000;
    assert Pow256(6) == 0x1_0000_0000_0000;
  }
}
