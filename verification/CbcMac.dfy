/** CBC-MAC (core/crypto/cbc-mac.c), for block ciphers of any block length up to 16 bytes. */
module CbcMac {
  import opened Arithmetic
  import opened ByteValues
  import opened Bytes

  const MAX_BLOCK_LEN: nat := 16

  type Octets = seq<bv8>

  /** e maps blocks of n bytes to blocks of n bytes. */
  ghost predicate BlockCipher(e: Octets -> Octets, n: nat) {
    n > 0 && forall b: Octets | |b| == n :: |e(b)| == n
  }

  // ---------- CBC and its last block ----------

  /** CBC of the whole blocks of s. */
  function Cbc(e: Octets -> Octets, n: nat, y: Octets, s: Octets): Octets
    requires BlockCipher(e, n) && |y| == n
    decreases |s|
  {
    if |s| < n then [] else
    var c := e(Xor(s[..n], y));
    c + Cbc(e, n, c, s[n..])
  }

  /** The chaining value after the whole blocks of s. */
  ghost function Fold(e: Octets -> Octets, n: nat, y: Octets, s: Octets): (r: Octets)
    requires BlockCipher(e, n) && |y| == n
    ensures |r| == n
    decreases |s|
  {
    if |s| < n then y else Fold(e, n, e(Xor(s[..n], y)), s[n..])
  }

  /** What the whole blocks of s leave over. */
  ghost function Rest(n: nat, s: Octets): (r: Octets)
    requires n > 0
    ensures |r| < n && |r| <= |s|
    decreases |s|
  {
    if |s| < n then s else Rest(n, s[n..])
  }

  lemma {:induction false} CbcEnd(e: Octets -> Octets, n: nat, y: Octets, s: Octets)
    requires BlockCipher(e, n) && |y| == n && |s| >= n
    ensures |Cbc(e, n, y, s)| >= n && Cbc(e, n, y, s)[|Cbc(e, n, y, s)| - n..] == Fold(e, n, y, s)
    decreases |s|
  {
    var c := e(Xor(s[..n], y));
    if |s[n..]| < n {
      assert Cbc(e, n, y, s) == c;
    } else {
      CbcEnd(e, n, c, s[n..]);
    }
  }

  lemma {:induction false} RestLength(n: nat, s: Octets)
    requires n > 0
    ensures |Rest(n, s)| == |s| % n
    decreases |s|
  {
    if |s| < n {
      SmallMod(|s|, n);
    } else {
      RestLength(n, s[n..]);
      ModMinus(|s|, n);
    }
  }

  lemma SmallMod(x: nat, n: nat)
    requires x < n
    ensures x % n == x
  {
  }

  lemma ModMinus(x: nat, n: nat)
    requires 0 < n <= x
    ensures (x - n) % n == x % n
  {
    var q, r, q', r' := x / n, x % n, (x - n) / n, (x - n) % n;
    assert x == q * n + r && x - n == q' * n + r';
    assert (q - q' - 1) * n == q * n - q' * n - n == r' - r;
    if q - q' - 1 > 0 {
      AtLeastOnce(q - q' - 1, n);
    } else if q - q' - 1 < 0 {
      AtLeastOnce(-(q - q' - 1), n);
    }
  }

  lemma {:induction false} Split(e: Octets -> Octets, n: nat, y: Octets, s: Octets, t: Octets)
    requires BlockCipher(e, n) && |y| == n
    ensures Fold(e, n, y, s + t) == Fold(e, n, Fold(e, n, y, s), Rest(n, s) + t)
    ensures Rest(n, s + t) == Rest(n, Rest(n, s) + t)
    decreases |s|
  {
    if |s| >= n {
      assert (s + t)[..n] == s[..n] && (s + t)[n..] == s[n..] + t;
      Split(e, n, e(Xor(s[..n], y)), s[n..], t);
    }
  }

  lemma {:induction false} RestOfBlocks(n: nat, k: nat, s: Octets)
    requires n > 0 && |s| == k * n
    ensures Rest(n, s) == []
    decreases k
  {
    if k == 0 {
      assert |s| == 0;
    } else {
      assert k * n == (k - 1) * n + n;
      RestOfBlocks(n, k - 1, s[n..]);
    }
  }

  lemma FoldShort(e: Octets -> Octets, n: nat, y: Octets, s: Octets)
    requires BlockCipher(e, n) && |y| == n && |s| < n
    ensures Fold(e, n, y, s) == y && Rest(n, s) == s
  {
  }

  lemma BundleFits(len: nat, n: nat, k: nat)
    requires 0 < n <= len && (k == 1 || 1 < k <= len / n)
    ensures n <= k * n <= len
  {
    if k > 1 {
      assert k * n <= len / n * n;
    }
  }

  /** The padding of section 6.3 of RFC 5652. */
  function Pkcs5(n: nat, len: nat): (r: Octets)
    requires 0 < n <= MAX_BLOCK_LEN && len < n
    ensures |r| == n - len
  {
    seq(n - len, _ => PadByte(n - len))
  }

  function PadByte(p: nat): bv8
    requires p <= MAX_BLOCK_LEN
  {
    Byte(p)
  }

  /** The MAC: the last CBC block of the message, padded or not, under a zero IV. */
  ghost function Mac(e: Octets -> Octets, n: nat, pad: bool, message: Octets): (r: Octets)
    requires BlockCipher(e, n) && n <= MAX_BLOCK_LEN
    ensures |r| == n
  {
    Fold(e, n, Zeros(n), if pad then message + Pkcs5(n, |message| % n) else message)
  }

  /** The whole blocks of s. */
  ghost function Whole(n: nat, s: Octets): Octets
    requires n > 0
    decreases |s|
  {
    if |s| < n then [] else s[..n] + Whole(n, s[n..])
  }

  /** Cutting the rest off changes neither the whole blocks nor whether there are any. */
  lemma {:induction false} WholeFacts(e: Octets -> Octets, n: nat, y: Octets, s: Octets)
    requires BlockCipher(e, n) && |y| == n
    ensures s == Whole(n, s) + Rest(n, s) && (|Whole(n, s)| >= n <==> |s| >= n)
    ensures Fold(e, n, y, Whole(n, s)) == Fold(e, n, y, s) && Rest(n, Whole(n, s)) == []
    decreases |s|
  {
    if |s| >= n {
      var t := s[n..];
      var w := Whole(n, s);
      WholeFacts(e, n, e(Xor(s[..n], y)), t);
      assert w[..n] == s[..n] && w[n..] == Whole(n, t);
    }
  }

  // ---------- the code ----------

  datatype TeeResult = Success | BadState

  /** struct crypto_cbc_mac_ctx; iv is the chaining value inside its CBC context. */
  class Context {
    const e: Octets -> Octets
    const blockLen: nat
    const pkcs5Pad: bool
    /** CFG_CRYPTO_CBC_MAC_BUNDLE_BLOCKS */
    const bundle: nat
    var iv: Octets
    var block: Octets
    var digest: Octets
    var currentBlockLen: nat
    var isComputed: bool
    ghost var message: Octets

    ghost predicate Shape()
      reads `iv, `block
    {
      BlockCipher(e, blockLen) && blockLen <= MAX_BLOCK_LEN && |iv| == blockLen && |block| == MAX_BLOCK_LEN
    }

    /** The context has absorbed message: whole blocks in iv, the rest in block. */
    ghost predicate Absorbed()
      reads `iv, `block, `currentBlockLen, `isComputed, `message
    {
      && Shape() && iv == Fold(e, blockLen, Zeros(blockLen), message)
      && currentBlockLen == |Rest(blockLen, message)| && block[..currentBlockLen] == Rest(blockLen, message)
      && (isComputed <==> |message| >= blockLen)
    }

    ghost predicate Valid()
      reads this
    {
      Absorbed() && (isComputed ==> digest == iv)
    }

    /** crypto_cbc_mac_init() */
    constructor (e: Octets -> Octets, blockLen: nat, pkcs5Pad: bool, bundle: nat)
      requires BlockCipher(e, blockLen) && blockLen <= MAX_BLOCK_LEN
      ensures Valid() && message == []
      ensures this.e == e && this.blockLen == blockLen && this.pkcs5Pad == pkcs5Pad
    {
      this.e, this.blockLen, this.pkcs5Pad, this.bundle := e, blockLen, pkcs5Pad, bundle;
      iv, block, digest := Zeros(blockLen), Zeros(MAX_BLOCK_LEN), Zeros(blockLen);
      currentBlockLen, isComputed, message := 0, false, [];
    }

    /** crypto_cipher_update() on whole blocks. */
    method CipherUpdate(data: Octets) returns (out: Octets)
      requires Shape() && |data| >= blockLen
      modifies `iv
      ensures Shape() && iv == Fold(e, blockLen, old(iv), data)
      ensures |out| >= blockLen && out[|out| - blockLen..] == iv
    {
      CbcEnd(e, blockLen, iv, data);
      out := Cbc(e, blockLen, iv, data);
      iv := out[|out| - blockLen..];
    }

    /** Whole blocks taken from the input when nothing is buffered. */
    lemma AbsorbedBlocks(piece: Octets)
      requires Absorbed() && currentBlockLen == 0 && Rest(blockLen, piece) == [] && |piece| >= blockLen
      ensures Fold(e, blockLen, Zeros(blockLen), message + piece) == Fold(e, blockLen, iv, piece)
      ensures Rest(blockLen, message + piece) == []
    {
      hide Fold;
      Split(e, blockLen, Zeros(blockLen), message, piece);
      assert Rest(blockLen, message) + piece == piece;
    }

    /** The buffered bytes and enough new ones for a block. */
    method FillBlock(piece: Octets)
      requires Valid() && currentBlockLen > 0 && |piece| == blockLen - currentBlockLen
      modifies `iv, `block, `digest, `currentBlockLen, `isComputed, `message
      ensures Valid() && message == old(message) + piece && currentBlockLen == 0
    {
      hide Fold, Cbc;
      Split(e, blockLen, Zeros(blockLen), message, piece);
      block := block[..currentBlockLen] + piece + block[blockLen..];
      ghost var whole := Rest(blockLen, message) + piece;
      assert block[..blockLen] == whole;
      RestOfBlocks(blockLen, 1, whole);
      digest := CipherUpdate(block[..blockLen]);
      digest := digest[|digest| - blockLen..];
      isComputed, currentBlockLen, message := true, 0, message + piece;
    }

    /** One round of the loop: a bundle of blocks through the temporary buffer, or a single block. */
    method Bundle(data: Octets, at: nat, outTmp: bool) returns (at': nat)
      requires Absorbed() && at + blockLen <= |data| && currentBlockLen == 0
      modifies `iv, `digest, `isComputed, `message
      ensures Absorbed() && at < at' <= |data| && message == old(message) + data[at..at']
      ensures |data| - at' < blockLen ==> digest == iv
    {
      hide Fold, Rest, Cbc;
      var avail := (|data| - at) / blockLen;
      var nblocks := if avail <= bundle then avail else bundle;
      if !(nblocks > 1 && outTmp) {
        nblocks := 1;
      }
      var outLen := nblocks * blockLen;
      BundleFits(|data| - at, blockLen, nblocks);
      RestOfBlocks(blockLen, nblocks, data[at..at + outLen]);
      AbsorbedBlocks(data[at..at + outLen]);
      var out := CipherUpdate(data[at..at + outLen]);
      isComputed := true;
      at' := at + outLen;
      if nblocks == 1 {
        digest := out[|out| - blockLen..];
      } else if |data| - at' < blockLen {
        digest := out[|out| - blockLen..];
      }
      message := message + data[at..at'];
    }

    /** What is less than a block stays in the buffer. */
    method Remember(piece: Octets)
      requires Valid() && currentBlockLen + |piece| < blockLen
      modifies `block, `currentBlockLen, `message
      ensures Valid() && message == old(message) + piece
    {
      hide Fold, Cbc;
      Split(e, blockLen, Zeros(blockLen), message, piece);
      FoldShort(e, blockLen, iv, Rest(blockLen, message) + piece);
      if |piece| > 0 {
        block := block[..currentBlockLen] + piece + block[currentBlockLen + |piece|..];
        currentBlockLen := currentBlockLen + |piece|;
      }
      message := message + piece;
    }

    /** crypto_cbc_mac_update(), with mallocOk telling whether the temporary buffer was obtained. */
    method Update(data: Octets, mallocOk: bool)
      requires Valid()
      modifies this
      ensures Valid() && message == old(message) + data
    {
      hide Fold, Rest, Cbc;
      var at := 0;
      ghost var m := message;
      if currentBlockLen > 0 && |data| + currentBlockLen >= blockLen {
        var padLen := blockLen - currentBlockLen;
        FillBlock(data[..padLen]);
        at := padLen;
      }
      assert message == m + data[..at];
      var outTmp := (|data| - at) / blockLen > 1 && bundle > 1 && mallocOk;
      while |data| - at >= blockLen
        invariant at <= |data| && Absorbed() && message == m + data[..at]
        invariant |data| - at >= blockLen ==> currentBlockLen == 0
        invariant |data| - at < blockLen ==> currentBlockLen + (|data| - at) < blockLen
        invariant |data| - at < blockLen ==> Valid()
      {
        at := Bundle(data, at, outTmp);
        assert message == m + data[..at];
      }
      Remember(data[at..]);
      assert m + data[..at] + data[at..] == m + data;
    }

    /** The padding of crypto_cbc_mac_final(): the completed block goes through update again. */
    method PadLast(mallocOk: bool)
      requires Valid()
      modifies this
      ensures Valid() && isComputed && currentBlockLen == 0
      ensures message == old(message) + Pkcs5(blockLen, old(currentBlockLen))
    {
      hide Fold, Rest, Cbc, Whole;
      WholeFacts(e, blockLen, Zeros(blockLen), message);
      ghost var pad, w := Pkcs5(blockLen, currentBlockLen), Whole(blockLen, message);
      block := block[..currentBlockLen] + Pkcs5(blockLen, currentBlockLen) + block[blockLen..];
      assert block[..blockLen] == Rest(blockLen, message) + pad;
      assert w + (Rest(blockLen, message) + pad) == message + pad;
      message := w;
      currentBlockLen := 0;
      RestOfBlocks(blockLen, 1, block[..blockLen]);
      AbsorbedBlocks(block[..blockLen]);
      Update(block[..blockLen], mallocOk);
    }

    /** crypto_cbc_mac_final() */
    method Final(digestLen: nat, mallocOk: bool) returns (res: TeeResult, out: Octets)
      requires Valid()
      modifies this
      ensures pkcs5Pad ==> res == Success
      ensures !pkcs5Pad ==> (res == Success <==> |old(message)| > 0 && |old(message)| % blockLen == 0)
      ensures res == Success ==> out == Mac(e, blockLen, pkcs5Pad, old(message))[..if digestLen <= blockLen then digestLen else blockLen]
    {
      hide Fold, Rest, Cbc;
      RestLength(blockLen, message);
      if pkcs5Pad {
        PadLast(mallocOk);
      }
      if !isComputed || currentBlockLen != 0 {
        ShortOrPartial(blockLen, message);
        return BadState, [];
      }
      return Success, digest[..if digestLen <= blockLen then digestLen else blockLen];
    }
  }

  lemma ShortOrPartial(n: nat, s: Octets)
    requires n > 0
    ensures |s| < n ==> |s| % n == |s|
  {
  }

  /** The MAC of a message depends neither on how it is cut, nor on the bundle size, nor on what malloc() answers
      in each call. */
  method MacRun(e: Octets -> Octets, n: nat, pad: bool, bundle: nat, pieces: seq<Octets>, mallocOk: nat -> bool, digestLen: nat)
      returns (res: TeeResult, digest: Octets)
    requires BlockCipher(e, n) && n <= MAX_BLOCK_LEN
    ensures res == Success <==> pad || (|Concat(pieces)| > 0 && |Concat(pieces)| % n == 0)
    ensures res == Success ==> digest == Mac(e, n, pad, Concat(pieces))[..if digestLen <= n then digestLen else n]
  {
    hide Mac;
    var ctx := new Context(e, n, pad, bundle);
    assert pieces[..0] == [];
    for k := 0 to |pieces|
      invariant ctx.Valid() && ctx.message == Concat(pieces[..k])
    {
      assert pieces[..k + 1][..k] == pieces[..k];
      ctx.Update(pieces[k], mallocOk(k));
    }
    assert pieces[..|pieces|] == pieces;
    res, digest := ctx.Final(digestLen, mallocOk(|pieces|));
  }
}
