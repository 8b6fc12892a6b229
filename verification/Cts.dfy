/** AES-CTS (core/crypto/aes-cts.c): CBC-CS3 of the Addendum to NIST SP 800-38A. */
module Cts {
  import opened Bytes
  import opened BlockModes

  // ---------- the mode ----------

  /** The number of whole blocks before the last, possibly partial, one. */
  function Before(n: nat): (m: nat)
    requires n > 16
    ensures m >= 1 && 16 * m < n <= 16 * m + 16
  {
    (n - 1) / 16
  }

  function PadZero(s: seq<bv8>): Block
    requires |s| <= 16
  {
    s + Zeros(16 - |s|)
  }

  function Padded(p: seq<bv8>, m: nat): (r: seq<bv8>)
    requires 16 * m < |p| <= 16 * m + 16
    ensures |r| == 16 * m + 16
  {
    p[..16 * m] + PadZero(p[16 * m..])
  }

  /** The last two of m + 1 blocks swapped, and the result cut to n bytes. */
  function Swap(c: seq<bv8>, m: nat, n: nat): (r: seq<bv8>)
    requires m >= 1 && |c| == 16 * m + 16 && 16 * m < n <= 16 * m + 16
    ensures |r| == n
  {
    c[..16 * m - 16] + c[16 * m..] + c[16 * m - 16..n - 16]
  }

  /** Pad with zeros, CBC, swap the last two blocks, truncate. */
  function Encrypt(e: Block -> Block, iv: Block, p: seq<bv8>): (c: seq<bv8>)
    requires |p| > 16
    ensures |c| == |p|
  {
    var m := Before(|p|);
    Swap(CbcEnc(e, iv, Padded(p, m)), m, |p|)
  }

  /** The blocks of a ciphertext before they were swapped and cut. */
  function Unswap(d: Block -> Block, c: seq<bv8>, m: nat): (r: seq<bv8>)
    requires m >= 1 && 16 * m < |c| <= 16 * m + 16
    ensures |r| == 16 * m + 16
  {
    var full: Block := c[16 * m - 16..16 * m];
    c[..16 * m - 16] + (c[16 * m..] + d(full)[|c| - 16 * m..]) + full
  }

  /** Complete the last block from the decryption of the one before it, swap, CBC, truncate. */
  function Decrypt(d: Block -> Block, iv: Block, c: seq<bv8>): (p: seq<bv8>)
    requires |c| > 16
    ensures |p| == |c|
  {
    CbcDec(d, iv, Unswap(d, c, Before(|c|)))[..|c|]
  }

  /** The ciphertext by its parts: CBC of the plaintext padded with zeros, the last two blocks swapped, cut. */
  lemma EncryptIs(e: Block -> Block, iv: Block, p: seq<bv8>, m: nat)
    requires m >= 1 && 16 * m < |p| <= 16 * m + 16
    ensures var r := CbcEnc(e, iv, p + Zeros(16 * m + 16 - |p|));
            var c := Encrypt(e, iv, p);
            && c[..16 * m - 16] == r[..16 * m - 16] && c[16 * m - 16..16 * m] == r[16 * m..]
            && c[16 * m..] == r[16 * m - 16..|p| - 16]
  {
    hide CbcEnc, Before;
    BeforeIs(|p|, m);
    assert p + Zeros(16 * m + 16 - |p|) == Padded(p, m);
    SwapParts(CbcEnc(e, iv, Padded(p, m)), m, |p|);
  }

  /** The plaintext by its parts: the last block is completed from the decryption of the one before it. */
  lemma DecryptIs(d: Block -> Block, iv: Block, c: seq<bv8>, m: nat, full: Block, last: Block)
    requires m >= 1 && 16 * m < |c| <= 16 * m + 16
    requires full == c[16 * m - 16..16 * m] && last == c[16 * m..] + d(full)[|c| - 16 * m..]
    ensures Decrypt(d, iv, c) == CbcDec(d, iv, c[..16 * m - 16] + last + full)[..|c|]
  {
    hide CbcDec, Before;
    BeforeIs(|c|, m);
  }

  lemma XorZeroTail(s: seq<bv8>, b: Block)
    requires |s| <= 16
    ensures Xor(PadZero(s), b)[|s|..] == b[|s|..]
  {
    forall i | |s| <= i < 16
      ensures Xor(PadZero(s), b)[i] == b[i]
    {
      assert 0 ^ b[i] == b[i];
    }
  }

  /** The last block of a CBC encryption decrypts to its plaintext masked by the block before. */
  lemma LastBlocks(e: Block -> Block, iv: Block, s: seq<bv8>, b: Block)
    requires |s| % 16 == 0 && |s| > 0
    ensures var c := CbcEnc(e, iv, s + b);
            |c| == |s| + 16 && c[|s|..] == e(Xor(b, c[|s| - 16..|s|]))
  {
    CbcEncAppend(e, iv, s, b);
    var c := CbcEnc(e, iv, s);
    CbcEncBlock(e, Chain(iv, c), b);
    var r := CbcEnc(e, iv, s + b);
    assert r[|s| - 16..|s|] == c[|s| - 16..];
  }

  lemma SwapParts(c: seq<bv8>, m: nat, n: nat)
    requires m >= 1 && |c| == 16 * m + 16 && 16 * m < n <= 16 * m + 16
    ensures var s := Swap(c, m, n);
            s[..16 * m - 16] == c[..16 * m - 16] && s[16 * m - 16..16 * m] == c[16 * m..] && s[16 * m..] == c[16 * m - 16..n - 16]
  {
  }

  lemma UnswapIs(d: Block -> Block, c: seq<bv8>, m: nat, full: Block)
    requires m >= 1 && 16 * m < |c| <= 16 * m + 16 && full == c[16 * m - 16..16 * m]
    ensures Unswap(d, c, m) == c[..16 * m - 16] + (c[16 * m..] + d(full)[|c| - 16 * m..]) + full
  {
  }

  /** The tail of the last block that was cut off is in the decryption of the other. */
  lemma UnswapSwap(d: Block -> Block, r: seq<bv8>, m: nat, n: nat, cm: Block, cl: Block)
    requires m >= 1 && |r| == 16 * m + 16 && 16 * m < n <= 16 * m + 16
    requires cm == r[16 * m - 16..16 * m] && cl == r[16 * m..] && d(cl)[n - 16 * m..] == cm[n - 16 * m..]
    ensures Unswap(d, Swap(r, m, n), m) == r
  {
    hide Swap, Unswap;
    SwapParts(r, m, n);
    UnswapIs(d, Swap(r, m, n), m, cl);
    var k := n - 16 * m;
    assert r[16 * m - 16..n - 16] == cm[..k];
    assert cm[..k] + cm[k..] == cm;
    assert r[..16 * m - 16] + cm + cl == r;
  }

  /** CTS decryption undoes encryption at every length above one block, over any block permutation. */
  lemma RoundTrip(e: Block -> Block, d: Block -> Block, iv: Block, p: seq<bv8>)
    requires |p| > 16 && Undoes(d, e)
    ensures Decrypt(d, iv, Encrypt(e, iv, p)) == p
  {
    hide CbcEnc, CbcDec, Xor, Swap, Unswap;
    var m := Before(|p|);
    var last := PadZero(p[16 * m..]);
    var x := Padded(p, m);
    var r := CbcEnc(e, iv, x);
    var cm: Block, cl: Block := r[16 * m - 16..16 * m], r[16 * m..];
    LastBlocks(e, iv, p[..16 * m], last);
    assert d(cl) == Xor(last, cm);
    XorZeroTail(p[16 * m..], cm);
    UnswapSwap(d, r, m, |p|, cm, cl);
    CbcRoundTrip(e, d, iv, x);
    assert x[..|p|] == p;
  }

  lemma BeforeIs(n: nat, m: nat)
    requires n > 16 && 16 * m < n <= 16 * m + 16
    ensures Before(n) == m
  {
  }

  lemma SwapAppend(a: seq<bv8>, c: seq<bv8>, j: nat, m: nat, n: nat)
    requires m >= 1 && |a| == 16 * j && |c| == 16 * m + 16 && 16 * m < n <= 16 * m + 16
    ensures Swap(a + c, j + m, 16 * j + n) == a + Swap(c, m, n)
  {
    var x, y, z := c[..16 * m - 16], c[16 * m..], c[16 * m - 16..n - 16];
    SliceAppend(a, c, 16 * m, |c|);
    SliceAppend(a, c, 16 * m - 16, n - 16);
    assert (a + c)[..16 * (j + m) - 16] == a + x;
    assert a + x + y + z == a + (x + y + z);
  }

  lemma SliceAppend(a: seq<bv8>, c: seq<bv8>, i: nat, j: nat)
    requires i <= j <= |c|
    ensures (a + c)[|a| + i..|a| + j] == c[i..j]
  {
  }

  lemma PaddedAppend(a: seq<bv8>, b: seq<bv8>, j: nat, m: nat)
    requires |a| == 16 * j && 16 * m < |b| <= 16 * m + 16
    ensures Padded(a + b, j + m) == a + Padded(b, m)
  {
    var s := a + b;
    assert s[16 * (j + m)..] == b[16 * m..] && s[..16 * (j + m)] == a + b[..16 * m];
  }

  lemma EncryptAt(e: Block -> Block, iv: Block, p: seq<bv8>, m: nat)
    requires m >= 1 && 16 * m < |p| <= 16 * m + 16
    ensures Encrypt(e, iv, p) == Swap(CbcEnc(e, iv, Padded(p, m)), m, |p|)
  {
    hide CbcEnc, Swap, Padded;
    BeforeIs(|p|, m);
  }

  lemma DecryptAt(d: Block -> Block, iv: Block, c: seq<bv8>, m: nat)
    requires m >= 1 && 16 * m < |c| <= 16 * m + 16
    ensures Decrypt(d, iv, c) == CbcDec(d, iv, Unswap(d, c, m))[..|c|]
  {
    hide CbcDec, Unswap;
    BeforeIs(|c|, m);
  }

  /** Whole blocks a in a call that is not the last, then b in the last call, give a + b in one. */
  lemma EncryptAppend(e: Block -> Block, iv: Block, a: seq<bv8>, b: seq<bv8>)
    requires |a| % 16 == 0 && |b| > 16
    ensures Encrypt(e, iv, a + b) == CbcEnc(e, iv, a) + Encrypt(e, Chain(iv, CbcEnc(e, iv, a)), b)
  {
    hide CbcEnc, Swap, Padded, Encrypt, Chain;
    var m, j := Before(|b|), |a| / 16;
    var c := CbcEnc(e, iv, a);
    var next := Chain(iv, c);
    EncryptAt(e, iv, a + b, j + m);
    EncryptAt(e, next, b, m);
    PaddedAppend(a, b, j, m);
    CbcEncAppend(e, iv, a, Padded(b, m));
    SwapAppend(c, CbcEnc(e, next, Padded(b, m)), j, m, |b|);
  }

  lemma UnswapAppend(d: Block -> Block, a: seq<bv8>, b: seq<bv8>, j: nat, m: nat)
    requires m >= 1 && |a| == 16 * j && 16 * m < |b| <= 16 * m + 16
    ensures Unswap(d, a + b, j + m) == a + Unswap(d, b, m)
  {
    var s := a + b;
    assert s[16 * (j + m) - 16..16 * (j + m)] == b[16 * m - 16..16 * m] && s[16 * (j + m)..] == b[16 * m..];
    assert s[..16 * (j + m) - 16] == a + b[..16 * m - 16];
  }

  lemma DecryptAppend(d: Block -> Block, iv: Block, a: seq<bv8>, b: seq<bv8>)
    requires |a| % 16 == 0 && |b| > 16
    ensures Decrypt(d, iv, a + b) == CbcDec(d, iv, a) + Decrypt(d, Chain(iv, a), b)
  {
    hide CbcDec, Unswap, Decrypt, Chain;
    var m, j := Before(|b|), |a| / 16;
    DecryptAt(d, iv, a + b, j + m);
    DecryptAt(d, Chain(iv, a), b, m);
    UnswapAppend(d, a, b, j, m);
    CbcDecAppend(d, iv, a, Unswap(d, b, m));
    TakeAppend(CbcDec(d, iv, a), CbcDec(d, Chain(iv, a), Unswap(d, b, m)), |b|);
  }

  lemma TakeAppend(x: seq<bv8>, y: seq<bv8>, n: nat)
    requires n <= |y|
    ensures (x + y)[..|x| + n] == x + y[..n]
  {
  }

  // ---------- the code ----------

  datatype Mode = ModeEncrypt | ModeDecrypt

  datatype TeeResult = Success | BadParameters | BadState

  /** struct cts_ctx: a CBC context with its chaining value, and an ECB context. */
  class Context {
    const e: Block -> Block
    const d: Block -> Block
    const mode: Mode
    var iv: Block

    constructor (e: Block -> Block, d: Block -> Block, mode: Mode, iv: Block)
      ensures this.e == e && this.d == d && this.mode == mode && this.iv == iv
    {
      this.e, this.d, this.mode, this.iv := e, d, mode, iv;
    }

    /** What CBC makes of whole blocks, and the chaining value afterwards. */
    ghost function Cbc(iv: Block, data: seq<bv8>): (r: seq<bv8>)
      requires |data| % 16 == 0
      ensures |r| == |data|
    {
      if mode == ModeEncrypt then CbcEnc(e, iv, data) else CbcDec(d, iv, data)
    }

    ghost function After(iv: Block, data: seq<bv8>): Block
      requires |data| % 16 == 0
    {
      if mode == ModeEncrypt then Chain(iv, CbcEnc(e, iv, data)) else Chain(iv, data)
    }

    /** tee_do_cipher_update() on the CBC context: whole blocks only. */
    method CbcUpdate(data: seq<bv8>, dst: array<bv8>, off: nat) returns (res: TeeResult)
      requires off + |data| <= dst.Length
      modifies `iv, dst
      ensures |data| % 16 != 0 ==> res == BadParameters && iv == old(iv) && dst[..] == old(dst[..])
      ensures |data| % 16 == 0 ==> res == Success && iv == After(old(iv), data)
      ensures |data| % 16 == 0 ==> dst[..off + |data|] == old(dst[..off]) + Cbc(old(iv), data)
      ensures |data| % 16 == 0 ==> dst[off + |data|..] == old(dst[off + |data|..])
    {
      hide CbcEnc, CbcDec;
      if |data| % 16 != 0 {
        return BadParameters;
      }
      var out := if mode == ModeEncrypt then CbcEnc(e, iv, data) else CbcDec(d, iv, data);
      Write(dst, off, out);
      iv := Chain(iv, if mode == ModeEncrypt then out else data);
      return Success;
    }

    /** cbc_cts_update() */
    method Update(last: bool, data: seq<bv8>, dst: array<bv8>) returns (res: TeeResult)
      requires dst.Length == |data|
      modifies `iv, dst
      ensures !last && |data| % 16 != 0 ==> res == BadParameters && iv == old(iv) && dst[..] == old(dst[..])
      ensures !last && |data| % 16 == 0 ==> res == Success && iv == After(old(iv), data) && dst[..] == Cbc(old(iv), data)
      ensures last && |data| <= 16 ==> res == BadState && iv == old(iv) && dst[..] == old(dst[..])
      ensures last && |data| > 16 ==> res == Success
      ensures last && |data| > 16 && mode == ModeEncrypt ==> dst[..] == Encrypt(e, old(iv), data)
      ensures last && |data| > 16 && mode == ModeDecrypt ==> dst[..] == Decrypt(d, old(iv), data)
    {
      hide Encrypt, Decrypt, CbcEnc, CbcDec;
      if !last {
        res := CbcUpdate(data, dst, 0);
        assert dst[..0 + |data|] == dst[..];
        return;
      }
      var nbBlocks := (|data| + 15) / 16;
      if nbBlocks < 2 {
        return BadState;
      }
      var lenLast := if |data| % 16 == 0 then 16 else |data| % 16;
      assert |data| == 16 * (nbBlocks - 1) + lenLast;
      if mode == ModeEncrypt {
        EncryptTail(data, dst, nbBlocks, lenLast);
      } else {
        DecryptTail(data, dst, nbBlocks, lenLast);
      }
      return Success;
    }

    /** The encrypting branch: the next to last block is copied to the end before it is overwritten. */
    method EncryptTail(data: seq<bv8>, dst: array<bv8>, nbBlocks: nat, lenLast: nat)
      requires nbBlocks >= 2 && 0 < lenLast <= 16 && |data| == 16 * (nbBlocks - 1) + lenLast == dst.Length
      requires mode == ModeEncrypt
      modifies `iv, dst
      ensures dst[..] == Encrypt(e, old(iv), data)
    {
      hide CbcEnc, CbcDec, Encrypt, Chain;
      var at := 16 * (nbBlocks - 1);
      EncryptParts(e, iv, data, nbBlocks - 1);
      var tmp := PadZero(data[at..]);
      EncryptHead(data, dst, nbBlocks, lenLast);
      var res := CbcUpdate(tmp, dst, at - 16);
      assert dst[..] == dst[..at] + dst[at..];
    }

    /** The blocks before the last, and the copy of the part that is stolen. */
    method EncryptHead(data: seq<bv8>, dst: array<bv8>, nbBlocks: nat, lenLast: nat)
      requires nbBlocks >= 2 && 0 < lenLast <= 16 && |data| == 16 * (nbBlocks - 1) + lenLast == dst.Length
      requires mode == ModeEncrypt
      modifies `iv, dst
      ensures var at := 16 * (nbBlocks - 1);
              var head := CbcEnc(e, old(iv), data[..at]);
              && iv == Chain(old(iv), head) && dst[..at - 16] == head[..at - 16]
              && dst[at..] == head[at - 16..at - 16 + lenLast]
    {
      hide CbcEnc, CbcDec, Chain;
      var at := 16 * (nbBlocks - 1);
      ghost var head := CbcEnc(e, iv, data[..at]);
      var res := CbcUpdate(data[..at], dst, 0);
      assert dst[..0] + head == head;
      assert dst[..at] == head;
      var stolen := dst[..at][at - 16..at - 16 + lenLast];
      Write(dst, at, stolen);
      assert dst[..at - 16] == dst[..at][..at - 16];
      assert dst[at..] == dst[at..at + lenLast];
    }

    /** The decrypting branch: the two last blocks go through CBC in swapped order. */
    method DecryptTail(data: seq<bv8>, dst: array<bv8>, nbBlocks: nat, lenLast: nat)
      requires nbBlocks >= 2 && 0 < lenLast <= 16 && |data| == 16 * (nbBlocks - 1) + lenLast == dst.Length
      requires mode == ModeDecrypt
      modifies `iv, dst
      ensures dst[..] == Decrypt(d, old(iv), data)
    {
      hide CbcEnc, CbcDec, Decrypt, Chain;
      var at := 16 * (nbBlocks - 1);
      DecryptParts(d, iv, data, nbBlocks - 1);
      var full: Block := data[at - 16..at];
      var tmp2 := d(full);
      var tmp: Block := data[at..] + tmp2[lenLast..];
      DecryptHead(data, dst, nbBlocks, tmp);
      var buf := new bv8[16];
      var res := CbcUpdate(full, buf, 0);
      assert buf[..] == CbcDec(d, tmp, full);
      Write(dst, at, buf[..lenLast]);
      assert dst[..] == dst[..at + lenLast];
    }

    /** Everything up to the next to last block. */
    method DecryptHead(data: seq<bv8>, dst: array<bv8>, nbBlocks: nat, tmp: Block)
      requires nbBlocks >= 2 && |data| >= 16 * (nbBlocks - 1) && dst.Length >= 16 * (nbBlocks - 1) && mode == ModeDecrypt
      modifies `iv, dst
      ensures var at := 16 * (nbBlocks - 1);
              iv == tmp && dst[..at] == CbcDec(d, old(iv), data[..at - 16]) + CbcDec(d, Chain(old(iv), data[..at - 16]), tmp)
    {
      hide CbcEnc, CbcDec, Chain;
      var at := 16 * (nbBlocks - 1);
      var res;
      CbcNil(d, iv);
      if nbBlocks > 2 {
        res := CbcUpdate(data[..at - 16], dst, 0);
      }
      assert dst[..at - 16] == CbcDec(d, old(iv), data[..at - 16]) && iv == Chain(old(iv), data[..at - 16]);
      res := CbcUpdate(tmp, dst, at - 16);
      ChainBlock(Chain(old(iv), data[..at - 16]), tmp);
    }
  }

  /** Encryption in the order in which the code produces its parts. */
  lemma EncryptParts(e: Block -> Block, iv: Block, p: seq<bv8>, m: nat)
    requires m >= 1 && 16 * m < |p| <= 16 * m + 16
    ensures var head := CbcEnc(e, iv, p[..16 * m]);
            var tail := CbcEnc(e, Chain(iv, head), PadZero(p[16 * m..]));
            Encrypt(e, iv, p) == head[..16 * m - 16] + tail + head[16 * m - 16..|p| - 16]
  {
    hide CbcEnc, PadZero, Before;
    BeforeIs(|p|, m);
    CbcEncAppend(e, iv, p[..16 * m], PadZero(p[16 * m..]));
    var head := CbcEnc(e, iv, p[..16 * m]);
    var c := head + CbcEnc(e, Chain(iv, head), PadZero(p[16 * m..]));
    assert c[16 * m - 16..|p| - 16] == head[16 * m - 16..|p| - 16];
  }

  lemma DecryptParts(d: Block -> Block, iv: Block, c: seq<bv8>, m: nat)
    requires m >= 1 && 16 * m < |c| <= 16 * m + 16
    ensures var full: Block := c[16 * m - 16..16 * m];
            var cn: Block := c[16 * m..] + d(full)[|c| - 16 * m..];
            Decrypt(d, iv, c) == CbcDec(d, iv, c[..16 * m - 16]) + CbcDec(d, Chain(iv, c[..16 * m - 16]), cn)
                                 + CbcDec(d, cn, full)[..|c| - 16 * m]
  {
    hide CbcDec, Before;
    BeforeIs(|c|, m);
    var full: Block := c[16 * m - 16..16 * m];
    var cn: Block := c[16 * m..] + d(full)[|c| - 16 * m..];
    CbcDecAppend(d, iv, c[..16 * m - 16], cn + full);
    CbcDecAppend(d, Chain(iv, c[..16 * m - 16]), cn, full);
    ChainBlock(Chain(iv, c[..16 * m - 16]), cn);
    assert c[..16 * m - 16] + cn + full == c[..16 * m - 16] + (cn + full);
  }

  lemma ChainBlock(iv: Block, b: Block)
    ensures Chain(iv, b) == b
  {
  }

  lemma CbcNil(d: Block -> Block, iv: Block)
    ensures CbcDec(d, iv, []) == [] && Chain(iv, []) == iv
  {
  }

  /** Encrypt with one pair of calls, decrypt with another: the plaintext comes back. */
  method RoundTripRun(e: Block -> Block, d: Block -> Block, iv: Block, a: seq<bv8>, b: seq<bv8>, cut: nat) returns (p: seq<bv8>)
    requires Undoes(d, e) && |a| % 16 == 0 && |b| > 16 && cut % 16 == 0 && cut + 16 < |a| + |b|
    ensures p == a + b
  {
    hide Encrypt, Decrypt, CbcEnc, CbcDec;
    var enc := new Context(e, d, ModeEncrypt, iv);
    var ca, cb := new bv8[|a|], new bv8[|b|];
    var res := enc.Update(false, a, ca);
    res := enc.Update(true, b, cb);
    EncryptAppend(e, iv, a, b);
    var c := ca[..] + cb[..];
    var dec := new Context(e, d, ModeDecrypt, iv);
    var pa, pb := new bv8[cut], new bv8[|c| - cut];
    res := dec.Update(false, c[..cut], pa);
    res := dec.Update(true, c[cut..], pb);
    DecryptAppend(d, iv, c[..cut], c[cut..]);
    assert c[..cut] + c[cut..] == c;
    RoundTrip(e, d, iv, a + b);
    p := pa[..] + pb[..];
  }
}
