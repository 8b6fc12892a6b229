/** Galois/Counter Mode as NIST SP 800-38D defines it, over a block cipher E under a fixed key. */
module GcmSpec {
  import opened Arithmetic
  import opened Bytes
  import opened BigEndian
  import opened GfWords

  // ---------- GHASH, section 6.4 ----------

  /** The whole blocks of s folded into y; a trailing partial block is ignored. */
  function Ghash(h: Block, y: Block, s: seq<bv8>): Block
    decreases |s|
  {
    if |s| < 16 then y else Ghash(h, BlockMul(Xor(y, s[..16]), h), s[16..])
  }

  lemma {:induction false} GhashAppend(h: Block, y: Block, s: seq<bv8>, t: seq<bv8>)
    requires |s| % 16 == 0
    ensures Ghash(h, y, s + t) == Ghash(h, Ghash(h, y, s), t)
    decreases |s|
  {
    hide BlockMul;
    if s == [] {
      assert s + t == t;
    } else {
      assert (s + t)[..16] == s[..16] && (s + t)[16..] == s[16..] + t;
      GhashAppend(h, BlockMul(Xor(y, s[..16]), h), s[16..], t);
    }
  }

  lemma GhashBlock(h: Block, y: Block, s: seq<bv8>, b: Block)
    requires |s| % 16 == 0
    ensures Ghash(h, y, s + b) == BlockMul(Xor(Ghash(h, y, s), b), h)
  {
    hide BlockMul;
    GhashAppend(h, y, s, b);
    assert b[..16] == b && b[16..] == [];
  }

  // ---------- padding ----------

  function PadLen(n: nat): nat {
    (16 - n % 16) % 16
  }

  function Pad(s: seq<bv8>): (r: seq<bv8>)
    ensures |r| % 16 == 0 && s <= r
  {
    s + Zeros(PadLen(|s|))
  }

  // ---------- counters ----------

  /** inc32 applied k times (section 6.2): the first 96 bits never change. */
  function Inc32(b: Block, k: nat): Block {
    b[..12] + ToBe((FromBe(b[12..]) + k) % TWO32, 4)
  }

  /** GCTR, section 6.5, byte by byte. */
  function Gctr(e: Block -> Block, icb: Block, x: seq<bv8>): (r: seq<bv8>)
    ensures |r| == |x|
  {
    seq(|x|, i requires 0 <= i < |x| => x[i] ^ e(Inc32(icb, i / 16))[i % 16])
  }

  function Len64(n: nat): (r: seq<bv8>)
    ensures |r| == 8
  {
    ToBe(8 * n, 8)
  }

  /** The pre-counter block, section 7.1 step 2. */
  function J0(e: Block -> Block, iv: seq<bv8>): Block {
    if |iv| == 12 then iv + [0, 0, 0, 1]
    else Ghash(e(ZERO_BLOCK), ZERO_BLOCK, Pad(iv) + Zeros(8) + Len64(|iv|))
  }

  /** The full tag of a ciphertext, section 7.1 steps 4 to 6 before truncation. */
  function Tag(e: Block -> Block, iv: seq<bv8>, aad: seq<bv8>, c: seq<bv8>): Block {
    Xor(e(J0(e, iv)), Ghash(e(ZERO_BLOCK), ZERO_BLOCK, Pad(aad) + Pad(c) + Len64(|aad|) + Len64(|c|)))
  }

  function Ciphertext(e: Block -> Block, iv: seq<bv8>, p: seq<bv8>): seq<bv8> {
    Gctr(e, Inc32(J0(e, iv), 1), p)
  }
}

/** What the code computes: the same mode with a 128-bit counter and 32-bit lengths. */
module GcmCode {
  import opened Arithmetic
  import opened Bytes
  import opened BigEndian
  import opened GfWords
  import opened GcmSpec

  datatype Mode = Encrypt | Decrypt

  datatype TeeResult = Success | BadParameters | ShortBuffer | MacInvalid

  /** The counter block of counter n. */
  function Counter(n: nat): Block {
    ToBe(n % TWO128, 16)
  }

  /** Byte i of the key stream that starts at counter c. */
  function KeyByte(e: Block -> Block, c: nat, i: nat): bv8 {
    e(Counter(c + i / 16))[i % 16]
  }

  /** x under the key stream of c from byte `from` on. */
  function Crypt(e: Block -> Block, c: nat, from: nat, x: seq<bv8>): (r: seq<bv8>)
    ensures |r| == |x|
  {
    seq(|x|, i requires 0 <= i < |x| => KeyByte(e, c, from + i) ^ x[i])
  }

  /** The length field: 8 * len in 32 bits, then widened to 64. */
  function CodeLen(n: nat): (r: seq<bv8>)
    ensures |r| == 8
  {
    ToBe(n % TWO32 * 8 % TWO32, 8)
  }

  function CodeJ0(e: Block -> Block, nonce: seq<bv8>): Block {
    if |nonce| == 12 then nonce + [0, 0, 0, 1]
    else Ghash(e(ZERO_BLOCK), ZERO_BLOCK, Pad(nonce) + CodeLen(0) + CodeLen(|nonce|))
  }

  function FirstCounter(e: Block -> Block, nonce: seq<bv8>): nat {
    FromBe(CodeJ0(e, nonce)) + 1
  }

  /** The tag of a GHASH input stream with the given byte counts. */
  function CodeTag(e: Block -> Block, nonce: seq<bv8>, hashed: seq<bv8>, aadLen: nat, payloadLen: nat): Block {
    Xor(e(CodeJ0(e, nonce)),
        Ghash(e(ZERO_BLOCK), ZERO_BLOCK, Pad(hashed) + CodeLen(aadLen) + CodeLen(payloadLen)))
  }

  lemma CryptSplit(e: Block -> Block, c: nat, from: nat, x: seq<bv8>, y: seq<bv8>)
    ensures Crypt(e, c, from, x + y) == Crypt(e, c, from, x) + Crypt(e, c, from + |x|, y)
  {
    var r := Crypt(e, c, from, x) + Crypt(e, c, from + |x|, y);
    forall i | 0 <= i < |x + y|
      ensures Crypt(e, c, from, x + y)[i] == r[i]
    {
      if |x| <= i {
        assert from + i == from + |x| + (i - |x|);
      }
    }
  }

  // ---------- the partially filled hash buffer ----------

  /** y is the hash of the whole blocks of s, and buf holds the rest. */
  ghost predicate Hashed(h: Block, y: Block, buf: Block, pos: nat, s: seq<bv8>) {
    pos == |s| % 16 && y == Ghash(h, ZERO_BLOCK, s[..|s| - pos]) && buf[..pos] == s[|s| - pos..]
  }

  lemma HashedPos(h: Block, y: Block, buf: Block, pos: nat, s: seq<bv8>)
    requires Hashed(h, y, buf, pos, s)
    ensures pos < 16 && pos == |s| % 16
  {
  }

  lemma HashedWhole(h: Block, y: Block, buf: Block, pos: nat, s: seq<bv8>)
    requires Hashed(h, y, buf, pos, s)
    ensures pos == 0 ==> y == Ghash(h, ZERO_BLOCK, s)
    ensures pos > 0 ==> Ghash(h, y, buf[..pos] + Zeros(16 - pos)) == Ghash(h, ZERO_BLOCK, Pad(s))
  {
    hide BlockMul, Ghash;
    if pos == 0 {
      assert s[..|s| - 0] == s;
    } else {
      HashedPad(h, y, buf, pos, s, buf);
      assert Pad(s)[..|Pad(s)| - 0] == Pad(s);
    }
  }

  lemma HashedNil(h: Block)
    ensures Hashed(h, ZERO_BLOCK, ZERO_BLOCK, 0, [])
  {
  }

  lemma HashedFill(h: Block, y: Block, buf: Block, pos: nat, s: seq<bv8>, piece: seq<bv8>, buf': Block)
    requires Hashed(h, y, buf, pos, s) && pos + |piece| < 16 && buf'[..pos + |piece|] == buf[..pos] + piece
    ensures Hashed(h, y, buf', pos + |piece|, s + piece)
  {
    hide BlockMul, Ghash;
    SameBlock(|s|, |piece|);
    var t := s + piece;
    assert t[..|t| - (pos + |piece|)] == s[..|s| - pos];
    assert t[|t| - (pos + |piece|)..] == s[|s| - pos..] + piece;
  }

  lemma HashedComplete(h: Block, y: Block, buf: Block, pos: nat, s: seq<bv8>, piece: seq<bv8>, buf': Block, any: Block)
    requires Hashed(h, y, buf, pos, s) && pos + |piece| == 16 && buf' == buf[..pos] + piece
    ensures Hashed(h, Ghash(h, y, buf'), any, 0, s + piece)
  {
    hide BlockMul, Ghash;
    NextBlock(|s|, |piece|);
    var t := s + piece;
    assert t[..|t| - 0] == s[..|s| - pos] + buf';
    GhashAppend(h, ZERO_BLOCK, s[..|s| - pos], buf');
  }

  lemma HashedBlocks(h: Block, y: Block, buf: Block, s: seq<bv8>, blocks: seq<bv8>)
    requires Hashed(h, y, buf, 0, s) && |blocks| % 16 == 0
    ensures Hashed(h, Ghash(h, y, blocks), buf, 0, s + blocks)
  {
    hide BlockMul, Ghash;
    WholeBlocks(|s|, |blocks|);
    var t := s + blocks;
    assert s[..|s| - 0] == s && t[..|t| - 0] == t;
    GhashAppend(h, ZERO_BLOCK, s, blocks);
  }

  lemma HashedCompleteBlocks(h: Block, y: Block, buf: Block, pos: nat, s: seq<bv8>, piece: seq<bv8>, buf': Block, blocks: seq<bv8>)
    requires Hashed(h, y, buf, pos, s) && pos + |piece| == 16 && buf' == buf[..pos] + piece && |blocks| % 16 == 0
    ensures Hashed(h, Ghash(h, y, buf' + blocks), buf', 0, s + (piece + blocks))
  {
    hide BlockMul, Ghash;
    HashedComplete(h, y, buf, pos, s, piece, buf', buf');
    HashedBlocks(h, Ghash(h, y, buf'), buf', s + piece, blocks);
    GhashAppend(h, y, buf', blocks);
    assert s + piece + blocks == s + (piece + blocks);
  }

  lemma HashedPad(h: Block, y: Block, buf: Block, pos: nat, s: seq<bv8>, any: Block)
    requires Hashed(h, y, buf, pos, s)
    ensures pos > 0 ==> Hashed(h, Ghash(h, y, buf[..pos] + Zeros(16 - pos)), any, 0, Pad(s))
    ensures pos == 0 ==> Pad(s) == s
  {
    hide BlockMul, Ghash;
    if pos > 0 {
      HashedComplete(h, y, buf, pos, s, Zeros(16 - pos), buf[..pos] + Zeros(16 - pos), any);
    }
  }

  // ---------- the key stream buffer ----------

  /** buf holds the unused part of the key stream block that byte `done` falls in. */
  ghost predicate Stream(e: Block -> Block, c: nat, done: nat, buf: Block) {
    forall i | done % 16 <= i < 16 :: buf[i] == e(Counter(c + done / 16))[i]
  }

  /** Encryption keeps the key stream one block ahead of the counter; decryption does not. */
  ghost predicate KeyReady(mode: Mode, e: Block -> Block, c: nat, done: nat, buf: Block, ctr: nat) {
    match mode
    case Encrypt => ctr == (c + done / 16 + 1) % TWO128 && Stream(e, c, done, buf)
    case Decrypt => ctr == (c + done / 16) % TWO128 && (done % 16 > 0 ==> Stream(e, c, done, buf))
  }

  lemma CounterMod(n: nat)
    ensures Counter(n % TWO128) == Counter(n)
  {
    hide ToBe;
  }

  lemma IncMod(n: nat)
    ensures (n % TWO128 + 1) % TWO128 == (n + 1) % TWO128
  {
  }

  /** Encrypting the counter gives the key stream block of byte `done`, in decryption when it is needed. */
  lemma StreamStart(e: Block -> Block, c: nat, done: nat, ctr: nat)
    requires ctr == (c + done / 16) % TWO128
    ensures Stream(e, c, done, e(Counter(ctr)))
  {
    hide Counter;
    CounterMod(c + done / 16);
  }

  /** n more bytes of the block are used, and it is not used up. */
  lemma KeyPartial(mode: Mode, e: Block -> Block, c: nat, done: nat, buf: Block, ctr: nat, n: nat, buf': Block)
    requires Stream(e, c, done, buf) && done % 16 + n < 16
    requires ctr == (c + done / 16 + if mode == Encrypt then 1 else 0) % TWO128
    requires buf'[done % 16 + n..] == buf[done % 16 + n..]
    ensures KeyReady(mode, e, c, done + n, buf', ctr)
  {
    hide Counter;
    SameBlock(done, n);
    forall i | done % 16 + n <= i < 16
      ensures buf'[i] == buf[i]
    {
      assert buf'[i] == buf'[done % 16 + n..][i - (done % 16 + n)];
    }
  }

  /** The block is used up: encryption prepares the next one, decryption only counts. */
  lemma KeyFinish(mode: Mode, e: Block -> Block, c: nat, done: nat, ctr: nat, n: nat, buf': Block)
    requires done % 16 + n == 16
    requires ctr == (c + done / 16 + if mode == Encrypt then 1 else 0) % TWO128
    requires mode == Encrypt ==> buf' == e(Counter(ctr))
    ensures KeyReady(mode, e, c, done + n, buf', (ctr + 1) % TWO128)
  {
    hide Counter;
    NextBlock(done, n);
    IncMod(c + done / 16 + if mode == Encrypt then 1 else 0);
    if mode == Encrypt {
      StreamStart(e, c, done + n, ctr);
    }
  }

  lemma StreamByte(e: Block -> Block, c: nat, done: nat, buf: Block, i: nat)
    requires Stream(e, c, done, buf) && done % 16 + i < 16
    ensures buf[done % 16 + i] == KeyByte(e, c, done + i)
  {
    hide Counter;
    SameBlock(done, i);
  }

  lemma CryptPiece(e: Block -> Block, c: nat, done: nat, buf: Block, x: seq<bv8>)
    requires Stream(e, c, done, buf) && done % 16 + |x| <= 16
    ensures Xor(buf[done % 16..done % 16 + |x|], x) == Crypt(e, c, done, x)
  {
    hide Counter, Stream, KeyByte;
    forall i | 0 <= i < |x|
      ensures Xor(buf[done % 16..done % 16 + |x|], x)[i] == Crypt(e, c, done, x)[i]
    {
      StreamByte(e, c, done, buf, i);
    }
  }

  lemma WholeBlocks(m: nat, n: nat)
    requires m % 16 == 0 && n % 16 == 0
    ensures (m + n) % 16 == 0 && (m + n) / 16 == m / 16 + n / 16
  {
  }

  lemma SameBlock(n: nat, i: nat)
    requires n % 16 + i < 16
    ensures (n + i) / 16 == n / 16 && (n + i) % 16 == n % 16 + i
  {
  }

  lemma NextBlock(n: nat, i: nat)
    requires n % 16 + i == 16
    ensures (n + i) / 16 == n / 16 + 1 && (n + i) % 16 == 0
  {
  }
}
