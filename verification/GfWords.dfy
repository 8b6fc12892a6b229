/** The bit-by-bit GF(2^128) multiplier of core/crypto/aes-gcm.c, on 64-bit words.

    A uint64_t is the string of its 64 bits, most significant first; every operation the
    code applies to one is a shift, an or, an exclusive or or a mask. */
module GfWords {
  import opened Bytes
  import opened Gf128

  type Word = w: seq<bool> | |w| == 64 witness Falses(64)

  function Shr(w: Word, k: nat): Word
    requires k <= 64
  {
    Falses(k) + w[..64 - k]
  }

  function Shl(w: Word, k: nat): Word
    requires k <= 64
  {
    w[k..] + Falses(k)
  }

  function Or(a: Word, b: Word): Word {
    seq(64, i requires 0 <= i < 64 => a[i] || b[i])
  }

  function XorWord(a: Word, b: Word): Word {
    seq(64, i requires 0 <= i < 64 => a[i] != b[i])
  }

  /** 0xe100000000000000 */
  const E1: Word := [true, true, true, false, false, false, false, true] + Falses(56)

  // ---------- bits and bytes ----------

  function Mask(n: nat): bv8
    requires n < 8
  {
    if n == 0 then 0x80 else if n == 1 then 0x40 else if n == 2 then 0x20 else if n == 3 then 0x10
    else if n == 4 then 0x08 else if n == 5 then 0x04 else if n == 6 then 0x02 else 0x01
  }

  predicate BitAt(s: seq<bv8>, n: nat)
    requires n < 8 * |s|
  {
    s[n / 8] & Mask(n % 8) != 0
  }

  function BitsOf(s: seq<bv8>): (r: seq<bool>)
    ensures |r| == 8 * |s|
  {
    seq(8 * |s|, n requires 0 <= n < 8 * |s| => BitAt(s, n))
  }

  function Pick(b: bool, m: bv8): bv8 {
    if b then m else 0
  }

  function ByteOfBits(b: seq<bool>): bv8
    requires |b| == 8
  {
    Pick(b[0], 0x80) | Pick(b[1], 0x40) | Pick(b[2], 0x20) | Pick(b[3], 0x10) |
    Pick(b[4], 0x08) | Pick(b[5], 0x04) | Pick(b[6], 0x02) | Pick(b[7], 0x01)
  }

  function BytesOf(b: seq<bool>): (r: seq<bv8>)
    requires |b| % 8 == 0
    ensures |r| == |b| / 8
  {
    seq(|b| / 8, k requires 0 <= k < |b| / 8 => ByteOfBits(b[8 * k..8 * k + 8]))
  }

  lemma ByteFromMasks(x: bv8, b: seq<bool>)
    requires |b| == 8 && forall n | 0 <= n < 8 :: b[n] == (x & Mask(n) != 0)
    ensures ByteOfBits(b) == x
  {
    assert b[0] == (x & Mask(0) != 0) && b[1] == (x & Mask(1) != 0) && b[2] == (x & Mask(2) != 0) && b[3] == (x & Mask(3) != 0);
    assert b[4] == (x & Mask(4) != 0) && b[5] == (x & Mask(5) != 0) && b[6] == (x & Mask(6) != 0) && b[7] == (x & Mask(7) != 0);
  }

  lemma BitOfByte(s: seq<bv8>, k: nat, n: nat)
    requires k < |s| && n < 8
    ensures BitsOf(s)[8 * k + n] == (s[k] & Mask(n) != 0)
  {
    assert (8 * k + n) / 8 == k && (8 * k + n) % 8 == n;
  }

  lemma ByteOfBitsOf(s: seq<bv8>, k: nat)
    requires k < |s|
    ensures ByteOfBits(BitsOf(s)[8 * k..8 * k + 8]) == s[k]
  {
    var b := BitsOf(s)[8 * k..8 * k + 8];
    forall n | 0 <= n < 8
      ensures b[n] == (s[k] & Mask(n) != 0)
    {
      BitOfByte(s, k, n);
    }
    ByteFromMasks(s[k], b);
  }

  lemma BytesOfBitsOf(s: seq<bv8>)
    ensures BytesOf(BitsOf(s)) == s
  {
    forall k | 0 <= k < |s|
      ensures BytesOf(BitsOf(s))[k] == s[k]
    {
      ByteOfBitsOf(s, k);
    }
  }

  /** The block product on blocks. */
  function BlockMul(x: Block, y: Block): Block {
    BytesOf(Product(BitsOf(x), BitsOf(y)))
  }

  lemma BlockMulCommutes(x: Block, y: Block)
    ensures BlockMul(x, y) == BlockMul(y, x)
  {
    ProductCommutes(BitsOf(x), BitsOf(y));
  }

  function GetBe64(s: seq<bv8>, at: nat): Word
    requires at + 8 <= |s|
  {
    BitsOf(s[at..at + 8])
  }

  lemma WordsOfBlock(x: Block)
    ensures GetBe64(x, 0) + GetBe64(x, 8) == BitsOf(x)
  {
    var w := GetBe64(x, 0) + GetBe64(x, 8);
    forall n | 0 <= n < 128
      ensures w[n] == BitsOf(x)[n]
    {
      if n < 64 {
        assert w[n] == BitAt(x[0..8], n);
      } else {
        assert w[n] == BitAt(x[8..16], n - 64);
      }
    }
  }

  /** put_be64() twice. */
  function PutBe64s(h: Word, l: Word): Block {
    BytesOf(h) + BytesOf(l)
  }

  lemma SliceOfWords(h: Word, l: Word, k: nat)
    requires k < 16
    ensures k < 8 ==> (h + l)[8 * k..8 * k + 8] == h[8 * k..8 * k + 8]
    ensures 8 <= k ==> (h + l)[8 * k..8 * k + 8] == l[8 * (k - 8)..8 * (k - 8) + 8]
  {
  }

  lemma ByteOfWords(h: Word, l: Word, k: nat)
    requires k < 16
    ensures PutBe64s(h, l)[k] == BytesOf(h + l)[k]
  {
    hide ByteOfBits;
    SliceOfWords(h, l, k);
    if k < 8 {
      assert PutBe64s(h, l)[k] == BytesOf(h)[k];
    } else {
      assert PutBe64s(h, l)[k] == BytesOf(l)[k - 8];
    }
  }

  lemma BlockOfWords(h: Word, l: Word)
    ensures PutBe64s(h, l) == BytesOf(h + l)
  {
    hide ByteOfBits;
    forall k | 0 <= k < 16
      ensures PutBe64s(h, l)[k] == BytesOf(h + l)[k]
    {
      ByteOfWords(h, l, k);
    }
  }

  // ---------- one shift ----------

  function ShiftHigh(h: Word, l: Word): Word {
    XorWord(Shr(h, 1), if l[63] then E1 else Falses(64))
  }

  function ShiftLow(h: Word, l: Word): Word {
    Or(Shl(h, 63), Shr(l, 1))
  }

  lemma ShiftIsNext(h: Word, l: Word)
    ensures ShiftHigh(h, l) + ShiftLow(h, l) == Next(h + l)
  {
  }

  lemma XorWords(h: Word, l: Word, h': Word, l': Word)
    ensures XorWord(h, h') + XorWord(l, l') == XorBits(h + l, h' + l')
  {
  }

  // ---------- bit by bit ----------

  lemma MulStep(x: Bits, z: Bits, v: Bits, n: nat)
    requires n < 128
    ensures XorBits(z, Sum(x, v, n)) == XorBits(if x[n] then XorBits(z, v) else z, Sum(x, Next(v), n + 1))
  {
    var rest := Sum(x, Next(v), n + 1);
    if x[n] {
      XorAssoc(z, v, rest);
    } else {
      XorZero(rest);
    }
  }

  /** z and what the remaining bits of x add to it make up the product p. */
  ghost predicate Partial(x: Bits, p: Bits, z0: Word, z1: Word, y0: Word, y1: Word, n: nat)
    requires n <= 128
  {
    XorBits(z0 + z1, Sum(x, y0 + y1, n)) == p
  }

  lemma PartialStart(x: Bits, y: Block)
    ensures Partial(x, Product(x, BitsOf(y)), Falses(64), Falses(64), GetBe64(y, 0), GetBe64(y, 8), 0)
  {
    WordsOfBlock(y);
    assert Falses(64) + Falses(64) == ZERO;
    XorZero(Product(x, BitsOf(y)));
  }

  lemma PartialStep(x: Bits, p: Bits, z0: Word, z1: Word, y0: Word, y1: Word, n: nat)
    requires n < 128 && Partial(x, p, z0, z1, y0, y1, n)
    ensures x[n] ==> Partial(x, p, XorWord(z0, y0), XorWord(z1, y1), ShiftHigh(y0, y1), ShiftLow(y0, y1), n + 1)
    ensures !x[n] ==> Partial(x, p, z0, z1, ShiftHigh(y0, y1), ShiftLow(y0, y1), n + 1)
  {
    MulStep(x, z0 + z1, y0 + y1, n);
    XorWords(z0, z1, y0, y1);
    ShiftIsNext(y0, y1);
  }

  lemma PartialDone(x: Bits, p: Bits, z0: Word, z1: Word, y0: Word, y1: Word)
    requires Partial(x, p, z0, z1, y0, y1, 128)
    ensures PutBe64s(z0, z1) == BytesOf(p)
  {
    XorZero(z0 + z1);
    BlockOfWords(z0, z1);
  }

  /** internal_aes_gcm_gfmul() computes the block product. */
  method GfMul(x: Block, y: Block) returns (product: Block)
    ensures product == BlockMul(x, y)
  {
    var y0, y1 := GetBe64(y, 0), GetBe64(y, 8);
    var z0: Word, z1: Word := Falses(64), Falses(64);
    ghost var xs: Bits := BitsOf(x);
    ghost var p := Product(xs, BitsOf(y));
    PartialStart(xs, y);
    var n := 0;
    while n < 128
      invariant 0 <= n <= 128 && Partial(xs, p, z0, z1, y0, y1, n)
    {
      PartialStep(xs, p, z0, z1, y0, y1, n);
      if BitAt(x, n) {
        z0, z1 := XorWord(z0, y0), XorWord(z1, y1);
      }
      y0, y1 := ShiftHigh(y0, y1), ShiftLow(y0, y1);
      n := n + 1;
    }
    PartialDone(xs, p, z0, z1, y0, y1);
    product := PutBe64s(z0, z1);
  }
}
