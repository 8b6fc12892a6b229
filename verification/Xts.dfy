/** XTS over an arbitrary block function, sections 5.2 to 5.4 of IEEE Std 1619-2007. */
module Xts {
  import opened Bytes
  import opened Gf128
  import opened BlockModes

  // ---------- the tweak ----------

  function TopBit(x: bv8): bv8 {
    x >> 7
  }

  function ShiftIn(x: bv8, carry: bv8): bv8 {
    (x << 1) | carry
  }

  /** A byte shifted left, with the top bit of the byte below it. */
  function Shifted(x: bv8, below: bv8): bv8 {
    ShiftIn(x, TopBit(below))
  }

  function FirstByte(x: bv8, last: bv8): bv8 {
    ShiftIn(x, 0) ^ (if TopBit(last) == 0 then 0 else 0x87)
  }

  /** xts_multi(): shift the little-endian block left and fold the lost bit back with 0x87. */
  function Mul(t: Block): Block {
    [FirstByte(t[0], t[15])] + seq(15, i requires 0 <= i < 15 => Shifted(t[i + 1], t[i]))
  }

  function LeMask(n: nat): bv8
    requires n < 8
  {
    if n == 0 then 0x01 else if n == 1 then 0x02 else if n == 2 then 0x04 else if n == 3 then 0x08
    else if n == 4 then 0x10 else if n == 5 then 0x20 else if n == 6 then 0x40 else 0x80
  }

  predicate LeBit(t: Block, n: nat)
    requires n < 128
  {
    t[n / 8] & LeMask(n % 8) != 0
  }

  /** The coefficients of t, lowest power first. */
  function Coefficients(t: Block): Bits {
    seq(128, n requires 0 <= n < 128 => LeBit(t, n))
  }

  lemma ShiftByte(x: bv8, y: bv8, n: nat)
    requires n < 8
    ensures (Shifted(x, y) & LeMask(n) != 0) == if n == 0 then y & 0x80 != 0 else x & LeMask(n - 1) != 0
  {
  }

  lemma ShiftFirst(x: bv8, last: bv8, n: nat)
    requires n < 8
    ensures (FirstByte(x, last) & LeMask(n) != 0)
            == ((n > 0 && x & LeMask(n - 1) != 0) != (last & 0x80 != 0 && Reduction(n)))
  {
  }

  lemma MulByte(t: Block, i: nat)
    requires i < 16
    ensures Mul(t)[i] == if i == 0 then FirstByte(t[0], t[15]) else Shifted(t[i], t[i - 1])
  {
  }

  lemma FirstBits(t: Block, n: nat)
    requires n < 8
    ensures LeBit(Mul(t), n) == ((n > 0 && LeBit(t, n - 1)) != (LeBit(t, 127) && Reduction(n)))
  {
    hide Mul, FirstByte;
    MulByte(t, 0);
    ShiftFirst(t[0], t[15], n);
  }

  lemma LaterBits(t: Block, n: nat)
    requires 8 <= n < 128
    ensures LeBit(Mul(t), n) == LeBit(t, n - 1)
  {
    hide Mul, Shifted;
    var i, j := n / 8, n % 8;
    MulByte(t, i);
    ShiftByte(t[i], t[i - 1], j);
    if j == 0 {
      assert (n - 1) / 8 == i - 1 && (n - 1) % 8 == 7;
    } else {
      assert (n - 1) / 8 == i && (n - 1) % 8 == j - 1;
    }
  }

  lemma MulBit(t: Block, n: nat)
    requires n < 128
    ensures LeBit(Mul(t), n) == Next(Coefficients(t))[n]
  {
    hide Mul, LeBit;
    if n < 8 {
      FirstBits(t, n);
    } else {
      LaterBits(t, n);
    }
  }

  /** xts_multi() multiplies by the generator modulo x^128 + x^7 + x^2 + x + 1. */
  lemma MulIsDoubling(t: Block)
    ensures Coefficients(Mul(t)) == Next(Coefficients(t))
  {
    hide Mul, LeBit, Next;
    forall n | 0 <= n < 128
      ensures Coefficients(Mul(t))[n] == Next(Coefficients(t))[n]
    {
      MulBit(t, n);
    }
  }

  function Tweak(t: Block, n: nat): Block
    decreases n
  {
    if n == 0 then t else Tweak(Mul(t), n - 1)
  }

  /** Block 0 has the tweak itself, and every further block the double of the one before. */
  lemma {:induction false} TweakNext(t: Block, n: nat)
    ensures Tweak(t, 0) == t && Mul(Tweak(t, n)) == Tweak(t, n + 1)
    decreases n
  {
    hide Mul;
    if n > 0 {
      TweakNext(Mul(t), n - 1);
    }
  }

  lemma {:induction false} TweakSum(t: Block, m: nat, n: nat)
    ensures Tweak(Tweak(t, m), n) == Tweak(t, m + n)
    decreases m
  {
    hide Mul;
    if m > 0 {
      TweakSum(Mul(t), m - 1, n);
    }
  }

  // ---------- whole blocks ----------

  function Xex(f: Block -> Block, t: Block, b: Block): Block {
    Xor(f(Xor(b, t)), t)
  }

  lemma XexUndoes(e: Block -> Block, d: Block -> Block, t: Block, b: Block)
    requires Undoes(d, e)
    ensures Xex(d, t, Xex(e, t, b)) == b
  {
    hide Xor;
    var x := Xor(b, t);
    XorCancels(e(x), t);
    XorCancels(b, t);
    assert d(e(x)) == x;
  }

  function Blocks(f: Block -> Block, t: Block, s: seq<bv8>): (r: seq<bv8>)
    requires |s| % 16 == 0
    ensures |r| == |s|
    decreases |s|
  {
    if s == [] then [] else Xex(f, t, s[..16]) + Blocks(f, Mul(t), s[16..])
  }

  lemma {:induction false} BlocksAppend(f: Block -> Block, t: Block, a: seq<bv8>, b: seq<bv8>, j: nat)
    requires |a| == 16 * j && |b| % 16 == 0
    ensures Blocks(f, t, a + b) == Blocks(f, t, a) + Blocks(f, Tweak(t, j), b)
    decreases j
  {
    hide Mul, Xex;
    if a == [] {
      assert a + b == b;
    } else {
      assert (a + b)[..16] == a[..16] && (a + b)[16..] == a[16..] + b;
      BlocksAppend(f, Mul(t), a[16..], b, j - 1);
    }
  }

  lemma BlocksOne(f: Block -> Block, t: Block, b: Block)
    ensures Blocks(f, t, b) == Xex(f, t, b)
  {
    hide Mul, Xex;
    assert b[..16] == b && b[16..] == [];
    assert Blocks(f, t, b) == Xex(f, t, b) + [];
  }

  lemma {:induction false} BlocksUndo(e: Block -> Block, d: Block -> Block, t: Block, s: seq<bv8>)
    requires |s| % 16 == 0 && Undoes(d, e)
    ensures Blocks(d, t, Blocks(e, t, s)) == s
    decreases |s|
  {
    hide Mul, Xex;
    if s != [] {
      var r := Blocks(e, t, s);
      assert r[..16] == Xex(e, t, s[..16]) && r[16..] == Blocks(e, Mul(t), s[16..]);
      XexUndoes(e, d, t, s[..16]);
      BlocksUndo(e, d, Mul(t), s[16..]);
    }
  }

  // ---------- ciphertext stealing ----------

  /** The last block and a bit of a plaintext, under tweaks t and Mul(t). */
  function StealEnc(e: Block -> Block, t: Block, q: seq<bv8>): (r: seq<bv8>)
    requires 16 < |q| < 32
    ensures |r| == |q|
  {
    var n := |q| - 16;
    var cc := Xex(e, t, q[..16]);
    Xex(e, Mul(t), q[16..] + cc[n..]) + cc[..n]
  }

  function StealDec(d: Block -> Block, t: Block, q: seq<bv8>): (r: seq<bv8>)
    requires 16 < |q| < 32
    ensures |r| == |q|
  {
    var n := |q| - 16;
    var pp := Xex(d, Mul(t), q[..16]);
    Xex(d, t, q[16..] + pp[n..]) + pp[..n]
  }

  lemma StealUndoes(e: Block -> Block, d: Block -> Block, t: Block, q: seq<bv8>)
    requires 16 < |q| < 32 && Undoes(d, e)
    ensures StealDec(d, t, StealEnc(e, t, q)) == q
  {
    hide Mul, Xex;
    var n := |q| - 16;
    var cc := Xex(e, t, q[..16]);
    var pp: Block := q[16..] + cc[n..];
    var c := StealEnc(e, t, q);
    assert c[..16] == Xex(e, Mul(t), pp) && c[16..] == cc[..n];
    XexUndoes(e, d, Mul(t), pp);
    assert pp[n..] == cc[n..] && pp[..n] == q[16..];
    assert cc[..n] + cc[n..] == cc;
    XexUndoes(e, d, t, q[..16]);
    assert q[..16] + q[16..] == q;
  }

  // ---------- a whole data unit ----------

  /** The number of whole blocks before the one that is stolen from. */
  function Before(n: nat): (m: nat)
    requires n >= 16
    ensures 16 * m + 16 <= n < 16 * m + 32 && (n % 16 != 0 ==> 16 * m + 16 < n)
  {
    n / 16 - 1
  }

  function Encrypt(e: Block -> Block, t: Block, p: seq<bv8>): (c: seq<bv8>)
    requires |p| >= 16
    ensures |c| == |p|
  {
    if |p| % 16 == 0 then Blocks(e, t, p)
    else
      var m := Before(|p|);
      Blocks(e, t, p[..16 * m]) + StealEnc(e, Tweak(t, m), p[16 * m..])
  }

  function Decrypt(d: Block -> Block, t: Block, c: seq<bv8>): (p: seq<bv8>)
    requires |c| >= 16
    ensures |p| == |c|
  {
    if |c| % 16 == 0 then Blocks(d, t, c)
    else
      var m := Before(|c|);
      Blocks(d, t, c[..16 * m]) + StealDec(d, Tweak(t, m), c[16 * m..])
  }

  /** XTS decryption undoes encryption at every length of at least one block. */
  lemma RoundTrip(e: Block -> Block, d: Block -> Block, t: Block, p: seq<bv8>)
    requires |p| >= 16 && Undoes(d, e)
    ensures Decrypt(d, t, Encrypt(e, t, p)) == p
  {
    hide Mul, Xex, Tweak, StealEnc, StealDec, Blocks;
    if |p| % 16 == 0 {
      BlocksUndo(e, d, t, p);
    } else {
      var m := Before(|p|);
      var k := 16 * m;
      var c := Encrypt(e, t, p);
      assert c[..k] == Blocks(e, t, p[..k]) && c[k..] == StealEnc(e, Tweak(t, m), p[k..]);
      BlocksUndo(e, d, t, p[..k]);
      StealUndoes(e, d, Tweak(t, m), p[k..]);
      assert p[..k] + p[k..] == p;
    }
  }

  lemma Assoc(a: seq<bv8>, b: seq<bv8>, c: seq<bv8>)
    ensures (a + b) + c == a + (b + c)
  {
  }

  lemma BeforeIs(n: nat, m: nat)
    requires 16 * m + 16 < n < 16 * m + 32
    ensures Before(n) == m && n % 16 != 0
  {
  }

  lemma EncryptPartial(e: Block -> Block, t: Block, s: seq<bv8>, m: nat)
    requires 16 * m + 16 < |s| < 16 * m + 32
    ensures Encrypt(e, t, s) == Blocks(e, t, s[..16 * m]) + StealEnc(e, Tweak(t, m), s[16 * m..])
  {
    hide Blocks, StealEnc, Tweak, Before;
    BeforeIs(|s|, m);
  }

  lemma EncryptAppendPartial(e: Block -> Block, t: Block, a: seq<bv8>, b: seq<bv8>, j: nat, m: nat)
    requires |a| == 16 * j && 16 * m + 16 < |b| < 16 * m + 32
    ensures Encrypt(e, t, a + b) == Blocks(e, t, a) + Encrypt(e, Tweak(t, j), b)
  {
    hide Encrypt, Tweak, StealEnc, Blocks;
    var k := 16 * m;
    var s := a + b;
    assert s[..|a| + k] == a + b[..k] && s[|a| + k..] == b[k..];
    BlocksAppend(e, t, a, b[..k], j);
    TweakSum(t, j, m);
    EncryptPartial(e, t, s, j + m);
    EncryptPartial(e, Tweak(t, j), b, m);
    Assoc(Blocks(e, t, a), Blocks(e, Tweak(t, j), b[..k]), StealEnc(e, Tweak(t, j + m), b[k..]));
  }

  /** Whole blocks a and then b are the same as a + b in one go, given the tweak that a left behind. */
  lemma EncryptAppend(e: Block -> Block, t: Block, a: seq<bv8>, b: seq<bv8>, j: nat)
    requires |a| == 16 * j && |b| >= 16
    ensures Encrypt(e, t, a + b) == Blocks(e, t, a) + Encrypt(e, Tweak(t, j), b)
  {
    hide Tweak, StealEnc, Blocks;
    if |b| % 16 == 0 {
      BlocksAppend(e, t, a, b, j);
      assert |a + b| % 16 == 0;
    } else {
      EncryptAppendPartial(e, t, a, b, j, Before(|b|));
    }
  }

  lemma DecryptPartial(d: Block -> Block, t: Block, s: seq<bv8>, m: nat)
    requires 16 * m + 16 < |s| < 16 * m + 32
    ensures Decrypt(d, t, s) == Blocks(d, t, s[..16 * m]) + StealDec(d, Tweak(t, m), s[16 * m..])
  {
    hide Blocks, StealDec, Tweak, Before;
    BeforeIs(|s|, m);
  }

  lemma DecryptAppendPartial(d: Block -> Block, t: Block, a: seq<bv8>, b: seq<bv8>, j: nat, m: nat)
    requires |a| == 16 * j && 16 * m + 16 < |b| < 16 * m + 32
    ensures Decrypt(d, t, a + b) == Blocks(d, t, a) + Decrypt(d, Tweak(t, j), b)
  {
    hide Decrypt, Tweak, StealDec, Blocks;
    var k := 16 * m;
    var s := a + b;
    assert s[..|a| + k] == a + b[..k] && s[|a| + k..] == b[k..];
    BlocksAppend(d, t, a, b[..k], j);
    TweakSum(t, j, m);
    DecryptPartial(d, t, s, j + m);
    DecryptPartial(d, Tweak(t, j), b, m);
    Assoc(Blocks(d, t, a), Blocks(d, Tweak(t, j), b[..k]), StealDec(d, Tweak(t, j + m), b[k..]));
  }

  lemma DecryptAppend(d: Block -> Block, t: Block, a: seq<bv8>, b: seq<bv8>, j: nat)
    requires |a| == 16 * j && |b| >= 16
    ensures Decrypt(d, t, a + b) == Blocks(d, t, a) + Decrypt(d, Tweak(t, j), b)
  {
    hide Tweak, StealDec, Blocks;
    if |b| % 16 == 0 {
      BlocksAppend(d, t, a, b, j);
      assert |a + b| % 16 == 0;
    } else {
      DecryptAppendPartial(d, t, a, b, j, Before(|b|));
    }
  }

  // ---------- byte by byte ----------

  /** Byte i of block j of r is that of s, encrypted between two additions of tweak j. */
  ghost predicate MaskedByte(f: Block -> Block, t: Block, s: seq<bv8>, r: seq<bv8>, j: nat, i: nat) {
    && 16 * j + 16 <= |s| == |r| && i < 16
    && r[16 * j + i] == f(Under(s, 16 * j, Tweak(t, j)))[i] ^ Tweak(t, j)[i]
  }

  lemma XexBytes(f: Block -> Block, t: Block, s: seq<bv8>, at: nat)
    requires at + 16 <= |s|
    ensures forall i | 0 <= i < 16 :: Xex(f, t, s[at..at + 16])[i] == f(Under(s, at, t))[i] ^ t[i]
  {
    assert Xor(s[at..at + 16], t) == Under(s, at, t);
  }

  lemma {:induction false} BlocksAt(f: Block -> Block, t: Block, s: seq<bv8>, j: nat)
    requires |s| % 16 == 0 && 16 * j + 16 <= |s|
    ensures Blocks(f, t, s)[16 * j..16 * j + 16] == Xex(f, Tweak(t, j), s[16 * j..16 * j + 16])
    decreases j
  {
    hide Mul, Xex;
    var r := Blocks(f, t, s);
    if j == 0 {
      assert r[..16] == Xex(f, t, s[..16]);
      assert r[0..16] == r[..16] && s[0..16] == s[..16];
    } else {
      MoreBlocks(|s|, 16);
      BlocksAt(f, Mul(t), s[16..], j - 1);
      var k := 16 * (j - 1);
      assert r[16..] == Blocks(f, Mul(t), s[16..]);
      assert r[16..][k..k + 16] == r[16 + k..16 + k + 16];
      assert s[16..][k..k + 16] == s[16 + k..16 + k + 16];
    }
  }

  lemma BlocksBytes(f: Block -> Block, t: Block, s: seq<bv8>, j: nat, i: nat)
    requires |s| % 16 == 0 && 16 * j + 16 <= |s| && i < 16
    ensures Blocks(f, t, s)[16 * j + i] == f(Under(s, 16 * j, Tweak(t, j)))[i] ^ Tweak(t, j)[i]
  {
    hide Blocks, Xex, Tweak, Under;
    BlocksAt(f, t, s, j);
    XexBytes(f, Tweak(t, j), s, 16 * j);
    assert Blocks(f, t, s)[16 * j + i] == Blocks(f, t, s)[16 * j..16 * j + 16][i];
  }

  /** Every byte of a whole-block unit: block j is encrypted between two additions of tweak j. */
  lemma EncryptBytes(e: Block -> Block, t: Block, p: seq<bv8>, j: nat, i: nat)
    requires |p| >= 16 && |p| % 16 == 0 && 16 * j + 16 <= |p| && i < 16
    ensures Encrypt(e, t, p)[16 * j + i] == e(Under(p, 16 * j, Tweak(t, j)))[i] ^ Tweak(t, j)[i]
  {
    hide Blocks, Tweak, Under;
    BlocksBytes(e, t, p, j, i);
  }

  lemma DecryptBytes(d: Block -> Block, t: Block, c: seq<bv8>, j: nat, i: nat)
    requires |c| >= 16 && |c| % 16 == 0 && 16 * j + 16 <= |c| && i < 16
    ensures Decrypt(d, t, c)[16 * j + i] == d(Under(c, 16 * j, Tweak(t, j)))[i] ^ Tweak(t, j)[i]
  {
    hide Blocks, Tweak, Under;
    BlocksBytes(d, t, c, j, i);
  }

  lemma UnderPrefix(s: seq<bv8>, n: nat, at: nat, t: Block)
    requires at + 16 <= n <= |s|
    ensures Under(s[..n], at, t) == Under(s, at, t)
  {
  }

  /** A unit with m whole blocks, one more and a bit: the whole blocks as before. The block that is stolen from,
      under tweak m, gives its first bytes to the end of the ciphertext; its other bytes complete the partial one,
      which is encrypted under tweak m + 1 into its place. */
  lemma EncryptTailBytes(e: Block -> Block, t: Block, p: seq<bv8>, m: nat, cc: Block, last: Block)
    requires 16 * m + 16 < |p| < 16 * m + 32
    requires forall i | 0 <= i < 16 :: cc[i] == e(Under(p, 16 * m, Tweak(t, m)))[i] ^ Tweak(t, m)[i]
    requires last == p[16 * m + 16..] + cc[|p| - 16 * m - 16..]
    ensures forall j: nat, i: nat | j < m && i < 16 :: MaskedByte(e, t, p, Encrypt(e, t, p), j, i)
    ensures var r := Encrypt(e, t, p)[16 * m..16 * m + 16];
            forall i | 0 <= i < 16 :: r[i] == e(Under(last, 0, Tweak(t, m + 1)))[i] ^ Tweak(t, m + 1)[i]
    ensures Encrypt(e, t, p)[16 * m + 16..] == cc[..|p| - 16 * m - 16]
  {
    hide Blocks, Tweak, Under, Encrypt, Xex, Mul;
    var k := 16 * m;
    EncryptPartial(e, t, p, m);
    TweakNext(t, m);
    XexBytes(e, Tweak(t, m), p, k);
    assert cc == Xex(e, Tweak(t, m), p[k..k + 16]);
    assert p[k..][..16] == p[k..k + 16] && p[k..][16..] == p[k + 16..];
    assert Encrypt(e, t, p) == Blocks(e, t, p[..k]) + (Xex(e, Tweak(t, m + 1), last) + cc[..|p| - k - 16]);
    XexBytes(e, Tweak(t, m + 1), last, 0);
    assert last[0..16] == last;
    WholeBytes(e, t, p, m, Encrypt(e, t, p));
  }

  lemma WholeBytes(f: Block -> Block, t: Block, s: seq<bv8>, m: nat, r: seq<bv8>)
    requires 16 * m <= |s| && |r| == |s| && r[..16 * m] == Blocks(f, t, s[..16 * m])
    ensures forall j: nat, i: nat | j < m && i < 16 :: MaskedByte(f, t, s, r, j, i)
  {
    hide Blocks, Tweak, Under;
    forall j: nat, i: nat | j < m && i < 16
      ensures MaskedByte(f, t, s, r, j, i)
    {
      BlocksBytes(f, t, s[..16 * m], j, i);
      UnderPrefix(s, 16 * m, 16 * j, Tweak(t, j));
      assert r[16 * j + i] == r[..16 * m][16 * j + i];
    }
  }

  /** The other way round: the last whole block goes under tweak m + 1 first, and the completed one under tweak m. */
  lemma DecryptTailBytes(d: Block -> Block, t: Block, c: seq<bv8>, m: nat, pp: Block, last: Block)
    requires 16 * m + 16 < |c| < 16 * m + 32
    requires forall i | 0 <= i < 16 :: pp[i] == d(Under(c, 16 * m, Tweak(t, m + 1)))[i] ^ Tweak(t, m + 1)[i]
    requires last == c[16 * m + 16..] + pp[|c| - 16 * m - 16..]
    ensures forall j: nat, i: nat | j < m && i < 16 :: MaskedByte(d, t, c, Decrypt(d, t, c), j, i)
    ensures var r := Decrypt(d, t, c)[16 * m..16 * m + 16];
            forall i | 0 <= i < 16 :: r[i] == d(Under(last, 0, Tweak(t, m)))[i] ^ Tweak(t, m)[i]
    ensures Decrypt(d, t, c)[16 * m + 16..] == pp[..|c| - 16 * m - 16]
  {
    hide Blocks, Tweak, Under, Decrypt, Xex, Mul;
    var k := 16 * m;
    DecryptPartial(d, t, c, m);
    TweakNext(t, m);
    XexBytes(d, Tweak(t, m + 1), c, k);
    assert pp == Xex(d, Tweak(t, m + 1), c[k..k + 16]);
    assert c[k..][..16] == c[k..k + 16] && c[k..][16..] == c[k + 16..];
    assert Decrypt(d, t, c) == Blocks(d, t, c[..k]) + (Xex(d, Tweak(t, m), last) + pp[..|c| - k - 16]);
    XexBytes(d, Tweak(t, m), last, 0);
    assert last[0..16] == last;
    WholeBytes(d, t, c, m, Decrypt(d, t, c));
  }
}
