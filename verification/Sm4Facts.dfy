/** What the round function and the key schedule of core/crypto/sm4.c are made of, stated by bits and bytes. */
module Sm4Facts {
  import opened Bits32
  import opened Linear32
  import opened Bytes
  import opened Words32
  import opened Sm4

  function Same(): bv8 -> bv8 {
    b => b
  }

  ghost predicate Injective(sbox: bv8 -> bv8) {
    forall a, b :: sbox(a) == sbox(b) ==> a == b
  }

  lemma Plain(w: bv32)
    ensures w ^ 0 ^ 0 ^ 0 == w && 0 ^ w == w && 0 ^ 0 ^ 0 ^ w == w
  {
  }

  // ---------- the round function ----------

  lemma FIs(sbox: bv8 -> bv8, x0: bv32, x1: bv32, x2: bv32, x3: bv32, rk: bv32)
    ensures F(sbox, x0, x1, x2, x3, rk) == x0 ^ Lt(sbox, x1 ^ x2 ^ x3 ^ rk)
  {
    hide Lt;
  }

  predicate IsSum(z: bv32, a: bv32, b: bv32, c: bv32, d: bv32) {
    z == a ^ b ^ c ^ d
  }

  lemma FromSum(sbox: bv8 -> bv8, x0: bv32, x1: bv32, x2: bv32, x3: bv32, rk: bv32, z: bv32)
    requires IsSum(z, x1, x2, x3, rk)
    ensures F(sbox, x0, x1, x2, x3, rk) == x0 ^ Lt(sbox, z)
  {
    hide Lt;
  }

  lemma SumMoves(z: bv32, a: bv32, b: bv32, c: bv32, d: bv32, y: bv32)
    requires IsSum(z, a, b, c, d) && y == a ^ d
    ensures IsSum(z, y, b, c, 0)
  {
  }

  lemma SumAlone(z: bv32)
    ensures IsSum(z, z, 0, 0, 0)
  {
  }

  lemma KeyToFirst(sbox: bv8 -> bv8, x0: bv32, x1: bv32, x2: bv32, x3: bv32, rk: bv32, y: bv32, z: bv32)
    requires y == x1 ^ rk && IsSum(z, x1, x2, x3, rk)
    ensures F(sbox, x0, x1, x2, x3, rk) == F(sbox, x0, y, x2, x3, 0)
  {
    hide F, Lt, IsSum;
    SumMoves(z, x1, x2, x3, rk, y);
    FromSum(sbox, x0, x1, x2, x3, rk, z);
    FromSum(sbox, x0, y, x2, x3, 0, z);
  }

  lemma AllToFirst(sbox: bv8 -> bv8, x0: bv32, x1: bv32, x2: bv32, x3: bv32, rk: bv32, z: bv32)
    requires IsSum(z, x1, x2, x3, rk)
    ensures F(sbox, x0, x1, x2, x3, rk) == F(sbox, x0, z, 0, 0, 0)
  {
    hide F, Lt, IsSum;
    SumAlone(z);
    FromSum(sbox, x0, x1, x2, x3, rk, z);
    FromSum(sbox, x0, z, 0, 0, 0, z);
  }

  lemma FirstOut(sbox: bv8 -> bv8, x0: bv32, x1: bv32, x2: bv32, x3: bv32, rk: bv32)
    ensures F(sbox, x0, x1, x2, x3, rk) == x0 ^ F(sbox, 0, x1, x2, x3, rk)
  {
    hide F, Lt;
    var l := Lt(sbox, x1 ^ x2 ^ x3 ^ rk);
    FIs(sbox, x0, x1, x2, x3, rk);
    FIs(sbox, 0, x1, x2, x3, rk);
    Plain(l);
  }

  /** The round key is added to the three middle words, and the first word to the result. */
  lemma KeyEnters(sbox: bv8 -> bv8, x0: bv32, x1: bv32, x2: bv32, x3: bv32, rk: bv32)
    ensures F(sbox, x0, x1, x2, x3, rk) == F(sbox, x0, x1 ^ rk, x2, x3, 0)
    ensures F(sbox, x0, x1, x2, x3, rk) == F(sbox, x0, x1 ^ x2 ^ x3 ^ rk, 0, 0, 0)
    ensures F(sbox, x0, x1, x2, x3, rk) == x0 ^ F(sbox, 0, x1, x2, x3, rk)
  {
    hide F;
    KeyToFirst(sbox, x0, x1, x2, x3, rk, x1 ^ rk, x1 ^ x2 ^ x3 ^ rk);
    AllToFirst(sbox, x0, x1, x2, x3, rk, x1 ^ x2 ^ x3 ^ rk);
    FirstOut(sbox, x0, x1, x2, x3, rk);
  }

  /** The S-box works on each byte. */
  lemma SboxEnters(sbox: bv8 -> bv8, a: bv8, b: bv8, c: bv8, d: bv8)
    ensures F(sbox, 0, GetBe32([a, b, c, d], 0), 0, 0, 0)
            == F(Same(), 0, GetBe32([sbox(a), sbox(b), sbox(c), sbox(d)], 0), 0, 0, 0)
    ensures KeyWord(sbox, 0, GetBe32([a, b, c, d], 0), 0, 0, 0)
            == KeyWord(Same(), 0, GetBe32([sbox(a), sbox(b), sbox(c), sbox(d)], 0), 0, 0, 0)
  {
    hide GetBe32, PutBe32, Mixed, KeyMixed;
    var w, v := GetBe32([a, b, c, d], 0), GetBe32([sbox(a), sbox(b), sbox(c), sbox(d)], 0);
    PutGet([a, b, c, d]);
    PutGet([sbox(a), sbox(b), sbox(c), sbox(d)]);
    assert Substitute(sbox, w) == v == Substitute(Same(), v);
    Plain(w);
    Plain(v);
  }

  lemma SameSubstitutes(w: bv32)
    ensures Substitute(Same(), w) == w
  {
    hide GetBe32, PutBe32;
    GetPut(w);
    var a := PutBe32(w);
    assert [a[0], a[1], a[2], a[3]] == a;
  }

  lemma FSame(w: bv32)
    ensures F(Same(), 0, w, 0, 0, 0) == Mixed(w) && KeyWord(Same(), 0, w, 0, 0, 0) == KeyMixed(w)
  {
    hide Substitute, Mixed, KeyMixed;
    SameSubstitutes(w);
    Plain(w);
    Plain(Mixed(w));
    Plain(KeyMixed(w));
  }

  /** Behind the S-box every bit is the sum of the bits 0, 2, 10, 18 and 24 places below it. */
  lemma FOn(w: bv32, m: bv32)
    requires Hot(m)
    ensures On(F(Same(), 0, w, 0, 0, 0), m)
            == (On(w, m) != (On(w, Ror2(m)) != (On(w, Ror10(m)) != (On(w, Ror18(m)) != On(w, Ror24(m))))))
  {
    hide F, Mixed, On, Hot, Ror2, Ror10, Ror18, Ror24;
    FSame(w);
    MixedOn(w, m);
  }

  /** Behind the S-box a single bit spreads to exactly five places. */
  lemma FBits(n: bv32)
    requires n < 32
    ensures F(Same(), 0, 0, 0, 0, Bit(n)) == Bit(n) | Bit(n + 2) | Bit(n + 10) | Bit(n + 18) | Bit(n + 24)
  {
    hide F, Mixed;
    KeyEnters(Same(), 0, 0, 0, 0, Bit(n));
    Plain(Bit(n));
    FSame(Bit(n));
    MixedBits(n);
  }

  // ---------- different round keys ----------

  function Mapped(sbox: bv8 -> bv8, w: bv32): (r: seq<bv8>)
    ensures |r| == 4
  {
    var a := PutBe32(w);
    [sbox(a[0]), sbox(a[1]), sbox(a[2]), sbox(a[3])]
  }

  lemma SubstituteIs(sbox: bv8 -> bv8, w: bv32)
    ensures Substitute(sbox, w) == GetBe32(Mapped(sbox, w), 0)
  {
    hide GetBe32, PutBe32;
  }

  lemma MappedInjective(sbox: bv8 -> bv8, v: bv32, w: bv32)
    requires Injective(sbox) && Mapped(sbox, v) == Mapped(sbox, w)
    ensures PutBe32(v) == PutBe32(w)
  {
    hide GetBe32, PutBe32;
    var a, b := PutBe32(v), PutBe32(w);
    forall i | 0 <= i < 4
      ensures a[i] == b[i]
    {
      assert sbox(a[i]) == Mapped(sbox, v)[i] == Mapped(sbox, w)[i] == sbox(b[i]);
    }
  }

  lemma SubstituteInjective(sbox: bv8 -> bv8, v: bv32, w: bv32)
    requires Injective(sbox) && Substitute(sbox, v) == Substitute(sbox, w)
    ensures v == w
  {
    hide GetBe32, PutBe32, Substitute, Mapped;
    SubstituteIs(sbox, v);
    SubstituteIs(sbox, w);
    PutGet(Mapped(sbox, v));
    PutGet(Mapped(sbox, w));
    MappedInjective(sbox, v, w);
    GetPut(v);
    GetPut(w);
  }

  lemma LtInjective(sbox: bv8 -> bv8, y: bv32, z: bv32)
    requires Injective(sbox) && Lt(sbox, y) == Lt(sbox, z)
    ensures y == z
  {
    hide Mixed, Substitute;
    MixedInjective(Substitute(sbox, y), Substitute(sbox, z));
    SubstituteInjective(sbox, y, z);
  }

  lemma FInjective(sbox: bv8 -> bv8, x0: bv32, x1: bv32, x2: bv32, x3: bv32, rk: bv32, rk': bv32)
    requires Injective(sbox) && F(sbox, x0, x1, x2, x3, rk) == F(sbox, x0, x1, x2, x3, rk')
    ensures rk == rk'
  {
    hide F, Lt;
    FIs(sbox, x0, x1, x2, x3, rk);
    FIs(sbox, x0, x1, x2, x3, rk');
    XorLeft(x0, Lt(sbox, x1 ^ x2 ^ x3 ^ rk), Lt(sbox, x1 ^ x2 ^ x3 ^ rk'));
    LtInjective(sbox, x1 ^ x2 ^ x3 ^ rk, x1 ^ x2 ^ x3 ^ rk');
    XorLast(x1, x2, x3, rk, rk');
  }

  lemma XorLast(x1: bv32, x2: bv32, x3: bv32, a: bv32, b: bv32)
    requires x1 ^ x2 ^ x3 ^ a == x1 ^ x2 ^ x3 ^ b
    ensures a == b
  {
  }

  /** With an injective S-box, different round keys take a register to different ones. */
  lemma RoundKeyMatters(sbox: bv8 -> bv8, q: Quad, rk: bv32, rk': bv32)
    requires Injective(sbox) && Round(sbox, q, rk) == Round(sbox, q, rk')
    ensures rk == rk'
  {
    hide F;
    FInjective(sbox, q.x0, q.x1, q.x2, q.x3, rk, rk');
  }

  lemma XorLeft(x: bv32, a: bv32, b: bv32)
    requires x ^ a == x ^ b
    ensures a == b
  {
  }

  // ---------- the block cipher ----------

  /** The words X of the SM4 specification: the block, and then one for each round key. */
  ghost predicate BlockWords(sbox: bv8 -> bv8, sk: seq<bv32>, b: Block, x: seq<bv32>) {
    && |x| == |sk| + 4
    && x[0] == GetBe32(b, 0) && x[1] == GetBe32(b, 4) && x[2] == GetBe32(b, 8) && x[3] == GetBe32(b, 12)
    && forall i | 0 <= i < |sk| :: NextWord(sbox, sk, x, i)
  }

  ghost predicate NextWord(sbox: bv8 -> bv8, sk: seq<bv32>, x: seq<bv32>, i: nat)
    requires |x| == |sk| + 4 && i < |sk|
  {
    x[i + 4] == F(sbox, x[i], x[i + 1], x[i + 2], x[i + 3], sk[i])
  }

  lemma {:induction false} RoundsAre(sbox: bv8 -> bv8, sk: seq<bv32>, b: Block, x: seq<bv32>, n: nat)
    requires BlockWords(sbox, sk, b, x) && n <= |sk|
    ensures Rounds(sbox, Load(b), sk[..n]) == Quad(x[n], x[n + 1], x[n + 2], x[n + 3])
    decreases n
  {
    hide F, GetBe32;
    if n > 0 {
      RoundsAre(sbox, sk, b, x, n - 1);
      assert sk[..n][..n - 1] == sk[..n - 1];
      assert NextWord(sbox, sk, x, n - 1);
    }
  }

  /** The result is the last four of them, backwards. */
  lemma CryptIs(sbox: bv8 -> bv8, sk: seq<bv32>, b: Block, x: seq<bv32>)
    requires BlockWords(sbox, sk, b, x)
    ensures var n := |sk|;
            CryptBlock(sbox, sk, b) == PutBe32(x[n + 3]) + PutBe32(x[n + 2]) + PutBe32(x[n + 1]) + PutBe32(x[n])
  {
    hide F, GetBe32, PutBe32, Rounds, Load;
    RoundsAre(sbox, sk, b, x, |sk|);
    assert sk[..|sk|] == sk;
  }

  // ---------- the key schedule ----------

  lemma KeyFromSum(sbox: bv8 -> bv8, x0: bv32, x1: bv32, x2: bv32, x3: bv32, ck: bv32, z: bv32)
    requires IsSum(z, x1, x2, x3, ck)
    ensures KeyWord(sbox, x0, x1, x2, x3, ck) == x0 ^ CalciRk(sbox, z)
  {
    hide CalciRk;
  }

  lemma KeyWordEnters(sbox: bv8 -> bv8, x0: bv32, x1: bv32, x2: bv32, x3: bv32, ck: bv32, z: bv32)
    requires IsSum(z, x1, x2, x3, ck)
    ensures KeyWord(sbox, x0, x1, x2, x3, ck) == x0 ^ KeyWord(sbox, 0, z, 0, 0, 0)
  {
    hide KeyWord, CalciRk, IsSum;
    SumAlone(z);
    KeyFromSum(sbox, x0, x1, x2, x3, ck, z);
    KeyFromSum(sbox, 0, z, 0, 0, 0, z);
    Plain(CalciRk(sbox, z));
  }

  lemma KeyBits(n: bv32)
    requires n < 32
    ensures KeyWord(Same(), 0, 0, 0, 0, Bit(n)) == Bit(n) | Bit(n + 13) | Bit(n + 23)
  {
    hide KeyWord, KeyMixed;
    Plain(Bit(n));
    KeyWordEnters(Same(), 0, 0, 0, 0, Bit(n), Bit(n));
    Plain(KeyWord(Same(), 0, Bit(n), 0, 0, 0));
    FSame(Bit(n));
    KeyMixedBits(n);
  }

  /** The words K of the key register: the key under the system parameter, then the round keys. */
  ghost predicate KeyWords(sbox: bv8 -> bv8, key: Block, k: seq<bv32>) {
    && |k| == 36
    && k[0] == GetBe32(key, 0) ^ 0xa3b1bac6 && k[1] == GetBe32(key, 4) ^ 0x56aa3350
    && k[2] == GetBe32(key, 8) ^ 0x677d9197 && k[3] == GetBe32(key, 12) ^ 0xb27022dc
    && forall i | 0 <= i < 32 :: NextKeyWord(sbox, k, i)
  }

  ghost predicate NextKeyWord(sbox: bv8 -> bv8, k: seq<bv32>, i: nat)
    requires |k| == 36 && i < 32
  {
    CKLength();
    k[i + 4] == KeyWord(sbox, k[i], k[i + 1], k[i + 2], k[i + 3], CK[i])
  }

  lemma {:induction false} RegisterIs(sbox: bv8 -> bv8, key: Block, k: seq<bv32>, n: nat)
    requires KeyWords(sbox, key, k) && n <= 32
    ensures |CK| == 32 && KeyRegister(sbox, key, CK, n) == Quad(k[n], k[n + 1], k[n + 2], k[n + 3])
  {
    hide KeyWord, GetBe32, CK;
    CKLength();
    if n > 0 {
      RegisterIs(sbox, key, k, n - 1);
      assert NextKeyWord(sbox, k, n - 1);
    }
  }

  /** Round key i is word i + 4 of that sequence. */
  lemma ScheduleIs(sbox: bv8 -> bv8, key: Block, k: seq<bv32>)
    requires KeyWords(sbox, key, k)
    ensures Schedule(sbox, key, CK) == k[4..]
  {
    hide KeyWord, GetBe32, CK, KeyRegister, KeyWords;
    CKLength();
    WordsLength(sbox, key, k);
    forall i | 0 <= i < 32
      ensures Schedule(sbox, key, CK)[i] == k[4..][i]
    {
      RegisterIs(sbox, key, k, i + 1);
    }
  }

  lemma WordsLength(sbox: bv8 -> bv8, key: Block, k: seq<bv32>)
    requires KeyWords(sbox, key, k)
    ensures |k| == 36
  {
  }

  /** Byte j of constant i is (4 i + j) * 7 modulo 256. */
  function CkWord(i: bv32): bv32 {
    var n := 28 * i;
    ((n & 0xff) << 24) | (((n + 7) & 0xff) << 16) | (((n + 14) & 0xff) << 8) | ((n + 21) & 0xff)
  }

  lemma CkWords()
    ensures CK == [
      CkWord(0), CkWord(1), CkWord(2), CkWord(3), CkWord(4), CkWord(5), CkWord(6), CkWord(7),
      CkWord(8), CkWord(9), CkWord(10), CkWord(11), CkWord(12), CkWord(13), CkWord(14), CkWord(15),
      CkWord(16), CkWord(17), CkWord(18), CkWord(19), CkWord(20), CkWord(21), CkWord(22), CkWord(23),
      CkWord(24), CkWord(25), CkWord(26), CkWord(27), CkWord(28), CkWord(29), CkWord(30), CkWord(31)
    ]
  {
  }
}
