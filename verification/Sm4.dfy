/** The SM4 block cipher (core/crypto/sm4.c), for an arbitrary S-box. */
module Sm4 {
  import opened Linear32
  import opened Bytes
  import opened Words32

  // ---------- the round functions ----------

  function Substitute(sbox: bv8 -> bv8, ka: bv32): bv32 {
    var a := PutBe32(ka);
    GetBe32([sbox(a[0]), sbox(a[1]), sbox(a[2]), sbox(a[3])], 0)
  }

  function Lt(sbox: bv8 -> bv8, ka: bv32): bv32 {
    Mixed(Substitute(sbox, ka))
  }

  function CalciRk(sbox: bv8 -> bv8, ka: bv32): bv32 {
    KeyMixed(Substitute(sbox, ka))
  }

  /** sm4F() */
  function F(sbox: bv8 -> bv8, x0: bv32, x1: bv32, x2: bv32, x3: bv32, rk: bv32): bv32 {
    x0 ^ Lt(sbox, x1 ^ x2 ^ x3 ^ rk)
  }

  /** The last four words of the Feistel register. */
  datatype Quad = Quad(x0: bv32, x1: bv32, x2: bv32, x3: bv32)

  function Reversed(q: Quad): Quad {
    Quad(q.x3, q.x2, q.x1, q.x0)
  }

  function Round(sbox: bv8 -> bv8, q: Quad, rk: bv32): Quad {
    Quad(q.x1, q.x2, q.x3, F(sbox, q.x0, q.x1, q.x2, q.x3, rk))
  }

  function Rounds(sbox: bv8 -> bv8, q: Quad, sk: seq<bv32>): Quad {
    if sk == [] then q else Round(sbox, Rounds(sbox, q, sk[..|sk| - 1]), sk[|sk| - 1])
  }

  function Load(b: Block): Quad {
    Quad(GetBe32(b, 0), GetBe32(b, 4), GetBe32(b, 8), GetBe32(b, 12))
  }

  function Store(q: Quad): Block {
    PutBe32(q.x0) + PutBe32(q.x1) + PutBe32(q.x2) + PutBe32(q.x3)
  }

  /** sm4_one_round(): all rounds, and the register written out backwards. */
  function CryptBlock(sbox: bv8 -> bv8, sk: seq<bv32>, b: Block): Block {
    Store(Reversed(Rounds(sbox, Load(b), sk)))
  }

  function Backwards(sk: seq<bv32>): (r: seq<bv32>)
    ensures |r| == |sk|
  {
    seq(|sk|, i requires 0 <= i < |sk| => sk[|sk| - 1 - i])
  }

  // ---------- inversion ----------

  lemma LoadStore(q: Quad)
    ensures Load(Store(q)) == q
  {
    GetAt(Store(q), 0, q.x0);
    GetAt(Store(q), 4, q.x1);
    GetAt(Store(q), 8, q.x2);
    GetAt(Store(q), 12, q.x3);
  }

  lemma StoreLoad(b: Block)
    ensures Store(Load(b)) == b
  {
    hide GetBe32, PutBe32;
    PutAt(b, 0);
    PutAt(b, 4);
    PutAt(b, 8);
    PutAt(b, 12);
    assert b == b[0..4] + b[4..8] + b[8..12] + b[12..16];
  }

  lemma XorBack(x: bv32, t: bv32, t': bv32)
    requires t == t'
    ensures (x ^ t) ^ t' == x
  {
  }

  lemma Swap3(a: bv32, b: bv32, c: bv32, d: bv32)
    ensures c ^ b ^ a ^ d == a ^ b ^ c ^ d
  {
  }

  lemma FUndoes(sbox: bv8 -> bv8, x0: bv32, x1: bv32, x2: bv32, x3: bv32, rk: bv32)
    ensures F(sbox, F(sbox, x0, x1, x2, x3, rk), x3, x2, x1, rk) == x0
  {
    hide Lt;
    Swap3(x1, x2, x3, rk);
    XorBack(x0, Lt(sbox, x1 ^ x2 ^ x3 ^ rk), Lt(sbox, x3 ^ x2 ^ x1 ^ rk));
  }

  /** A round on the reversed register undoes the round. */
  lemma RoundUndoes(sbox: bv8 -> bv8, q: Quad, rk: bv32)
    ensures Round(sbox, Reversed(Round(sbox, q, rk)), rk) == Reversed(q)
  {
    hide F;
    FUndoes(sbox, q.x0, q.x1, q.x2, q.x3, rk);
  }

  lemma {:induction false} RoundsFirst(sbox: bv8 -> bv8, q: Quad, rk: bv32, sk: seq<bv32>)
    ensures Rounds(sbox, q, [rk] + sk) == Rounds(sbox, Round(sbox, q, rk), sk)
  {
    hide Round;
    if sk == [] {
      assert [rk] + sk == [rk] && [rk][..0] == [];
    } else {
      var n := |sk| - 1;
      assert ([rk] + sk)[..|[rk] + sk| - 1] == [rk] + sk[..n];
      RoundsFirst(sbox, q, rk, sk[..n]);
    }
  }

  lemma {:induction false} RoundsUndo(sbox: bv8 -> bv8, q: Quad, sk: seq<bv32>)
    ensures Rounds(sbox, Reversed(Rounds(sbox, q, sk)), Backwards(sk)) == Reversed(q)
  {
    hide Round;
    if sk != [] {
      var n := |sk| - 1;
      var p := Rounds(sbox, q, sk[..n]);
      assert Backwards(sk) == [sk[n]] + Backwards(sk[..n]);
      RoundsFirst(sbox, Reversed(Rounds(sbox, q, sk)), sk[n], Backwards(sk[..n]));
      RoundUndoes(sbox, p, sk[n]);
      RoundsUndo(sbox, q, sk[..n]);
    }
  }

  /** The reversed key schedule decrypts, whatever the S-box and the round keys. */
  lemma BlockInverse(sbox: bv8 -> bv8, sk: seq<bv32>, b: Block)
    ensures CryptBlock(sbox, Backwards(sk), CryptBlock(sbox, sk, b)) == b
  {
    hide Rounds, Load, Store;
    LoadStore(Reversed(Rounds(sbox, Load(b), sk)));
    RoundsUndo(sbox, Load(b), sk);
    StoreLoad(b);
  }

  lemma BackwardsTwice(sk: seq<bv32>)
    ensures Backwards(Backwards(sk)) == sk
  {
  }

  // ---------- the key schedule ----------

  const FK: Quad := Quad(0xa3b1bac6, 0x56aa3350, 0x677d9197, 0xb27022dc)

  const CK: seq<bv32> := [
    0x00070e15, 0x1c232a31, 0x383f464d, 0x545b6269,
    0x70777e85, 0x8c939aa1, 0xa8afb6bd, 0xc4cbd2d9,
    0xe0e7eef5, 0xfc030a11, 0x181f262d, 0x343b4249,
    0x50575e65, 0x6c737a81, 0x888f969d, 0xa4abb2b9,
    0xc0c7ced5, 0xdce3eaf1, 0xf8ff060d, 0x141b2229,
    0x30373e45, 0x4c535a61, 0x686f767d, 0x848b9299,
    0xa0a7aeb5, 0xbcc3cad1, 0xd8dfe6ed, 0xf4fb0209,
    0x10171e25, 0x2c333a41, 0x484f565d, 0x646b7279
  ]

  lemma CKLength()
    ensures |CK| == 32
  {
  }

  function KeyWord(sbox: bv8 -> bv8, x0: bv32, x1: bv32, x2: bv32, x3: bv32, ck: bv32): bv32 {
    x0 ^ CalciRk(sbox, x1 ^ x2 ^ x3 ^ ck)
  }

  function KeyStart(key: Block): Quad {
    var mk := Load(key);
    Quad(mk.x0 ^ FK.x0, mk.x1 ^ FK.x1, mk.x2 ^ FK.x2, mk.x3 ^ FK.x3)
  }

  /** The key register after n rounds. */
  function KeyRegister(sbox: bv8 -> bv8, key: Block, ck: seq<bv32>, n: nat): Quad
    requires n <= |ck|
  {
    if n == 0 then KeyStart(key)
    else
      var k := KeyRegister(sbox, key, ck, n - 1);
      Quad(k.x1, k.x2, k.x3, KeyWord(sbox, k.x0, k.x1, k.x2, k.x3, ck[n - 1]))
  }

  /** The round keys of key. */
  function Schedule(sbox: bv8 -> bv8, key: Block, ck: seq<bv32>): (sk: seq<bv32>)
    ensures |sk| == |ck|
  {
    seq(|ck|, i requires 0 <= i < |ck| => KeyRegister(sbox, key, ck, i + 1).x3)
  }

  datatype Mode = Encrypt | Decrypt

  /** struct sm4_context */
  class Context {
    const sbox: bv8 -> bv8
    var mode: Mode
    const sk: array<bv32>

    ghost predicate Valid()
    {
      sk.Length == 32
    }

    constructor (sbox: bv8 -> bv8)
      ensures Valid() && this.sbox == sbox && fresh(sk)
    {
      this.sbox := sbox;
      mode := Encrypt;
      sk := new bv32[32];
    }

    /** sm4_setkey() */
    method SetKey(key: Block)
      requires Valid()
      modifies sk
      ensures sk[..] == Schedule(sbox, key, CK)
    {
      hide KeyWord, KeyStart, CK;
      CKLength();
      var k := new bv32[36];
      var start := KeyStart(key);
      k[0], k[1], k[2], k[3] := start.x0, start.x1, start.x2, start.x3;
      for i := 0 to 32
        invariant Quad(k[i], k[i + 1], k[i + 2], k[i + 3]) == KeyRegister(sbox, key, CK, i)
        invariant forall j | 0 <= j < i :: sk[j] == KeyRegister(sbox, key, CK, j + 1).x3
      {
        k[i + 4] := KeyWord(sbox, k[i], k[i + 1], k[i + 2], k[i + 3], CK[i]);
        sk[i] := k[i + 4];
      }
    }

    /** sm4_setkey_enc() */
    method SetKeyEnc(key: Block)
      requires Valid()
      modifies this, sk
      ensures mode == Encrypt && sk[..] == Schedule(sbox, key, CK)
    {
      mode := Encrypt;
      SetKey(key);
    }

    /** sm4_setkey_dec(): the sixteen swaps reverse the schedule. */
    method SetKeyDec(key: Block)
      requires Valid()
      modifies this, sk
      ensures mode == Decrypt && sk[..] == Backwards(Schedule(sbox, key, CK))
    {
      hide Schedule;
      mode := Decrypt;
      SetKey(key);
      ghost var s := Schedule(sbox, key, CK);
      for i := 0 to 16
        modifies sk
        invariant forall j | 0 <= j < i :: sk[j] == s[31 - j] && sk[31 - j] == s[j]
        invariant forall j | i <= j < 32 - i :: sk[j] == s[j]
      {
        sk[i], sk[31 - i] := sk[31 - i], sk[i];
      }
    }

    /** sm4_one_round() */
    method OneRound(input: Block) returns (output: Block)
      requires Valid()
      ensures output == CryptBlock(sbox, sk[..], input)
    {
      hide F, Load, Store;
      var buf := new bv32[36];
      var q := Load(input);
      buf[0], buf[1], buf[2], buf[3] := q.x0, q.x1, q.x2, q.x3;
      assert sk[..][..0] == [];
      for i := 0 to 32
        invariant Quad(buf[i], buf[i + 1], buf[i + 2], buf[i + 3]) == Rounds(sbox, q, sk[..][..i])
      {
        assert sk[..][..i + 1][..i] == sk[..][..i] && sk[..][..i + 1][i] == sk[i];
        buf[i + 4] := F(sbox, buf[i], buf[i + 1], buf[i + 2], buf[i + 3], sk[i]);
      }
      assert sk[..][..32] == sk[..];
      output := Store(Quad(buf[35], buf[34], buf[33], buf[32]));
    }
  }
}
