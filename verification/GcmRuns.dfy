/** The code's mode against NIST SP 800-38D. */
module GcmNist {
  import opened Arithmetic
  import opened Bytes
  import opened BigEndian
  import opened GfWords
  import opened GcmSpec
  import opened GcmCode
  import Gcm

  const TWO96: nat := 0x1_0000_0000_0000_0000_0000_0000
  const TWO29: nat := 0x2000_0000

  lemma LowWord(b: Block)
    ensures FromBe(b) == FromBe(b[..12]) * TWO32 + FromBe(b[12..])
    ensures FromBe(b[..12]) < TWO96 && FromBe(b[12..]) < TWO32
  {
    hide FromBe;
    Gcm.Pow256Of8();
    FromBeConcat(b[..12], b[12..]);
    assert b[..12] + b[12..] == b;
    FromBeBound(b[12..]);
    FromBeBound(b[..12]);
    assert Pow256(12) == TWO96 by {
      assert Pow256(10) == 0x1_0000_0000_0000_0000_0000;
    }
  }

  lemma SplitCounter(hi: nat, lo: nat)
    requires hi < TWO96 && lo < TWO32
    ensures Counter(hi * TWO32 + lo) == ToBe(hi, 12) + ToBe(lo, 4)
  {
    hide ToBe;
    Gcm.Pow256Of8();
    ToBeConcat(hi, lo, 12, 4);
  }

  /** The 128-bit increment is inc32 as long as the low word does not wrap. */
  lemma CounterIsInc32(b: Block, k: nat)
    requires FromBe(b[12..]) + k < TWO32
    ensures Counter(FromBe(b) + k) == Inc32(b, k)
  {
    hide FromBe, ToBe, Counter;
    LowWord(b);
    SplitCounter(FromBe(b[..12]), FromBe(b[12..]) + k);
    ToBeFromBe(b[..12]);
  }

  /** When the low word wraps the code carries into the nonce and inc32 does not. */
  lemma CarryDiffers(b: Block, k: nat)
    requires FromBe(b[12..]) + k == TWO32
    ensures Counter(FromBe(b) + k) != Inc32(b, k)
  {
    hide FromBe, ToBe;
    LowWord(b);
    var hi := FromBe(b[..12]);
    SplitCounter(hi, 0);
    ToBeFromBe(b[..12]);
    assert Inc32(b, k) == Counter(hi * TWO32);
    var n := (FromBe(b) + k) % TWO128;
    assert n != hi * TWO32 by {
      assert FromBe(b) + k == (hi + 1) * TWO32;
      if hi + 1 == TWO96 {
        assert n == 0;
      } else {
        assert n == (hi + 1) * TWO32;
      }
    }
    if ToBe(n, 16) == ToBe(hi * TWO32 % TWO128, 16) {
      Pow256Of16();
      ToBeInjective(n, hi * TWO32, 16);
      assert false;
    }
  }

  /** Exactly when the code's counter blocks are the standard's: while the low word of the
      pre-counter block has room for all of them. */
  lemma CountersAgreeIff(b: Block, m: nat)
    ensures (forall k: nat | k <= m :: Counter(FromBe(b) + k) == Inc32(b, k)) <==> FromBe(b[12..]) + m < TWO32
  {
    hide FromBe, ToBe, Counter, Inc32;
    LowWord(b);
    if FromBe(b[12..]) + m < TWO32 {
      forall k: nat | k <= m
        ensures Counter(FromBe(b) + k) == Inc32(b, k)
      {
        CounterIsInc32(b, k);
      }
    } else {
      CarryDiffers(b, TWO32 - FromBe(b[12..]));
    }
  }

  lemma Inc32Twice(b: Block, k: nat)
    ensures Inc32(Inc32(b, 1), k) == Inc32(b, k + 1)
  {
    hide FromBe, ToBe;
    var w := (FromBe(b[12..]) + 1) % TWO32;
    Gcm.Pow256Of8();
    FromBeToBe(w, 4);
    assert Inc32(b, 1)[12..] == ToBe(w, 4) && Inc32(b, 1)[..12] == b[..12];
    assert (w + k) % TWO32 == (FromBe(b[12..]) + (k + 1)) % TWO32;
  }

  /** The code's key stream is GCTR of the standard while the counters agree. */
  lemma CryptIsGctr(e: Block -> Block, j: Block, p: seq<bv8>)
    requires p != [] ==> FromBe(j[12..]) + 1 + (|p| - 1) / 16 < TWO32
    ensures Crypt(e, FromBe(j) + 1, 0, p) == Gctr(e, Inc32(j, 1), p)
  {
    hide FromBe, ToBe, Counter, Inc32;
    forall i | 0 <= i < |p|
      ensures Crypt(e, FromBe(j) + 1, 0, p)[i] == Gctr(e, Inc32(j, 1), p)[i]
    {
      CounterIsInc32(j, i / 16 + 1);
      Inc32Twice(j, i / 16);
      assert FromBe(j) + 1 + i / 16 == FromBe(j) + (i / 16 + 1);
    }
  }

  /** The 32-bit length field is the standard's exactly below 2^29 bytes. */
  lemma CodeLenIff(n: nat)
    requires n < 0x2000_0000_0000_0000
    ensures CodeLen(n) == Len64(n) <==> n < TWO29
  {
    hide ToBe;
    Gcm.Pow256Of8();
    if CodeLen(n) == Len64(n) {
      ToBeInjective(n % TWO32 * 8 % TWO32, 8 * n, 8);
    }
  }

  lemma PadPad(a: seq<bv8>, c: seq<bv8>)
    ensures Pad(Pad(a) + c) == Pad(a) + Pad(c)
  {
    var t := Pad(a) + c;
    assert |t| % 16 == |c| % 16;
  }

  lemma OneInLowWord(iv: seq<bv8>)
    requires |iv| == 12
    ensures FromBe((iv + [0, 0, 0, 1])[12..]) == 1
  {
    assert (iv + [0, 0, 0, 1])[12..] == [0, 0, 0] + [1];
    FromBeSnoc([0, 0, 0], 1);
    FromBeSnoc([0, 0], 0);
    assert [0, 0] + [0] == [0, 0, 0];
    assert FromBe([0, 0]) == 0;
  }

  lemma {:induction false} ZeroBytes(k: nat)
    ensures ToBe(0, k) == Zeros(k)
  {
    if k > 0 {
      ZeroBytes(k - 1);
    }
  }

  lemma PreCounterAgrees(e: Block -> Block, iv: seq<bv8>)
    requires |iv| < TWO29
    ensures CodeJ0(e, iv) == J0(e, iv)
  {
    hide ToBe, Ghash, BlockMul, Pad;
    CodeLenIff(|iv|);
    ZeroBytes(8);
    assert CodeLen(0) == Zeros(8);
  }

  /** Below 2^29 bytes, and while the low word of the pre-counter block has room, the code
      computes section 7.1 for a nonce of any length. */
  lemma CodeIsNist(e: Block -> Block, iv: seq<bv8>, aad: seq<bv8>, p: seq<bv8>)
    requires |iv| < TWO29 && |aad| < TWO29 && |p| < TWO29
    requires p != [] ==> FromBe(J0(e, iv)[12..]) + 1 + (|p| - 1) / 16 < TWO32
    ensures Crypt(e, FirstCounter(e, iv), 0, p) == Ciphertext(e, iv, p)
    ensures CodeTag(e, iv, Pad(aad) + p, |aad|, |p|) == Tag(e, iv, aad, p)
  {
    hide FromBe, ToBe, Ghash, BlockMul, CodeLen, Len64, Pad, Inc32, Gctr, Crypt, CodeJ0, J0;
    PreCounterAgrees(e, iv);
    CryptIsGctr(e, J0(e, iv), p);
    CodeLenIff(|aad|);
    CodeLenIff(|p|);
    PadPad(aad, p);
  }

  /** With 96-bit nonces there always is room. */
  lemma RoomFor96BitNonces(e: Block -> Block, iv: seq<bv8>, p: seq<bv8>)
    requires |iv| == 12 && |p| < TWO29
    ensures p != [] ==> FromBe(J0(e, iv)[12..]) + 1 + (|p| - 1) / 16 < TWO32
  {
    hide FromBe;
    OneInLowWord(iv);
  }
}

/** Inputs at which the code's counters leave those of the standard. */
module GcmCarry {
  import opened Arithmetic
  import opened ByteValues
  import opened Bytes
  import opened BigEndian
  import opened Gf128
  import opened GfWords
  import opened GcmSpec
  import opened GcmCode
  import opened GcmNist
  import Gcm

  // ---------- exactly when the key streams agree ----------

  function Mark(at: Block): Block -> Block {
    b => if b == at then [0xff] + Zeros(15) else Zeros(16)
  }

  ghost predicate SameStream(j: Block, e: Block -> Block, n: nat) {
    Crypt(e, FromBe(j) + 1, 0, Zeros(n)) == Gctr(e, Inc32(j, 1), Zeros(n))
  }

  /** Where the low word wraps, a cipher that marks the code's counter block tells the two apart. */
  lemma StreamsDiffer(j: Block, n: nat)
    requires n > 0 && FromBe(j[12..]) + 1 + (n - 1) / 16 >= TWO32
    ensures exists e :: !SameStream(j, e, n)
  {
    hide FromBe, ToBe, Counter, Inc32;
    LowWord(j);
    var k := TWO32 - FromBe(j[12..]) - 1;
    var at := Counter(FromBe(j) + (k + 1));
    CarryDiffers(j, k + 1);
    Inc32Twice(j, k);
    var e := Mark(at);
    var i := 16 * k;
    assert i < n && i / 16 == k && i % 16 == 0;
    assert Crypt(e, FromBe(j) + 1, 0, Zeros(n))[i] == e(at)[0] ^ 0 by {
      assert FromBe(j) + 1 + k == FromBe(j) + (k + 1);
    }
    assert Gctr(e, Inc32(j, 1), Zeros(n))[i] == 0 ^ e(Inc32(j, k + 1))[0];
    assert !SameStream(j, e, n);
  }

  /** Whatever the cipher, n bytes from pre-counter block j are encrypted as the standard says if and only if
      the low word of j has room for their blocks. */
  lemma StreamsAgreeIff(j: Block, n: nat)
    ensures (forall e :: SameStream(j, e, n)) <==> n == 0 || FromBe(j[12..]) + 1 + (n - 1) / 16 < TWO32
  {
    hide FromBe, ToBe, Counter, Inc32, Crypt, Gctr;
    if n == 0 || FromBe(j[12..]) + 1 + (n - 1) / 16 < TWO32 {
      forall e
        ensures SameStream(j, e, n)
      {
        CryptIsGctr(e, j, Zeros(n));
      }
    } else {
      StreamsDiffer(j, n);
    }
  }

  // ---------- a nonce that gets there ----------

  /** The unit of the block product. */
  const UNIT: Block := [0x80] + Zeros(15)

  /** A cipher whose hash subkey is the unit. */
  function UnitCipher(): Block -> Block {
    b => if b == ZERO_BLOCK then UNIT else b
  }

  const CARRY_NONCE: Block := Zeros(12) + [0xff, 0xff, 0xff, 0x7f]

  const ONES_BLOCK: Block := Zeros(12) + [0xff, 0xff, 0xff, 0xff]

  lemma UnitBits()
    ensures BitsOf(UNIT) == Unit(0)
  {
    forall n | 0 <= n < 128
      ensures BitsOf(UNIT)[n] == (n == 0)
    {
      assert BitsOf(UNIT)[n] == BitAt(UNIT, n);
      if 8 <= n {
        assert UNIT[n / 8] == 0;
      }
    }
  }

  lemma TimesUnit(x: Block)
    ensures BlockMul(x, UNIT) == x
  {
    hide BitsOf, BytesOf, Sum;
    UnitBits();
    SumUnit(BitsOf(x), 0);
    assert From(BitsOf(x), 0) == BitsOf(x);
    BytesOfBitsOf(x);
  }

  lemma LengthField()
    ensures Len64(16) == Zeros(7) + [0x80]
  {
    hide Byte;
    ZeroBytes(7);
    ToBeSnoc(0, 128, 7);
    ValueInjective(Byte(128), 0x80);
  }

  /** The nonce and its length field add up to a low word of ones. */
  lemma CarryPreCounter()
    ensures J0(UnitCipher(), CARRY_NONCE) == ONES_BLOCK
  {
    hide BlockMul, Ghash, Len64;
    LengthField();
    assert Pad(CARRY_NONCE) == CARRY_NONCE;
    assert CARRY_NONCE + Zeros(8) + (Zeros(7) + [0x80]) == CARRY_NONCE + LENGTH_BLOCK;
    UnitGhash(CARRY_NONCE, LENGTH_BLOCK);
    NonceAndLength();
  }

  const LENGTH_BLOCK: Block := Zeros(8) + (Zeros(7) + [0x80])

  lemma NonceAndLength()
    ensures Xor(CARRY_NONCE, LENGTH_BLOCK) == ONES_BLOCK
  {
  }

  lemma XorNone(b: Block)
    ensures Xor(ZERO_BLOCK, b) == b
  {
    forall i | 0 <= i < 16
      ensures Xor(ZERO_BLOCK, b)[i] == b[i]
    {
      assert 0 ^ b[i] == b[i];
    }
  }

  /** With the unit as subkey, the hash of two blocks is their sum. */
  lemma UnitGhash(a: Block, b: Block)
    ensures Ghash(UNIT, ZERO_BLOCK, a + b) == Xor(a, b)
  {
    hide BlockMul, Ghash, Xor;
    GhashBlock(UNIT, ZERO_BLOCK, [], a);
    assert [] + a == a;
    Gcm.GhashNil(UNIT, ZERO_BLOCK);
    XorNone(a);
    TimesUnit(a);
    GhashBlock(UNIT, ZERO_BLOCK, a, b);
    TimesUnit(Xor(a, b));
  }

  lemma OnesLowWord()
    ensures FromBe(ONES_BLOCK[12..]) == TWO32 - 1 && FromBe(ONES_BLOCK) == TWO32 - 1
  {
    hide FromBe, Value;
    var f: bv8 := 0xff;
    NextByte(f);
    assert ONES_BLOCK[12..] == [f, f, f] + [f] && ONES_BLOCK[..12] == Zeros(12);
    FromBeNil();
    FromBeSnoc([], f);
    FromBeSnoc([f], f);
    FromBeSnoc([f, f], f);
    FromBeSnoc([f, f, f], f);
    assert [] + [f] == [f] && [f] + [f] == [f, f] && [f, f] + [f] == [f, f, f];
    LowWord(ONES_BLOCK);
    ZeroBytes(12);
    FromBeToBe(0, 12);
  }

  lemma FirstByteAfter()
    ensures Counter(TWO32)[0] == 0 && Counter(TWO32) != ZERO_BLOCK
  {
    hide ToBe;
    Gcm.Pow256Of8();
    ToBeConcat(0, TWO32, 8, 8);
    ZeroBytes(8);
    ZeroBytes(16);
    Pow256Of16();
    if Counter(TWO32) == ZERO_BLOCK {
      ToBeInjective(TWO32, 0, 16);
      assert false;
    }
  }

  /** One byte of plaintext under this nonce: the code carries into the upper words, the standard does not, and
      the ciphertexts differ. */
  lemma CarryCiphertext()
    ensures Crypt(UnitCipher(), FirstCounter(UnitCipher(), CARRY_NONCE), 0, [0]) == [0]
    ensures Ciphertext(UnitCipher(), CARRY_NONCE, [0]) == [0x80]
  {
    hide FromBe, ToBe, Counter, J0, CodeJ0;
    var e := UnitCipher();
    CarryPreCounter();
    PreCounterAgrees(e, CARRY_NONCE);
    OnesLowWord();
    FirstByteAfter();
    assert Crypt(e, TWO32, 0, [0])[0] == 0;
    ZeroBytes(4);
    assert Inc32(ONES_BLOCK, 1) == ZERO_BLOCK;
    Inc32Twice(ONES_BLOCK, 0);
    assert Gctr(e, ZERO_BLOCK, [0])[0] == 0x80;
  }
}

/** Whole runs of the streaming interface, cut into calls in any way. */
module GcmRuns {
  import opened Bytes
  import opened GcmSpec
  import opened GcmCode
  import opened Gcm
  import GcmNist

  /** A buffer with its address. */
  datatype Buffer = Buffer(addr: nat, data: seq<bv8>)

  /** Where the k-th buffer of a kind is. */
  type Addresses = nat -> nat

  /** What GHASH has taken once a started payload has closed the AAD. */
  ghost function Closed(st: State): seq<bv8>
    reads st
  {
    if st.payloadBytes == 0 then Pad(st.hashed) else st.hashed
  }

  lemma ClosedIsHashed(st: State)
    requires st.HashOk(st.hashed) && st.CountsOk() && st.bufPos == st.done % 16
    ensures Closed(st) == st.hashed
  {
    hide Ghash, GfWords.BlockMul;
    HashedPos(st.hashSubkey, st.hashState, st.bufHash, st.bufPos, st.hashed);
    if st.payloadBytes == 0 {
      MultipleOf16(st.done);
    }
  }

  method FeedAad(st: State, pieces: seq<seq<bv8>>, at: Addresses)
    requires st.Valid() && st.payloadBytes == 0
    modifies st`aadBytes, st`bufHash, st`bufPos, st`hashState, st`hashed, st`aadDone
    ensures st.Valid() && st.hashed == old(st.hashed) + Concat(pieces) && st.aadDone == old(st.aadDone) + |Concat(pieces)|
  {
    hide State.KeyOk, State.CryptOk, State.HashOk, State.NonceOk, State.CountsOk;
    assert pieces[..0] == [];
    for k := 0 to |pieces|
      invariant st.Valid() && st.hashed == old(st.hashed) + Concat(pieces[..k])
      invariant st.aadDone == old(st.aadDone) + |Concat(pieces[..k])|
    {
      assert pieces[..k + 1][..k] == pieces[..k];
      Regroup3(old(st.hashed), Concat(pieces[..k]), pieces[k]);
      var res := st.UpdateAad(at(k), pieces[k]);
    }
    assert pieces[..|pieces|] == pieces;
  }

  method FeedPayload(st: State, m: Mode, pieces: seq<seq<bv8>>) returns (out: seq<bv8>)
    requires st.Valid() && m == st.mode
    modifies st`bufCryp, st`bufHash, st`bufPos, st`hashState, st`ctr0, st`ctr1, st`payloadBytes, st`done, st`hashed
    ensures st.Valid() && st.done == old(st.done) + |Concat(pieces)| && out == Crypt(st.e, st.first, old(st.done), Concat(pieces))
    ensures Closed(st) == old(Closed(st)) + if m == Encrypt then out else Concat(pieces)
  {
    hide State.KeyOk, State.CryptOk, State.NonceOk, Crypt, Hashed, Pad;
    assert pieces[..0] == [];
    out := [];
    CryptNil(st.e, st.first, st.done);
    for k := 0 to |pieces|
      invariant st.Valid() && st.done == old(st.done) + |Concat(pieces[..k])|
      invariant out == Crypt(st.e, st.first, old(st.done), Concat(pieces[..k]))
      invariant Closed(st) == old(Closed(st)) + if m == Encrypt then out else Concat(pieces[..k])
    {
      assert pieces[..k + 1][..k] == pieces[..k];
      var before := out;
      var dst := st.UpdatePayload(m, pieces[k]);
      CryptSplit(st.e, st.first, old(st.done), Concat(pieces[..k]), pieces[k]);
      ClosedIsHashed(st);
      Regroup3(old(Closed(st)), if m == Encrypt then before else Concat(pieces[..k]), if m == Encrypt then dst else pieces[k]);
      out := out + dst;
    }
    assert pieces[..|pieces|] == pieces;
  }

  /** Init, then any AAD calls. */
  method Open(e: Block -> Block, tables: bool, m: Mode, nonce: Buffer, aad: seq<seq<bv8>>, at: Addresses, tagLen: nat) returns (st: State)
    requires tagLen <= 16
    ensures fresh(st) && st.Valid() && st.e == e && st.mode == m && st.nonce == nonce.data && st.tagLen == tagLen
    ensures st.done == 0 && st.aadDone == |Concat(aad)| && Closed(st) == Pad(Concat(aad)) && st.first == FirstCounter(e, nonce.data)
  {
    hide State.KeyOk, State.CryptOk, State.HashOk, FirstCounter, Pad;
    st := new State(tables);
    var res := st.Init(e, m, nonce.addr, nonce.data, tagLen);
    FeedAad(st, aad, at);
    assert [] + Concat(aad) == Concat(aad);
  }

  /** Init, any AAD calls, any payload calls, enc_final: the ciphertext and the tag depend only on
      the concatenations. */
  method EncryptRun(e: Block -> Block, tables: bool, nonce: Buffer, aad: seq<seq<bv8>>, at: Addresses, pieces: seq<seq<bv8>>, last: seq<bv8>, tagLen: nat)
      returns (cipher: seq<bv8>, tag: seq<bv8>)
    requires tagLen <= 16
    ensures cipher == Crypt(e, FirstCounter(e, nonce.data), 0, Concat(pieces) + last)
    ensures tag == CodeTag(e, nonce.data, Pad(Concat(aad)) + cipher, |Concat(aad)|, |cipher|)[..tagLen]
  {
    hide State.Valid, Crypt, Pad, CodeTag, FirstCounter;
    var st := Open(e, tables, Encrypt, nonce, aad, at, tagLen);
    cipher := FeedPayload(st, Encrypt, pieces);
    CryptSplit(e, st.first, 0, Concat(pieces), last);
    var res, dst;
    res, dst, tag := st.EncFinal(last, tagLen);
    Regroup3(Pad(Concat(aad)), cipher, dst);
    cipher := cipher + dst;
  }

  /** With a 96-bit nonce, and AAD and plaintext below 2^29 bytes, any such run computes the authenticated
      encryption of section 7.1. */
  method EncryptRunIsNist(e: Block -> Block, tables: bool, nonce: Buffer, aad: seq<seq<bv8>>, at: Addresses, pieces: seq<seq<bv8>>, last: seq<bv8>, tagLen: nat)
      returns (cipher: seq<bv8>, tag: seq<bv8>)
    requires tagLen <= 16 && |nonce.data| == 12
    requires |Concat(aad)| < GcmNist.TWO29 && |Concat(pieces) + last| < GcmNist.TWO29
    ensures cipher == Ciphertext(e, nonce.data, Concat(pieces) + last)
    ensures tag == Tag(e, nonce.data, Concat(aad), cipher)[..tagLen]
  {
    hide Crypt, Pad, CodeTag, FirstCounter, Ciphertext, Tag, J0;
    cipher, tag := EncryptRun(e, tables, nonce, aad, at, pieces, last, tagLen);
    GcmNist.RoomFor96BitNonces(e, nonce.data, Concat(pieces) + last);
    GcmNist.CodeIsNist(e, nonce.data, Concat(aad), Concat(pieces) + last);
    GcmNist.RoomFor96BitNonces(e, nonce.data, cipher);
    GcmNist.CodeIsNist(e, nonce.data, Concat(aad), cipher);
  }

  /** And with the same bounds any decrypting run is the authenticated decryption of section 7.2: it succeeds
      exactly on the tag of the ciphertext, and its output is GCTR of it. */
  method DecryptRunIsNist(e: Block -> Block, tables: bool, nonce: Buffer, aad: seq<seq<bv8>>, at: Addresses, pieces: seq<seq<bv8>>, last: seq<bv8>, tag: seq<bv8>)
      returns (res: TeeResult, plain: seq<bv8>)
    requires |tag| <= 16 && |nonce.data| == 12
    requires |Concat(aad)| < GcmNist.TWO29 && |Concat(pieces) + last| < GcmNist.TWO29
    ensures plain == Gctr(e, Inc32(J0(e, nonce.data), 1), Concat(pieces) + last)
    ensures res == if tag == Tag(e, nonce.data, Concat(aad), Concat(pieces) + last)[..|tag|] then Success else MacInvalid
  {
    hide Crypt, Pad, CodeTag, FirstCounter, Tag, J0, Gctr;
    var c := Concat(pieces) + last;
    res, plain := DecryptRun(e, tables, nonce, aad, at, pieces, last, tag);
    GcmNist.RoomFor96BitNonces(e, nonce.data, c);
    GcmNist.CodeIsNist(e, nonce.data, Concat(aad), c);
  }

  /** The same for decryption; it succeeds exactly on the tag of what it was given. */
  method DecryptRun(e: Block -> Block, tables: bool, nonce: Buffer, aad: seq<seq<bv8>>, at: Addresses, pieces: seq<seq<bv8>>, last: seq<bv8>, tag: seq<bv8>)
      returns (res: TeeResult, plain: seq<bv8>)
    requires |tag| <= 16
    ensures plain == Crypt(e, FirstCounter(e, nonce.data), 0, Concat(pieces) + last)
    ensures var c := Concat(pieces) + last;
            res == if tag == CodeTag(e, nonce.data, Pad(Concat(aad)) + c, |Concat(aad)|, |c|)[..|tag|] then Success else MacInvalid
  {
    hide State.Valid, Crypt, Pad, CodeTag, FirstCounter;
    var st := Open(e, tables, Decrypt, nonce, aad, at, |tag|);
    plain := FeedPayload(st, Decrypt, pieces);
    CryptSplit(e, st.first, 0, Concat(pieces), last);
    var dst;
    res, dst := st.DecFinal(last, tag);
    Regroup3(Pad(Concat(aad)), Concat(pieces), last);
    plain := plain + dst;
  }

  lemma CryptUndoes(e: Block -> Block, c: nat, p: seq<bv8>)
    ensures Crypt(e, c, 0, Crypt(e, c, 0, p)) == p
  {
    forall i | 0 <= i < |p|
      ensures Crypt(e, c, 0, Crypt(e, c, 0, p))[i] == p[i]
    {
      XorTwice(KeyByte(e, c, i), p[i]);
    }
  }

  lemma XorTwice(k: bv8, x: bv8)
    ensures k ^ (k ^ x) == x
  {
  }

  /** Cuts s at the given lengths; what is left over is returned separately. */
  method CutUp(s: seq<bv8>, cuts: seq<nat>) returns (pieces: seq<seq<bv8>>, last: seq<bv8>)
    ensures Concat(pieces) + last == s
  {
    pieces, last := [], s;
    for k := 0 to |cuts|
      invariant Concat(pieces) + last == s
    {
      var n := if cuts[k] <= |last| then cuts[k] else |last|;
      var piece := last[..n];
      assert (pieces + [piece])[..|pieces|] == pieces;
      Regroup3(Concat(pieces), last[..n], last[n..]);
      assert last[..n] + last[n..] == last;
      pieces, last := pieces + [piece], last[n..];
    }
  }

  /** Decrypting what was encrypted, with its tag, succeeds and gives back the plaintext, however
      either side cuts AAD and payload, whichever multiplier each side uses. */
  method RoundTrip(e: Block -> Block, tables: bool, tables': bool, nonce: Buffer, nonce': Buffer, aad: seq<seq<bv8>>, at: Addresses, aad': seq<seq<bv8>>, at': Addresses,
                   pieces: seq<seq<bv8>>, last: seq<bv8>, cuts: seq<nat>, tagLen: nat)
      returns (res: TeeResult, plain: seq<bv8>)
    requires tagLen <= 16 && nonce.data == nonce'.data && Concat(aad) == Concat(aad')
    ensures res == Success && plain == Concat(pieces) + last
  {
    hide Crypt, Pad, CodeTag, FirstCounter;
    var cipher, tag := EncryptRun(e, tables, nonce, aad, at, pieces, last, tagLen);
    var pieces', last' := CutUp(cipher, cuts);
    res, plain := DecryptRun(e, tables', nonce', aad', at', pieces', last', tag);
    CryptUndoes(e, FirstCounter(e, nonce.data), Concat(pieces) + last);
  }

  // ---------- AAD after an empty payload call ----------

  /** An empty payload call closes the AAD without being remembered, so more AAD is accepted. */
  method LateAad(st: State, m: Mode, a: Buffer, b: Buffer) returns (res: TeeResult)
    requires st.Valid() && m == st.mode && st.payloadBytes == 0
    modifies st
    ensures st.Valid() && res == Success && st.hashed == Pad(old(st.hashed) + a.data) + b.data
  {
    hide State.KeyOk, State.CryptOk, State.HashOk, State.NonceOk, Pad;
    res := st.UpdateAad(a.addr, a.data);
    var dst := st.UpdatePayload(m, []);
    assert Pad(st.hashed) + [] == Pad(st.hashed);
    res := st.UpdateAad(b.addr, b.data);
    assert Pad(old(st.hashed) + a.data) + [] == Pad(old(st.hashed) + a.data);
  }

  ghost predicate AllZero(b: seq<bv8>) {
    forall i | 0 <= i < |b| :: b[i] == 0
  }

  ghost predicate Shifted(b: seq<bv8>, p: nat, j: nat) {
    j < |b| && b[j] == if j < p then 0 else b[j - p]
  }

  /** b equals itself shifted right by p with zeros in front: then it is all zero. */
  lemma {:induction false} ShiftedZero(b: seq<bv8>, p: nat, i: nat)
    requires p > 0 && i < |b|
    requires forall j: nat | j < |b| :: Shifted(b, p, j)
    ensures b[i] == 0
    decreases i
  {
    assert Shifted(b, p, i);
    if p <= i {
      ShiftedZero(b, p, i - p);
    }
  }

  /** Exactly when the tag still covers the concatenation of the two AAD parts: the GHASH input
      is that of a + b if and only if the empty call closed nothing, or nothing followed it, or
      only zeros did that the padding would have supplied. */
  lemma LateAadIff(a: seq<bv8>, b: seq<bv8>)
    ensures Pad(Pad(a) + b) == Pad(a + b)
            <==> |a| % 16 == 0 || b == [] || (AllZero(b) && |Pad(Pad(a) + b)| == |Pad(a + b)|)
  {
    var x, y := Pad(Pad(a) + b), Pad(a + b);
    var p := PadLen(|a|);
    if |a| % 16 == 0 {
      assert Pad(a) == a;
    } else if b == [] {
      assert a + b == a && Pad(a) + b == Pad(a);
    } else if AllZero(b) && |x| == |y| {
      assert x == y;
    } else if x == y {
      forall j: nat | j < |b|
        ensures Shifted(b, p, j)
      {
        assert y[|a| + j] == b[j];
        assert x[|a| + j] == if j < p then 0 else b[j - p];
      }
      forall i | 0 <= i < |b|
        ensures b[i] == 0
      {
        ShiftedZero(b, p, i);
      }
    }
  }
}
