/** SM3 and HMAC-SM3 (core/crypto/sm3.c) over an arbitrary compression function. */
module Sm3 {
  import opened Arithmetic
  import opened Bytes
  import opened BigEndian
  import opened Words32

  type Octets = seq<bv8>

  /** The eight words of the chaining state. */
  type Words = w: seq<bv32> | |w| == 8 witness INITIAL

  const INITIAL: seq<bv32> := [0x7380166F, 0x4914B2B9, 0x172442D7, 0xDA8A0600, 0xA96F30BC, 0x163138AA, 0xE38DEE4D, 0xB0FB0E4E]

  lemma InitialLength()
    ensures |INITIAL| == 8
  {
  }

  type Compress = (Words, Octets) -> Words

  // ---------- folding the compression function ----------

  /** The state after the whole blocks of s. */
  function Fold(f: Compress, v: Words, s: Octets): Words
    decreases |s|
  {
    if |s| < 64 then v else Fold(f, f(v, s[..64]), s[64..])
  }

  function Rest(s: Octets): (r: Octets)
    ensures |r| == |s| % 64
    decreases |s|
  {
    if |s| < 64 then s else Rest(s[64..])
  }

  lemma {:induction false} Split(f: Compress, v: Words, s: Octets, t: Octets)
    ensures Fold(f, v, s + t) == Fold(f, Fold(f, v, s), Rest(s) + t)
    ensures Rest(s + t) == Rest(Rest(s) + t)
    decreases |s|
  {
    if |s| >= 64 {
      assert (s + t)[..64] == s[..64] && (s + t)[64..] == s[64..] + t;
      Split(f, f(v, s[..64]), s[64..], t);
    }
  }

  lemma RestOfBlocks(s: Octets, k: nat)
    requires |s| == 64 * k
    ensures Rest(s) == []
  {
    hide Rest;
  }

  lemma OneBlock(f: Compress, v: Words, b: Octets)
    requires |b| == 64
    ensures Fold(f, v, b) == f(v, b)
  {
    assert b[..64] == b && b[64..] == [];
  }

  /** The buffered bytes and enough new ones for a block. */
  lemma FillFacts(f: Compress, v: Words, m: Octets, piece: Octets)
    requires |m| % 64 + |piece| == 64
    ensures Fold(f, v, m + piece) == Fold(f, Fold(f, v, m), Rest(m) + piece) && Rest(m + piece) == []
    ensures |m + piece| % 64 == 0
  {
    hide Fold, Rest;
    Split(f, v, m, piece);
    RestOfBlocks(Rest(m) + piece, 1);
  }

  /** k whole blocks, taken when nothing is buffered. */
  lemma BlocksFacts(f: Compress, v: Words, m: Octets, t: Octets, k: nat)
    requires 64 * k <= |t| && (k == 0 || |m| % 64 == 0)
    ensures Fold(f, v, m + t[..64 * k]) == Fold(f, Fold(f, v, m), t[..64 * k])
    ensures Rest(m + t[..64 * k]) == Rest(m) && |m + t[..64 * k]| % 64 == |m| % 64
  {
    hide Rest;
    Split(f, v, m, t[..64 * k]);
    RestOfBlocks(t[..64 * k], k);
    if k == 0 {
      assert m + t[..0] == m;
    } else {
      assert Rest(m) == [] && [] + t[..64 * k] == t[..64 * k];
    }
  }

  /** Less than what would complete a block. */
  lemma TailFacts(f: Compress, v: Words, m: Octets, t: Octets)
    requires |m| % 64 + |t| < 64
    ensures Fold(f, v, m + t) == Fold(f, v, m) && Rest(m + t) == Rest(m) + t && |m + t| % 64 == |m| % 64 + |t|
  {
    Split(f, v, m, t);
  }

  /** The carry of the two counter words is noticed by a comparison with the addend, which is wider than they
      are: the count is right exactly for addends below 2^32, and above while the sum carries only once. */
  lemma CountIff(n: nat, ilen: nat, t0: nat, t1: nat)
    requires t0 < TWO32 && t1 < TWO32 && ilen < TWO64 && t1 * TWO32 + t0 == n % TWO64
    ensures var c := (t0 + ilen) % TWO32;
            (if c < ilen then (t1 + 1) % TWO32 else t1) * TWO32 + c == (n + ilen) % TWO64
            <==> ilen < TWO32 || t0 + ilen < 2 * TWO32
  {
    var q, c := (t0 + ilen) / TWO32, (t0 + ilen) % TWO32;
    TrueCount(n, ilen, t0, t1);
    if ilen < TWO32 {
      assert q <= 1;
    } else {
      assert 1 <= q <= TWO32 && c < ilen;
      assert q == 1 <==> t0 + ilen < 2 * TWO32;
      SameWord(t1, q);
    }
  }

  lemma TrueCount(n: nat, ilen: nat, t0: nat, t1: nat)
    requires t0 < TWO32 && t1 * TWO32 + t0 == n % TWO64
    ensures (n + ilen) % TWO64 == (t1 + (t0 + ilen) / TWO32) % TWO32 * TWO32 + (t0 + ilen) % TWO32
  {
    var q, c := (t0 + ilen) / TWO32, (t0 + ilen) % TWO32;
    var w, k := (t1 + q) % TWO32, (t1 + q) / TWO32;
    assert n + ilen == n / TWO64 * TWO64 + (t1 + q) * TWO32 + c;
    assert (t1 + q) * TWO32 == k * TWO64 + w * TWO32;
    ModPlus(w * TWO32 + c, n / TWO64 + k);
  }

  lemma SameWord(t: nat, q: nat)
    requires t < TWO32 && 1 <= q <= TWO32
    ensures (t + 1) % TWO32 == (t + q) % TWO32 <==> q == 1
  {
  }

  lemma LeftIs(n: nat, t0: nat, t1: nat)
    requires t1 * TWO32 + t0 == n % TWO64
    ensures t0 % 64 == n % 64
  {
    assert n == n / TWO64 * TWO64 + n % TWO64;
  }

  // ---------- the hash, section 5 of GM/T 0004-2012 ----------

  function PadZeros(n: nat): nat {
    (119 - n % 64) % 64
  }

  lemma PadLength(n: nat)
    ensures (n + 1 + PadZeros(n) + 8) % 64 == 0
  {
    var r := n % 64;
    assert n == n / 64 * 64 + r;
    if r <= 55 {
      assert PadZeros(n) == 55 - r;
    } else {
      assert PadZeros(n) == 119 - r;
    }
  }

  /** Section 5.2: a one bit, the fewest zeros, and the bit length in 64 bits. */
  function Pad(m: Octets): (r: Octets)
    ensures |r| % 64 == 0
  {
    hide ToBe, PadZeros;
    PadLength(|m|);
    m + [0x80] + Zeros(PadZeros(|m|)) + ToBe(8 * |m| % TWO64, 8)
  }

  function Serialize(w: seq<bv32>): (r: Octets)
    ensures |r| == 4 * |w|
  {
    if w == [] then [] else Serialize(w[..|w| - 1]) + PutBe32(w[|w| - 1])
  }

  function Hash(f: Compress, m: Octets): (r: Octets)
    ensures |r| == 32
  {
    InitialLength();
    Serialize(Fold(f, INITIAL, Pad(m)))
  }

  /** The two halves of the bit length, computed from the two counter words in 32 bits. */
  lemma BitLength(n: nat, t0: nat, t1: nat)
    requires t0 < TWO32 && t1 < TWO32 && t1 * TWO32 + t0 == n % TWO64
    ensures var high, low := Or(t0 / 0x2000_0000, t1 * 8 % TWO32), t0 * 8 % TWO32;
            high < TWO32 && low < TWO32 && ToBe(high, 4) + ToBe(low, 4) == ToBe(8 * n % TWO64, 8)
  {
    hide ToBe, Or;
    var high, low := Or(t0 / 0x2000_0000, t1 * 8 % TWO32), t0 * 8 % TWO32;
    NoCommonBit(t0, t1);
    EightTimes(n);
    assert 8 * (n % TWO64) == 8 * t1 * TWO32 + 8 * t0;
    HighLow(t0, t1);
    assert Pow256(4) == TWO32 by {
      assert Pow256(2) == 0x10000;
    }
    ToBeConcat(high, low, 4, 4);
  }

  lemma NoCommonBit(t0: nat, t1: nat)
    requires t0 < TWO32 && t1 < TWO32
    ensures Or(t0 / 0x2000_0000, t1 * 8 % TWO32) == t0 / 0x2000_0000 + t1 * 8 % TWO32
  {
    hide Or;
    assert Pow2(2) == 4 && Pow2(3) == 8;
    assert t1 * 8 % TWO32 == t1 % 0x2000_0000 * 8;
    OrDisjoint(t0 / 0x2000_0000, t1 % 0x2000_0000, 3);
  }

  lemma EightTimes(n: nat)
    ensures 8 * n % TWO64 == 8 * (n % TWO64) % TWO64
  {
    ModPlus(8 * (n % TWO64), 8 * (n / TWO64));
  }

  lemma ModPlus(y: nat, k: nat)
    ensures (y + k * TWO64) % TWO64 == y % TWO64
  {
    assert y + k * TWO64 == (y / TWO64 + k) * TWO64 + y % TWO64;
  }

  lemma HighLow(t0: nat, t1: nat)
    requires t0 < TWO32 && t1 < TWO32
    ensures var high, low := t0 / 0x2000_0000 + t1 * 8 % TWO32, t0 * 8 % TWO32;
            high < TWO32 && high * TWO32 + low == (8 * t1 * TWO32 + 8 * t0) % TWO64
  {
    var a, b := t0 / 0x2000_0000, t0 % 0x2000_0000;
    var c, d := t1 / 0x2000_0000, t1 % 0x2000_0000;
    assert t0 * 8 == a * TWO32 + 8 * b && t1 * 8 == c * TWO32 + 8 * d;
    assert t0 * 8 % TWO32 == 8 * b && t1 * 8 % TWO32 == 8 * d;
    assert 8 * t1 * TWO32 + 8 * t0 == c * TWO64 + ((8 * d + a) * TWO32 + 8 * b);
  }

  lemma PadCount(n: nat)
    ensures PadZeros(n) + 1 == if n % 64 < 56 then 56 - n % 64 else 120 - n % 64
  {
  }

  lemma PadIs(m: Octets)
    ensures Pad(m) == m + ([0x80] + Zeros(PadZeros(|m|))) + ToBe(8 * |m| % TWO64, 8)
  {
    hide ToBe, PadZeros;
    var z := Zeros(PadZeros(|m|));
    assert m + [0x80] + z == m + ([0x80] + z);
  }

  // ---------- HMAC, section 2 of RFC 2104 ----------

  /** Keys longer than a block are hashed; then zeros fill the block. */
  function KeyBlock(f: Compress, key: Octets): (r: Octets)
    ensures |r| == 64
  {
    var k := if |key| > 64 then Hash(f, key) else key;
    k + Zeros(64 - |k|)
  }

  function Masked(k: Octets, x: bv8): (r: Octets)
    ensures |r| == |k|
  {
    seq(|k|, i requires 0 <= i < |k| => x ^ k[i])
  }

  function Hmac(f: Compress, key: Octets, text: Octets): Octets {
    var k := KeyBlock(f, key);
    Hash(f, Masked(k, 0x5C) + Hash(f, Masked(k, 0x36) + text))
  }

  // ---------- the code ----------

  /** struct sm3_context */
  class Context {
    const f: Compress
    var total0: nat
    var total1: nat
    var state: Words
    var buffer: Octets
    var ipad: Octets
    var opad: Octets
    ghost var message: Octets

    /** The byte count of the message, modulo 2^64, in two 32-bit words. */
    ghost predicate CountOk()
      reads `total0, `total1, `message
    {
      total0 < TWO32 && total1 < TWO32 && total1 * TWO32 + total0 == |message| % TWO64
    }

    ghost predicate HashOk()
      reads `state, `buffer, `message
    {
      InitialLength();
      |buffer| == 64 && state == Fold(f, INITIAL, message) && buffer[..|message| % 64] == Rest(message)
    }

    ghost predicate Valid()
      reads this
    {
      CountOk() && HashOk()
    }

    constructor (f: Compress)
      ensures this.f == f && Valid() && message == []
    {
      InitialLength();
      this.f := f;
      total0, total1, state, buffer, message := 0, 0, INITIAL, Zeros(64), [];
      ipad, opad := Zeros(64), Zeros(64);
    }

    /** sm3_init() */
    method Init()
      requires |buffer| == 64
      modifies `total0, `total1, `state, `message
      ensures Valid() && message == []
    {
      InitialLength();
      total0, total1, state, message := 0, 0, INITIAL, [];
    }

    /** sm3_process_blocks() */
    method ProcessBlocks(input: Octets, blockCount: nat)
      requires 64 * blockCount <= |input|
      modifies `state
      ensures state == Fold(f, old(state), input[..64 * blockCount])
    {
      for n := 0 to blockCount
        invariant state == Fold(f, old(state), input[..64 * n])
      {
        var block := input[64 * n..64 * n + 64];
        Split(f, old(state), input[..64 * n], block);
        RestOfBlocks(input[..64 * n], n);
        assert input[..64 * n] + block == input[..64 * (n + 1)] && [] + block == block;
        OneBlock(f, state, block);
        state := f(state, block);
      }
    }

    /** The two counter words, with the carry noticed by a comparison. */
    method Count(ilen: nat)
      requires CountOk() && ilen < TWO64
      modifies `total0, `total1
      ensures total0 < TWO32 && total1 < TWO32
      ensures total1 * TWO32 + total0 == (|message| + ilen) % TWO64 <==> ilen < TWO32 || old(total0) + ilen < 2 * TWO32
    {
      total0 := (total0 + ilen) % TWO32;
      if total0 < ilen {
        total1 := (total1 + 1) % TWO32;
      }
      CountIff(|message|, ilen, old(total0), old(total1));
    }

    /** sm3_update() */
    method Update(input: Octets)
      requires Valid() && |input| < TWO32
      modifies `total0, `total1, `state, `buffer, `message
      ensures Valid() && message == old(message) + input
    {
      hide Fold, Rest;
      assert message + [] == message;
      if |input| == 0 {
        return;
      }
      var left := total0 % 64;
      var fill := 64 - left;
      LeftIs(|message|, total0, total1);
      Count(|input|);
      Absorb(input, left, fill);
    }

    /** The rest of sm3_update(), after the counting. */
    method Absorb(input: Octets, left: nat, fill: nat)
      requires HashOk() && left == |message| % 64 && fill == 64 - left
      modifies `state, `buffer, `message
      ensures HashOk() && message == old(message) + input
    {
      hide Fold, Rest;
      InitialLength();
      var at, pos := 0, left;
      ghost var m := message;
      assert m + input[..0] == m;
      if left != 0 && |input| >= fill {
        buffer := buffer[..left] + input[..fill];
        FillFacts(f, INITIAL, m, input[..fill]);
        ProcessBlocks(buffer, 1);
        assert buffer[..64 * 1] == buffer;
        at, pos := fill, 0;
        message := m + input[..fill];
      }
      var blockCount := (|input| - at) / 64;
      if pos != 0 {
        assert blockCount == 0;
      }
      BlocksFacts(f, INITIAL, message, input[at..], blockCount);
      ProcessBlocks(input[at..], blockCount);
      ghost var blocks := input[at..][..64 * blockCount];
      assert message + blocks == m + input[..at + 64 * blockCount];
      message := message + blocks;
      at := at + 64 * blockCount;
      TailFacts(f, INITIAL, message, input[at..]);
      if |input| - at > 0 {
        buffer := buffer[..pos] + input[at..] + buffer[pos + |input| - at..];
      }
      assert message + input[at..] == m + input;
      message := m + input;
    }

    /** sm3_final() */
    method Final() returns (output: Octets)
      requires Valid()
      modifies `total0, `total1, `state, `buffer, `message
      ensures output == Hash(f, old(message)) && |buffer| == 64
    {
      hide Fold, Rest, ToBe, Pad, PadZeros, Serialize, Or;
      InitialLength();
      var high := Or(total0 / 0x2000_0000, total1 * 8 % TWO32);
      var low := total0 * 8 % TWO32;
      BitLength(|message|, total0, total1);
      LeftIs(|message|, total0, total1);
      PadIs(message);
      PadCount(|message|);
      var msglen := ToBe(high, 4) + ToBe(low, 4);
      var last := total0 % 64;
      var padn := if last < 56 then 56 - last else 120 - last;
      Update([0x80] + Zeros(padn - 1));
      Update(msglen);
      output := Serialize(state);
    }

    /** sm3_hmac_init() */
    method HmacInit(key: Octets)
      requires |buffer| == 64 && |key| < TWO32
      modifies this
      ensures Valid() && opad == Masked(KeyBlock(f, key), 0x5C) && message == Masked(KeyBlock(f, key), 0x36)
    {
      hide Hash;
      var k := key;
      if |key| > 64 {
        k := OneShot(f, key);
      }
      ghost var kb := KeyBlock(f, key);
      var i, o := seq(64, _ => 0x36), seq(64, _ => 0x5C);
      for n := 0 to |k|
        invariant |i| == 64 == |o|
        invariant forall j | 0 <= j < n :: i[j] == 0x36 ^ k[j] && o[j] == 0x5C ^ k[j]
        invariant forall j | n <= j < 64 :: i[j] == 0x36 && o[j] == 0x5C
      {
        i, o := i[n := 0x36 ^ k[n]], o[n := 0x5C ^ k[n]];
      }
      XorWithZero();
      assert i == Masked(kb, 0x36) && o == Masked(kb, 0x5C);
      ipad, opad := i, o;
      Init();
      Update(ipad);
      assert [] + i == i;
    }

    /** sm3_hmac_final() */
    method HmacFinal() returns (output: Octets)
      requires Valid() && |opad| == 64
      modifies `total0, `total1, `state, `buffer, `message
      ensures output == Hash(f, opad + Hash(f, old(message)))
    {
      hide Hash;
      var tmp := Final();
      Init();
      Update(opad);
      Update(tmp);
      assert [] + opad + tmp == opad + tmp;
      output := Final();
    }
  }

  lemma XorWithZero()
    ensures 0x36 as bv8 ^ 0 == 0x36 && 0x5C as bv8 ^ 0 == 0x5C
  {
  }

  /** sm3() */
  method OneShot(f: Compress, input: Octets) returns (output: Octets)
    requires |input| < TWO32
    ensures output == Hash(f, input)
  {
    hide Hash;
    var ctx := new Context(f);
    ctx.Update(input);
    assert [] + input == input;
    output := ctx.Final();
  }

  /** Feeds any pieces, each below 2^32 bytes. */
  method Feed(ctx: Context, pieces: seq<Octets>)
    requires ctx.Valid() && forall i | 0 <= i < |pieces| :: |pieces[i]| < TWO32
    modifies ctx`total0, ctx`total1, ctx`state, ctx`buffer, ctx`message
    ensures ctx.Valid() && ctx.message == old(ctx.message) + Concat(pieces)
  {
    hide Fold, Rest;
    assert pieces[..0] == [];
    assert ctx.message + [] == ctx.message;
    for k := 0 to |pieces|
      invariant ctx.Valid() && ctx.message == old(ctx.message) + Concat(pieces[..k])
    {
      assert pieces[..k + 1][..k] == pieces[..k];
      assert old(ctx.message) + Concat(pieces[..k]) + pieces[k] == old(ctx.message) + Concat(pieces[..k + 1]);
      ctx.Update(pieces[k]);
    }
    assert pieces[..|pieces|] == pieces;
  }

  /** However a message is cut, SM3 is the compression function folded over the padded message. */
  method HashRun(f: Compress, pieces: seq<Octets>) returns (output: Octets)
    requires forall i | 0 <= i < |pieces| :: |pieces[i]| < TWO32
    ensures output == Hash(f, Concat(pieces))
  {
    hide Hash;
    var ctx := new Context(f);
    Feed(ctx, pieces);
    assert [] + Concat(pieces) == Concat(pieces);
    output := ctx.Final();
  }

  /** However a text is cut, HMAC-SM3 is the HMAC of RFC 2104, for keys of any length. */
  method HmacRun(f: Compress, key: Octets, pieces: seq<Octets>) returns (output: Octets)
    requires |key| < TWO32 && forall i | 0 <= i < |pieces| :: |pieces[i]| < TWO32
    ensures output == Hmac(f, key, Concat(pieces))
  {
    hide Hash, KeyBlock, Masked;
    var ctx := new Context(f);
    ctx.HmacInit(key);
    Feed(ctx, pieces);
    output := ctx.HmacFinal();
  }
}
