/** Shoup's method with 4-bit tables (core/crypto/aes-gcm-ghash-tbl.c). */
module GfTables {
  import opened Bytes
  import opened Gf128
  import opened GfWords

  // ---------- four shifts at once ----------

  function Next4(v: Bits): Bits {
    Next(Next(Next(Next(v))))
  }

  /** Bit i of v after four shifts: the four bits shifted out land in the first ten places. */
  predicate After4(v: Bits, i: nat)
    requires i < 128
  {
    (4 <= i && v[i - 4])
    != ((v[124] && Reduction(i)) != ((v[125] && Reduction(i - 1)) != ((v[126] && Reduction(i - 2)) != (v[127] && Reduction(i - 3)))))
  }

  lemma NextTwice(v: Bits, i: nat)
    requires i < 128
    ensures Next(Next(v))[i] == ((2 <= i && v[i - 2]) != ((v[126] && Reduction(i)) != (v[127] && Reduction(i - 1))))
  {
  }

  lemma Next4At(v: Bits, i: nat)
    requires i < 128
    ensures Next4(v)[i] == After4(v, i)
  {
    var w: Bits := Next(Next(v));
    NextTwice(w, i);
    NextTwice(v, 126);
    NextTwice(v, 127);
    if 2 <= i {
      NextTwice(v, i - 2);
    }
  }

  /** The value of four bits, most significant first. */
  function Value(b: seq<bool>): nat
    requires |b| == 4
  {
    (if b[0] then 8 else 0) + (if b[1] then 4 else 0) + (if b[2] then 2 else 0) + if b[3] then 1 else 0
  }

  /** The static table last4 of the source. */
  const LAST4: seq<bv16> := [
    0x0000, 0x1c20, 0x3840, 0x2460,
    0x7080, 0x6ca0, 0x48c0, 0x54e0,
    0xe100, 0xfd20, 0xd940, 0xc560,
    0x9180, 0x8da0, 0xa9c0, 0xb5e0
  ]

  function Mask16(i: nat): bv16
    requires i < 16
  {
    if i < 8 then
      if i == 0 then 0x8000 else if i == 1 then 0x4000 else if i == 2 then 0x2000 else if i == 3 then 0x1000
      else if i == 4 then 0x0800 else if i == 5 then 0x0400 else if i == 6 then 0x0200 else 0x0100
    else
      if i == 8 then 0x80 else if i == 9 then 0x40 else if i == 10 then 0x20 else if i == 11 then 0x10
      else if i == 12 then 0x08 else if i == 13 then 0x04 else if i == 14 then 0x02 else 0x01
  }

  /** (uint64_t)last4[rem] << 48 */
  function Last4(rem: nat): Word
    requires rem < 16
  {
    seq(64, i requires 0 <= i < 64 => i < 16 && LAST4[rem] & Mask16(i) != 0)
  }

  lemma Last4Bit(b: seq<bool>, i: nat)
    requires |b| == 4 && i < 64
    ensures Last4(Value(b))[i] == ((b[0] && Reduction(i)) != ((b[1] && Reduction(i - 1)) != ((b[2] && Reduction(i - 2)) != (b[3] && Reduction(i - 3)))))
  {
    if i < 16 {
      var w := LAST4[Value(b)];
      assert Value(b) < 16;
    }
  }

  function Shift4High(h: Word, l: Word): Word {
    XorWord(Shr(h, 4), Last4(Value(l[60..])))
  }

  function Shift4Low(h: Word, l: Word): Word {
    Or(Shl(h, 60), Shr(l, 4))
  }

  /** The reduction lemma behind last4: one table look-up does the work of four shifts. */
  lemma Shift4IsNext4(h: Word, l: Word)
    ensures Shift4High(h, l) + Shift4Low(h, l) == Next4(h + l)
  {
    var z := Shift4High(h, l) + Shift4Low(h, l);
    forall i | 0 <= i < 128
      ensures z[i] == Next4(h + l)[i]
    {
      Next4At(h + l, i);
      if i < 64 {
        Last4Bit(l[60..], i);
      }
    }
  }

  // ---------- the table ----------

  /** v times the nibble i, the high-order bit of i being the coefficient of P^0. */
  function Multiple(v: Bits, i: nat): Bits
    requires i < 16
    decreases i
  {
    if 8 <= i then XorBits(v, Multiple(v, i - 8))
    else if 4 <= i then XorBits(Next(v), Multiple(v, i - 4))
    else if 2 <= i then XorBits(Next(Next(v)), Multiple(v, i - 2))
    else if i == 1 then Next(Next(Next(v)))
    else ZERO
  }

  lemma MultipleOfPower(v: Bits, i: nat)
    requires i in {8, 4, 2}
    ensures Multiple(v, i) == if i == 8 then v else if i == 4 then Next(v) else Next(Next(v))
  {
    XorZero(v);
    XorZero(Next(v));
    XorZero(Next(Next(v)));
  }

  lemma MultipleAdds(v: Bits, i: nat, j: nat)
    requires i in {8, 4, 2} && j < i
    ensures Multiple(v, i + j) == XorBits(Multiple(v, i), Multiple(v, j))
  {
    MultipleOfPower(v, i);
  }

  function Part(b: bool, v: Bits): Bits {
    if b then v else ZERO
  }

  lemma MultipleByBits(v: Bits, b: seq<bool>)
    requires |b| == 4
    ensures Multiple(v, Value(b)) == XorBits(Part(b[0], v), XorBits(Part(b[1], Next(v)),
                                     XorBits(Part(b[2], Next(Next(v))), Part(b[3], Next(Next(Next(v)))))))
  {
    var i3 := if b[3] then 1 else 0;
    var i2 := i3 + if b[2] then 2 else 0;
    var i1 := i2 + if b[1] then 4 else 0;
    XorZero(Multiple(v, i3));
    XorZero(Multiple(v, i2));
    XorZero(Multiple(v, i1));
    assert Multiple(v, i3) == Part(b[3], Next(Next(Next(v))));
    assert Multiple(v, i2) == XorBits(Part(b[2], Next(Next(v))), Multiple(v, i3));
    assert Multiple(v, i1) == XorBits(Part(b[1], Next(v)), Multiple(v, i2));
  }

  lemma SumNext4(x: Bits, v: Bits, i: nat)
    requires i <= 128
    ensures Sum(x, Next4(v), i) == Next4(Sum(x, v, i))
  {
    SumNext(x, v, i);
    SumNext(x, Next(v), i);
    SumNext(x, Next(Next(v)), i);
    SumNext(x, Next(Next(Next(v))), i);
  }

  lemma SumTwice(x: Bits, v: Bits, i: nat)
    requires i + 2 <= 128
    ensures Sum(x, v, i) == XorBits(Part(x[i], v), XorBits(Part(x[i + 1], Next(v)), Sum(x, Next(Next(v)), i + 2)))
  {
  }

  lemma XorAssoc4(a: Bits, b: Bits, c: Bits, d: Bits, e: Bits)
    ensures XorBits(a, XorBits(b, XorBits(c, XorBits(d, e)))) == XorBits(XorBits(a, XorBits(b, XorBits(c, d))), e)
  {
    XorAssoc(c, d, e);
    XorAssoc(b, XorBits(c, d), e);
    XorAssoc(a, XorBits(b, XorBits(c, d)), e);
  }

  /** Four bits of x, taken together, contribute a multiple of v. */
  lemma SumByNibble(x: Bits, v: Bits, i: nat)
    requires i + 4 <= 128
    ensures Sum(x, v, i) == XorBits(Multiple(v, Value(x[i..i + 4])), Next4(Sum(x, v, i + 4)))
  {
    SumTwice(x, v, i);
    SumTwice(x, Next(Next(v)), i + 2);
    SumNext4(x, v, i + 4);
    MultipleByBits(v, x[i..i + 4]);
    XorAssoc4(Part(x[i], v), Part(x[i + 1], Next(v)), Part(x[i + 2], Next(Next(v))),
              Part(x[i + 3], Next(Next(Next(v)))), Sum(x, Next4(v), i + 4));
  }

  // ---------- the nibbles of a byte ----------

  function LowNibble(x: bv8): (r: nat)
    ensures r < 16
  {
    (x & 0xf) as nat
  }

  function HighNibble(x: bv8): (r: nat)
    ensures r < 16
  {
    (x >> 4) as nat
  }

  lemma LowNibbleValue(x: bv8)
    ensures LowNibble(x) == Value([x & 8 != 0, x & 4 != 0, x & 2 != 0, x & 1 != 0])
  {
  }

  lemma HighNibbleValue(x: bv8)
    ensures HighNibble(x) == Value([x & 0x80 != 0, x & 0x40 != 0, x & 0x20 != 0, x & 0x10 != 0])
  {
    LowNibbleValue(x >> 4);
  }

  lemma FourOf(s: seq<bool>, k: nat)
    requires k + 4 <= |s|
    ensures s[k..k + 4] == [s[k], s[k + 1], s[k + 2], s[k + 3]]
  {
  }

  /** Four bits of byte i, from bit n of the byte on. */
  lemma NibbleBits(x: Block, i: nat, n: nat)
    requires i < 16 && n <= 4
    ensures BitsOf(x)[8 * i + n..8 * i + n + 4]
            == [x[i] & Mask(n) != 0, x[i] & Mask(n + 1) != 0, x[i] & Mask(n + 2) != 0, x[i] & Mask(n + 3) != 0]
  {
    hide BitsOf, Mask;
    FourOf(BitsOf(x), 8 * i + n);
    BitOfByte(x, i, n);
    BitOfByte(x, i, n + 1);
    BitOfByte(x, i, n + 2);
    BitOfByte(x, i, n + 3);
  }

  lemma HighNibbleOfBlock(x: Block, i: nat)
    requires i < 16
    ensures Value(BitsOf(x)[8 * i..8 * i + 4]) == HighNibble(x[i])
  {
    hide BitsOf, HighNibble;
    HighNibbleValue(x[i]);
    NibbleBits(x, i, 0);
  }

  lemma LowNibbleOfBlock(x: Block, i: nat)
    requires i < 16
    ensures Value(BitsOf(x)[8 * i + 4..8 * i + 8]) == LowNibble(x[i])
  {
    hide BitsOf, LowNibble;
    LowNibbleValue(x[i]);
    NibbleBits(x, i, 4);
  }

  // ---------- the code ----------

  function Join(h: Word, l: Word): Bits {
    h + l
  }

  /** The accumulator holds what bits n, n + 1, ... of x contribute. */
  ghost predicate Horner(x: Block, h: Block, zh: Word, zl: Word, n: nat) {
    n <= 128 && Join(zh, zl) == Sum(BitsOf(x), BitsOf(h), n)
  }

  lemma HornerStep(x: Block, h: Block, zh: Word, zl: Word, n: nat, th: Word, tl: Word)
    requires n + 4 <= 128 && Horner(x, h, zh, zl, n + 4)
    requires Join(th, tl) == Multiple(BitsOf(h), Value(BitsOf(x)[n..n + 4]))
    ensures Horner(x, h, XorWord(Shift4High(zh, zl), th), XorWord(Shift4Low(zh, zl), tl), n)
  {
    SumByNibble(BitsOf(x), BitsOf(h), n);
    Shift4IsNext4(zh, zl);
    XorWords(Shift4High(zh, zl), Shift4Low(zh, zl), th, tl);
    XorComm(Next4(Join(zh, zl)), Join(th, tl));
  }

  lemma HornerStart(x: Block, h: Block, th: Word, tl: Word)
    requires Join(th, tl) == Multiple(BitsOf(h), LowNibble(x[15]))
    ensures Horner(x, h, th, tl, 124)
  {
    LowNibbleOfBlock(x, 15);
    SumByNibble(BitsOf(x), BitsOf(h), 124);
    NextZero();
    XorZero(Join(th, tl));
  }

  lemma HornerDone(x: Block, h: Block, zh: Word, zl: Word)
    requires Horner(x, h, zh, zl, 0)
    ensures PutBe64s(zh, zl) == BlockMul(x, h)
  {
    hide BytesOf, PutBe64s;
    BlockOfWords(zh, zl);
  }

  /** What the table of h must hold. */
  ghost function Multiples(h: Block): (t: seq<Bits>)
    ensures |t| == 16
  {
    seq(16, i requires 0 <= i < 16 => Multiple(BitsOf(h), i))
  }

  ghost predicate Additive(t: seq<Bits>) {
    |t| == 16 && forall i, j | i in {2, 4, 8} && 0 <= j < i :: t[i + j] == XorBits(t[i], t[j])
  }

  lemma MultiplesAdditive(h: Block)
    ensures Additive(Multiples(h))
  {
    forall i, j | i in {2, 4, 8} && 0 <= j < i
      ensures Multiples(h)[i + j] == XorBits(Multiples(h)[i], Multiples(h)[j])
    {
      MultipleAdds(BitsOf(h), i, j);
    }
  }

  /** Halving the index shifts the entry. */
  ghost predicate Doubling(v: Bits, t: seq<Bits>) {
    |t| == 16 && t[0] == ZERO && t[8] == v && t[4] == Next(t[8]) && t[2] == Next(t[4]) && t[1] == Next(t[2])
  }

  lemma MultiplesDoubling(h: Block)
    ensures Doubling(BitsOf(h), Multiples(h))
  {
    MultipleOfPower(BitsOf(h), 8);
    MultipleOfPower(BitsOf(h), 4);
    MultipleOfPower(BitsOf(h), 2);
  }

  /** struct internal_ghash_key in its table-based form. */
  class GhashKey {
    const hl: array<Word>
    const hh: array<Word>

    ghost predicate Shape()
    {
      hh != hl && hh.Length == hl.Length == 16
    }

    ghost predicate Entry(t: seq<Bits>, i: nat)
      reads hl, hh
    {
      Shape() && |t| == 16 && i < 16 && Join(hh[i], hl[i]) == t[i]
    }

    /** Every entry is its index times h. */
    ghost predicate TableOf(h: Block)
      reads hl, hh
    {
      Shape() && forall i: nat | i < 16 :: Entry(Multiples(h), i)
    }

    /** internal_aes_gcm_ghash_gen_tbl(), given h, the encryption of the zero block. */
    constructor (h: Block)
      ensures TableOf(h) && fresh(hl) && fresh(hh)
    {
      hl := new Word[16];
      hh := new Word[16];
      new;
      MultiplesAdditive(h);
      MultiplesDoubling(h);
      Powers(h, Multiples(h));
      Sums(Multiples(h));
    }

    /** The first loop: h, and h shifted one to three times. */
    method Powers(h: Block, ghost t: seq<Bits>)
      requires Shape() && Doubling(BitsOf(h), t)
      modifies hh, hl
      ensures Entry(t, 0) && Entry(t, 1) && Entry(t, 2) && Entry(t, 4) && Entry(t, 8)
    {
      var vh, vl := GetBe64(h, 0), GetBe64(h, 8);
      WordsOfBlock(h);
      hl[8] := vl;
      hh[8] := vh;
      hh[0] := Falses(64);
      hl[0] := Falses(64);
      assert Join(hh[0], hl[0]) == ZERO;
      var i := 4;
      while i > 0
        invariant i in {4, 2, 1, 0}
        invariant i > 0 ==> Join(vh, vl) == t[2 * i]
        invariant Entry(t, 0) && Entry(t, 8)
        invariant i < 4 ==> Entry(t, 4)
        invariant i < 2 ==> Entry(t, 2)
        invariant i < 1 ==> Entry(t, 1)
      {
        ShiftIsNext(vh, vl);
        vh, vl := ShiftHigh(vh, vl), ShiftLow(vh, vl);
        hl[i] := vl;
        hh[i] := vh;
        i := i / 2;
      }
    }

    /** The second loop: the sums of those. */
    method Sums(ghost t: seq<Bits>)
      requires Shape() && Additive(t)
      requires Entry(t, 0) && Entry(t, 1) && Entry(t, 2) && Entry(t, 4) && Entry(t, 8)
      modifies hh, hl
      ensures forall k: nat | k < 16 :: Entry(t, k)
    {
      var i := 2;
      while i <= 8
        invariant i in {2, 4, 8, 16}
        invariant forall k: nat | k < i :: Entry(t, k)
        invariant Entry(t, 2) && Entry(t, 4) && Entry(t, 8)
        decreases 16 - i
      {
        Row(t, i);
        i := i * 2;
      }
    }

    method Row(ghost t: seq<Bits>, i: nat)
      requires Shape() && Additive(t) && i in {2, 4, 8}
      requires Entry(t, 4) && Entry(t, 8) && forall k: nat | k <= i :: Entry(t, k)
      modifies hh, hl
      ensures Entry(t, 4) && Entry(t, 8) && forall k: nat | k < 2 * i :: Entry(t, k)
    {
      var vh, vl := hh[i], hl[i];
      assert Entry(t, i);
      for j := 1 to i
        invariant Join(vh, vl) == t[i]
        invariant Entry(t, 4) && Entry(t, 8)
        invariant forall k: nat | k < i + j :: Entry(t, k)
      {
        assert Entry(t, j);
        XorWords(vh, vl, hh[j], hl[j]);
        label before:
        hh[i + j] := XorWord(vh, hh[j]);
        hl[i + j] := XorWord(vl, hl[j]);
        assert Entry(t, i + j);
        forall k: nat | k < i + j
          ensures Entry(t, k)
        {
          assert old@before(Entry(t, k));
        }
      }
    }

    /** Shifts the accumulator by a nibble and adds entry k. */
    method Fold(ghost x: Block, ghost h: Block, ghost n: nat, zh: Word, zl: Word, k: nat) returns (zh': Word, zl': Word)
      requires TableOf(h) && n + 4 <= 128 && Horner(x, h, zh, zl, n + 4)
      requires k < 16 && k == Value(BitsOf(x)[n..n + 4])
      ensures Horner(x, h, zh', zl', n)
    {
      assert Entry(Multiples(h), k);
      HornerStep(x, h, zh, zl, n, hh[k], hl[k]);
      zh', zl' := Shift4High(zh, zl), Shift4Low(zh, zl);
      zh', zl' := XorWord(zh', hh[k]), XorWord(zl', hl[k]);
    }

    /** One round of the loop over the bytes: the low nibble, which the last byte has used already, and the
        high one. */
    method FoldByte(x: Block, ghost h: Block, i: nat, zh: Word, zl: Word) returns (zh': Word, zl': Word)
      requires TableOf(h) && i < 16 && Horner(x, h, zh, zl, if i == 15 then 124 else 8 * i + 8)
      ensures Horner(x, h, zh', zl', 8 * i)
    {
      hide Horner, TableOf, LowNibble, HighNibble;
      HighNibbleOfBlock(x, i);
      LowNibbleOfBlock(x, i);
      var lo := LowNibble(x[i]);
      var hi := HighNibble(x[i]);
      zh', zl' := zh, zl;
      if i != 15 {
        zh', zl' := Fold(x, h, 8 * i + 4, zh', zl', lo);
      }
      zh', zl' := Fold(x, h, 8 * i, zh', zl', hi);
    }

    /** internal_aes_gcm_ghash_mult_tbl(): x times h, one nibble at a time from the last. */
    method Mult(x: Block, ghost h: Block) returns (output: Block)
      requires TableOf(h)
      ensures output == BlockMul(x, h)
    {
      hide Horner, LowNibble, PutBe64s, BlockMul;
      var lo := LowNibble(x[15]);
      assert Entry(Multiples(h), lo);
      var zh, zl := hh[lo], hl[lo];
      HornerStart(x, h, zh, zl);
      for i := 16 downto 0
        invariant Horner(x, h, zh, zl, if i == 16 then 124 else 8 * i)
      {
        zh, zl := FoldByte(x, h, i, zh, zl);
      }
      HornerDone(x, h, zh, zl);
      output := PutBe64s(zh, zl);
    }
  }
}
