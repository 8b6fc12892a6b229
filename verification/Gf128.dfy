/** Multiplication in GF(2^128) as section 6.3 of NIST SP 800-38D defines it: on bit
    strings of length 128 whose leftmost bit is the coefficient of P^0. */
module Gf128 {

  function Falses(n: nat): (r: seq<bool>)
    ensures |r| == n
  {
    seq(n, _ => false)
  }

  type Bits = b: seq<bool> | |b| == 128 witness Falses(128)

  const ZERO: Bits := Falses(128)

  function XorBits(a: Bits, b: Bits): Bits {
    seq(128, i requires 0 <= i < 128 => a[i] != b[i])
  }

  /** R is 11100001 followed by 120 zero bits. */
  predicate Reduction(i: int) {
    i == 0 || i == 1 || i == 2 || i == 7
  }

  /** One update of V: shift right, and add R when the bit shifted out was set. */
  function Next(v: Bits): Bits {
    seq(128, i requires 0 <= i < 128 => (0 < i && v[i - 1]) != (v[127] && Reduction(i)))
  }

  /** What bits i, i + 1, ... of x contribute to Z when V is v on arrival at bit i. */
  function Sum(x: Bits, v: Bits, i: nat): Bits
    requires i <= 128
    decreases 128 - i
  {
    if i == 128 then ZERO
    else XorBits(if x[i] then v else ZERO, Sum(x, Next(v), i + 1))
  }

  function Product(x: Bits, y: Bits): Bits {
    Sum(x, y, 0)
  }

  lemma XorZero(a: Bits)
    ensures XorBits(a, ZERO) == a == XorBits(ZERO, a)
    ensures XorBits(a, a) == ZERO
  {
  }

  lemma XorComm(a: Bits, b: Bits)
    ensures XorBits(a, b) == XorBits(b, a)
  {
  }

  lemma XorAssoc(a: Bits, b: Bits, c: Bits)
    ensures XorBits(XorBits(a, b), c) == XorBits(a, XorBits(b, c))
  {
  }

  lemma XorSwap(a: Bits, b: Bits, c: Bits, d: Bits)
    ensures XorBits(XorBits(a, b), XorBits(c, d)) == XorBits(XorBits(a, c), XorBits(b, d))
  {
  }

  lemma NextXor(v: Bits, w: Bits)
    ensures Next(XorBits(v, w)) == XorBits(Next(v), Next(w))
  {
  }

  lemma NextZero()
    ensures Next(ZERO) == ZERO
  {
  }

  lemma {:induction false} SumXor(x: Bits, v: Bits, w: Bits, i: nat)
    requires i <= 128
    ensures Sum(x, XorBits(v, w), i) == XorBits(Sum(x, v, i), Sum(x, w, i))
    decreases 128 - i
  {
    XorZero(ZERO);
    if i < 128 {
      NextXor(v, w);
      SumXor(x, Next(v), Next(w), i + 1);
      XorSwap(if x[i] then v else ZERO, if x[i] then w else ZERO, Sum(x, Next(v), i + 1), Sum(x, Next(w), i + 1));
    }
  }

  lemma {:induction false} SumNext(x: Bits, v: Bits, i: nat)
    requires i <= 128
    ensures Sum(x, Next(v), i) == Next(Sum(x, v, i))
    decreases 128 - i
  {
    NextZero();
    if i < 128 {
      SumNext(x, Next(v), i + 1);
      NextXor(if x[i] then v else ZERO, Sum(x, Next(v), i + 1));
    }
  }

  lemma {:induction false} SumZero(x: Bits, i: nat)
    requires i <= 128
    ensures Sum(x, ZERO, i) == ZERO
    decreases 128 - i
  {
    if i < 128 {
      NextZero();
      SumZero(x, i + 1);
      XorZero(ZERO);
    }
  }

  /** The linear maps "multiply by x" and "multiply by y" commute. */
  lemma {:induction false} SumSwap(x: Bits, i: nat, y: Bits, j: nat, w: Bits)
    requires i <= 128 && j <= 128
    ensures Sum(x, Sum(y, w, j), i) == Sum(y, Sum(x, w, i), j)
    decreases 128 - j
  {
    SumZero(x, i);
    if j < 128 {
      SumXor(x, if y[j] then w else ZERO, Sum(y, Next(w), j + 1), i);
      SumSwap(x, i, y, j + 1, Next(w));
      SumNext(x, w, i);
    }
  }

  function Unit(j: nat): Bits {
    seq(128, i => i == j)
  }

  function From(y: Bits, j: nat): Bits {
    seq(128, i requires 0 <= i < 128 => j <= i && y[i])
  }

  lemma {:induction false} SumUnit(y: Bits, j: nat)
    requires j <= 128
    ensures Sum(y, Unit(j), j) == From(y, j)
    decreases 128 - j
  {
    if j < 128 {
      SumUnit(y, j + 1);
      if j < 127 {
        assert Next(Unit(j)) == Unit(j + 1);
      }
      assert XorBits(if y[j] then Unit(j) else ZERO, From(y, j + 1)) == From(y, j);
    }
  }

  /** The product is commutative: both sides are x and y applied to the unit. */
  lemma ProductCommutes(x: Bits, y: Bits)
    ensures Product(x, y) == Product(y, x)
  {
    SumUnit(x, 0);
    SumUnit(y, 0);
    assert From(x, 0) == x && From(y, 0) == y;
    SumSwap(x, 0, y, 0, Unit(0));
  }
}
