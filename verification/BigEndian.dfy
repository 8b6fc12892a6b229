/** Bytes as numbers. */
module ByteValues {

  function Value(b: bv8): (n: nat)
    ensures n < 256
  {
    b as nat
  }

  lemma NextByte(b: bv8)
    ensures b + 1 != 0 ==> Value(b + 1) == Value(b) + 1
    ensures b + 1 == 0 ==> Value(b) == 255
  {
  }

  lemma ValueInjective(a: bv8, b: bv8)
    requires Value(a) == Value(b)
    ensures a == b
  {
  }

  lemma ZeroAndOne()
    ensures Value(0) == 0 && Value(1) == 1
  {
  }

  /** The byte of value n. */
  function Byte(n: nat): (b: bv8)
    requires n < 256
    ensures Value(b) == n
  {
    hide Value;
    ZeroAndOne();
    if n == 0 then 0
    else
      var b := Byte(n - 1);
      NextByte(b);
      b + 1
  }

  lemma NatOfByte(b: bv8)
    ensures Byte(Value(b)) == b
  {
    hide Byte;
    ValueInjective(Byte(Value(b)), b);
  }
}

/** Big-endian integers: the byte string of a number and the number of a byte string. */
module BigEndian {
  import opened ByteValues

  function Pow256(k: nat): (p: nat)
    ensures p >= 1
  {
    if k == 0 then 1 else 256 * Pow256(k - 1)
  }

  lemma Pow256Of16()
    ensures Pow256(16) == 0x1_0000_0000_0000_0000_0000_0000_0000_0000
  {
    assert Pow256(4) == 0x1_0000_0000;
    assert Pow256(8) == 0x1_0000_0000_0000_0000;
    assert Pow256(12) == 0x1_0000_0000_0000_0000_0000_0000;
  }

  function FromBe(s: seq<bv8>): nat {
    if s == [] then 0 else FromBe(s[..|s| - 1]) * 256 + Value(s[|s| - 1])
  }

  function ToBe(n: nat, k: nat): (s: seq<bv8>)
    ensures |s| == k
  {
    if k == 0 then [] else ToBe(n / 256, k - 1) + [Byte(n % 256)]
  }

  lemma LastByte(m: nat, c: nat)
    requires c < 256
    ensures (m * 256 + c) / 256 == m && (m * 256 + c) % 256 == c
  {
  }

  lemma ToBeSnoc(m: nat, c: nat, k: nat)
    requires c < 256
    ensures ToBe(m * 256 + c, k + 1) == ToBe(m, k) + [Byte(c)]
  {
    hide Byte;
    LastByte(m, c);
  }

  lemma {:induction false} ToBeFromBe(s: seq<bv8>)
    ensures ToBe(FromBe(s), |s|) == s
  {
    hide Byte, Value;
    if s != [] {
      hide ToBe;
      var p, b := s[..|s| - 1], s[|s| - 1];
      ToBeFromBe(p);
      ToBeSnoc(FromBe(p), Value(b), |p|);
      NatOfByte(b);
      assert s == p + [b];
    }
  }

  lemma {:induction false} FromBeBound(s: seq<bv8>)
    ensures FromBe(s) < Pow256(|s|)
  {
    hide Value;
    if s != [] {
      FromBeBound(s[..|s| - 1]);
    }
  }

  lemma {:induction false} FromBeToBe(n: nat, k: nat)
    requires n < Pow256(k)
    ensures FromBe(ToBe(n, k)) == n
  {
    hide Byte, Value;
    if k > 0 {
      hide ToBe, FromBe;
      FromBeToBe(n / 256, k - 1);
      ToBeSnoc(n / 256, n % 256, k - 1);
      FromBeSnoc(ToBe(n / 256, k - 1), Byte(n % 256));
    }
  }

  lemma ToBeInjective(m: nat, n: nat, k: nat)
    requires m < Pow256(k) && n < Pow256(k) && ToBe(m, k) == ToBe(n, k)
    ensures m == n
  {
    FromBeToBe(m, k);
    FromBeToBe(n, k);
  }

  /** A number whose high part is hi and whose low b bytes are lo. */
  lemma {:induction false} ToBeConcat(hi: nat, lo: nat, a: nat, b: nat)
    requires lo < Pow256(b)
    ensures ToBe(hi * Pow256(b) + lo, a + b) == ToBe(hi, a) + ToBe(lo, b)
  {
    hide ToBe;
    if b == 0 {
      ToBeNone(lo);
      assert hi * Pow256(b) + lo == hi;
    } else {
      var p, q, c := Pow256(b - 1), lo / 256, lo % 256;
      var n := hi * Pow256(b) + lo;
      assert Pow256(b) == 256 * p;
      hide Pow256;
      Regroup(hi, p, lo);
      ToBeConcat(hi, q, a, b - 1);
      ConcatStep(hi, hi * p + q, q, c, a, b - 1, n, lo);
    }
  }

  lemma ToBeNone(n: nat)
    ensures ToBe(n, 0) == []
  {
  }

  lemma ConcatStep(hi: nat, n: nat, lo: nat, c: nat, a: nat, b: nat, n': nat, lo': nat)
    requires c < 256 && ToBe(n, a + b) == ToBe(hi, a) + ToBe(lo, b) && n' == n * 256 + c && lo' == lo * 256 + c
    ensures ToBe(n', a + b + 1) == ToBe(hi, a) + ToBe(lo', b + 1)
  {
    hide ToBe, Byte;
    ToBeSnoc(n, c, a + b);
    ToBeSnoc(lo, c, b);
  }

  lemma Regroup(hi: nat, p: nat, lo: nat)
    ensures hi * (256 * p) + lo == (hi * p + lo / 256) * 256 + lo % 256
  {
    assert hi * (256 * p) == 256 * (hi * p);
  }

  lemma FromBeNil()
    ensures FromBe([]) == 0
  {
  }

  lemma FromBeSnoc(s: seq<bv8>, b: bv8)
    ensures FromBe(s + [b]) == FromBe(s) * 256 + Value(b)
  {
    hide Value;
    assert (s + [b])[..|s|] == s;
  }

  lemma Distribute(x: nat, p: nat, y: nat)
    ensures (x * p + y) * 256 == x * (256 * p) + y * 256
  {
    assert x * p * 256 == x * (256 * p);
  }

  lemma {:induction false} FromBeConcat(s: seq<bv8>, t: seq<bv8>)
    ensures FromBe(s + t) == FromBe(s) * Pow256(|t|) + FromBe(t)
  {
    hide Value;
    if t == [] {
      assert s + t == s;
    } else {
      var u := t[..|t| - 1];
      assert (s + t)[..|s + t| - 1] == s + u;
      FromBeConcat(s, u);
      Distribute(FromBe(s), Pow256(|u|), FromBe(u));
    }
  }
}
