/** Arithmetic that several models share. */
module Arithmetic {

  const TWO32: nat := 0x1_0000_0000
  const TWO64: nat := 0x1_0000_0000_0000_0000
  const TWO128: nat := 0x1_0000_0000_0000_0000_0000_0000_0000_0000

  function Pow2(n: nat): (p: nat)
    ensures p > 0
  {
    if n == 0 then 1 else 2 * Pow2(n - 1)
  }

  lemma AtLeastOnce(a: int, n: nat)
    requires a >= 1
    ensures a * n >= n
  {
    assert a * n == n + (a - 1) * n;
  }

  /** Bitwise or. */
  function Or(x: nat, y: nat): nat
    decreases x + y
  {
    if x == 0 && y == 0 then 0
    else 2 * Or(x / 2, y / 2) + if x % 2 == 1 || y % 2 == 1 then 1 else 0
  }

  lemma {:induction false} OrNone(y: nat)
    ensures Or(0, y) == y
  {
    if y > 0 {
      OrNone(y / 2);
    }
  }

  /** Without a bit in common, or is a sum. */
  lemma {:induction false} OrDisjoint(x: nat, z: nat, k: nat)
    requires x < Pow2(k)
    ensures Or(x, z * Pow2(k)) == x + z * Pow2(k)
    decreases k
  {
    if k == 0 {
      OrNone(z);
    } else {
      var y := z * Pow2(k - 1);
      assert z * Pow2(k) == 2 * y;
      OrDisjoint(x / 2, z, k - 1);
    }
  }
}
