/** The MAC of the CBC-MAC specification, block by block and byte by byte. */
module CbcMacFacts {
  import opened Arithmetic
  import opened ByteValues
  import opened Bytes
  import opened CbcMac

  /** The padding is one to n bytes, each of them the number of them, and completes a block. */
  lemma PadBytes(n: nat, message: Octets)
    requires 0 < n <= 16
    ensures var p := Pkcs5(n, |message| % n);
            && 1 <= |p| <= n && |message + p| % n == 0
            && forall i | 0 <= i < |p| :: Value(p[i]) == |p|
  {
    hide Value, Byte;
    var q, r := |message| / n, |message| % n;
    assert |message| == q * n + r;
    assert |message| + (n - r) == (q + 1) * n;
    WholeMod(q + 1, n);
  }

  lemma {:induction false} WholeMod(k: nat, n: nat)
    requires n > 0
    ensures k * n % n == 0
  {
    if k > 0 {
      AtLeastOnce(k, n);
      ModMinus(k * n, n);
      assert k * n - n == (k - 1) * n;
      WholeMod(k - 1, n);
    }
  }

  /** x is b under the mask y. */
  ghost predicate Sum(x: Octets, b: Octets, y: Octets) {
    |x| == |b| == |y| && forall i | 0 <= i < |x| :: x[i] == b[i] ^ y[i]
  }

  /** Chaining: one more block is added to the value so far and enciphered. */
  lemma FoldInTurn(e: Octets -> Octets, n: nat, y: Octets, s: Octets, b: Octets, x: Octets)
    requires BlockCipher(e, n) && |y| == n && |s| % n == 0 && |b| == n && Sum(x, b, Fold(e, n, y, s))
    ensures Fold(e, n, y, []) == y && Fold(e, n, y, s + b) == e(x)
  {
    hide Rest;
    Split(e, n, y, s, b);
    RestLength(n, s);
    var v := Fold(e, n, y, s);
    assert Rest(n, s) + b == b;
    assert b[..n] == b && b[n..] == [];
    assert Xor(b, v) == x;
    FoldShort(e, n, e(x), []);
  }

  /** The MAC of a single block is its encipherment, and a further block is added to the MAC so far and enciphered. */
  lemma MacInTurn(e: Octets -> Octets, n: nat, s: Octets, b: Octets, x: Octets)
    requires BlockCipher(e, n) && n <= 16 && |s| % n == 0 && |b| == n
    ensures Mac(e, n, false, b) == e(b)
    ensures Sum(x, b, Mac(e, n, false, s)) ==> Mac(e, n, false, s + b) == e(x)
  {
    hide Fold;
    PlainSum(b);
    Nothing(e, n);
    assert [] + b == b;
    FoldInTurn(e, n, Zeros(n), [], b, b);
    if Sum(x, b, Mac(e, n, false, s)) {
      FoldInTurn(e, n, Zeros(n), s, b, x);
    }
  }

  lemma Nothing(e: Octets -> Octets, n: nat)
    requires BlockCipher(e, n)
    ensures Fold(e, n, Zeros(n), []) == Zeros(n) && 0 % n == 0
  {
  }

  lemma PlainSum(b: Octets)
    ensures Sum(b, b, Zeros(|b|))
  {
    forall i | 0 <= i < |b|
      ensures b[i] == b[i] ^ Zeros(|b|)[i]
    {
      Same(b[i]);
    }
  }

  lemma Same(b: bv8)
    ensures b ^ 0 == b
  {
  }

  /** With padding it is the MAC of the message with p bytes of value p behind it. */
  lemma MacPadded(e: Octets -> Octets, n: nat, message: Octets, p: Octets)
    requires BlockCipher(e, n) && n <= 16 && |p| == n - |message| % n && forall i | 0 <= i < |p| :: Value(p[i]) == |p|
    ensures Mac(e, n, true, message) == Mac(e, n, false, message + p)
  {
    hide Fold, Value, Byte;
    var q := Pkcs5(n, |message| % n);
    forall i | 0 <= i < |p|
      ensures p[i] == q[i]
    {
      ValueInjective(p[i], q[i]);
    }
    assert p == q;
  }
}
