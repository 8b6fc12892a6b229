/** Cipher block chaining over an arbitrary block function, section 6.2 of NIST SP 800-38A. */
module BlockModes {
  import opened Bytes

  /** d undoes e. */
  ghost predicate Undoes(d: Block -> Block, e: Block -> Block) {
    forall b: Block :: d(e(b)) == b
  }

  function CbcEnc(e: Block -> Block, iv: Block, s: seq<bv8>): (r: seq<bv8>)
    requires |s| % 16 == 0
    ensures |r| == |s|
    decreases |s|
  {
    if s == [] then []
    else
      var c := e(Xor(s[..16], iv));
      c + CbcEnc(e, c, s[16..])
  }

  function CbcDec(d: Block -> Block, iv: Block, s: seq<bv8>): (r: seq<bv8>)
    requires |s| % 16 == 0
    ensures |r| == |s|
    decreases |s|
  {
    if s == [] then []
    else Xor(d(s[..16]), iv) + CbcDec(d, s[..16], s[16..])
  }

  /** The chaining value after ciphertext c: its last block. */
  function Chain(iv: Block, c: seq<bv8>): Block
    requires |c| % 16 == 0
  {
    if c == [] then iv else c[|c| - 16..]
  }

  lemma MoreBlocks(m: nat, n: nat)
    requires m % 16 == 0 && n % 16 == 0
    ensures (m + n) % 16 == 0 && (m >= n ==> (m - n) % 16 == 0)
  {
  }

  lemma ChainStep(iv: Block, b: Block, c: seq<bv8>)
    requires |c| % 16 == 0
    ensures |b + c| % 16 == 0 && Chain(b, c) == Chain(iv, b + c)
  {
    MoreBlocks(16, |c|);
    if c == [] {
      assert b + c == b;
    }
  }

  lemma {:induction false} CbcEncAppend(e: Block -> Block, iv: Block, s: seq<bv8>, t: seq<bv8>)
    requires |s| % 16 == 0 && |t| % 16 == 0
    ensures CbcEnc(e, iv, s + t) == CbcEnc(e, iv, s) + CbcEnc(e, Chain(iv, CbcEnc(e, iv, s)), t)
    decreases |s|
  {
    hide Xor;
    MoreBlocks(|s|, |t|);
    if s == [] {
      assert s + t == t;
    } else {
      assert (s + t)[..16] == s[..16] && (s + t)[16..] == s[16..] + t;
      var c := e(Xor(s[..16], iv));
      MoreBlocks(|s|, 16);
      CbcEncAppend(e, c, s[16..], t);
      ChainStep(iv, c, CbcEnc(e, c, s[16..]));
    }
  }

  lemma {:induction false} CbcDecAppend(d: Block -> Block, iv: Block, s: seq<bv8>, t: seq<bv8>)
    requires |s| % 16 == 0 && |t| % 16 == 0
    ensures CbcDec(d, iv, s + t) == CbcDec(d, iv, s) + CbcDec(d, Chain(iv, s), t)
    decreases |s|
  {
    hide Xor;
    MoreBlocks(|s|, |t|);
    if s == [] {
      assert s + t == t;
    } else {
      hide Chain;
      var b: Block, r := s[..16], s[16..];
      assert (s + t)[..16] == b && (s + t)[16..] == r + t;
      MoreBlocks(|s|, 16);
      CbcDecAppend(d, b, r, t);
      ChainStep(iv, b, r);
      assert b + r == s;
    }
  }

  lemma {:induction false} CbcRoundTrip(e: Block -> Block, d: Block -> Block, iv: Block, s: seq<bv8>)
    requires |s| % 16 == 0 && Undoes(d, e)
    ensures CbcDec(d, iv, CbcEnc(e, iv, s)) == s
    decreases |s|
  {
    if s != [] {
      var x := Xor(s[..16], iv);
      var c := e(x);
      var r := CbcEnc(e, iv, s);
      assert r[..16] == c && r[16..] == CbcEnc(e, c, s[16..]);
      assert d(c) == x;
      XorCancels(s[..16], iv);
      CbcRoundTrip(e, d, c, s[16..]);
    }
  }

  lemma CbcEncBlock(e: Block -> Block, iv: Block, b: Block)
    ensures CbcEnc(e, iv, b) == e(Xor(b, iv))
  {
    assert b[..16] == b && b[16..] == [];
    assert CbcEnc(e, iv, b) == e(Xor(b, iv)) + [];
  }

  lemma CbcDecBlock(d: Block -> Block, iv: Block, b: Block)
    ensures CbcDec(d, iv, b) == Xor(d(b), iv)
  {
    assert b[..16] == b && b[16..] == [];
    assert CbcDec(d, iv, b) == Xor(d(b), iv) + [];
  }

  // ---------- byte by byte ----------

  /** Block j of the ciphertext is the encryption of block j of the plaintext under the block before, the IV first. */
  lemma {:induction false} CbcEncBytes(e: Block -> Block, iv: Block, s: seq<bv8>, j: nat)
    requires |s| % 16 == 0 && 16 * j + 16 <= |s|
    ensures var c := CbcEnc(e, iv, s);
            c[16 * j..16 * j + 16] == e(Under(s, 16 * j, if j == 0 then iv else c[16 * j - 16..16 * j]))
    decreases j
  {
    var c := CbcEnc(e, iv, s);
    var first := e(Xor(s[..16], iv));
    assert c[..16] == first && c[16..] == CbcEnc(e, first, s[16..]);
    if j == 0 {
      assert Xor(s[..16], iv) == Under(s, 0, iv);
      assert c[0..16] == c[..16];
    } else {
      hide Xor, CbcEnc;
      MoreBlocks(|s|, 16);
      CbcEncBytes(e, first, s[16..], j - 1);
      var k := 16 * (j - 1);
      UnderTail(s, k, if j == 1 then first else c[16 * j - 16..16 * j]);
      SliceTail(c, k);
      if j > 1 {
        SliceTail(c, k - 16);
      } else {
        assert c[..16] == c[0..16];
      }
    }
  }

  lemma SliceTail(s: seq<bv8>, k: nat)
    requires 16 + k + 16 <= |s|
    ensures s[16..][k..k + 16] == s[16 + k..16 + k + 16]
  {
  }

  lemma UnderTail(s: seq<bv8>, k: nat, t: Block)
    requires 16 + k + 16 <= |s|
    ensures Under(s[16..], k, t) == Under(s, 16 + k, t)
  {
  }

  /** Block j of the plaintext is the decryption of block j under the ciphertext block before, the IV first. */
  lemma {:induction false} CbcDecBytes(d: Block -> Block, iv: Block, s: seq<bv8>, j: nat)
    requires |s| % 16 == 0 && 16 * j + 16 <= |s|
    ensures CbcDec(d, iv, s)[16 * j..16 * j + 16]
            == Under(d(s[16 * j..16 * j + 16]), 0, if j == 0 then iv else s[16 * j - 16..16 * j])
    decreases j
  {
    var p := CbcDec(d, iv, s);
    assert p[..16] == Xor(d(s[..16]), iv) && p[16..] == CbcDec(d, s[..16], s[16..]);
    if j == 0 {
      assert Xor(d(s[..16]), iv) == Under(d(s[..16]), 0, iv);
      assert p[0..16] == p[..16] && s[0..16] == s[..16];
    } else {
      hide Xor, CbcDec, Under;
      MoreBlocks(|s|, 16);
      CbcDecBytes(d, s[..16], s[16..], j - 1);
      var k := 16 * (j - 1);
      SliceTail(p, k);
      SliceTail(s, k);
      if j > 1 {
        SliceTail(s, k - 16);
      } else {
        assert s[..16] == s[0..16];
      }
    }
  }
}
