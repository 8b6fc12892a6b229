/** Single bits of 32-bit words under exclusive or and rotation. */
module Bits32 {

  /** A mask of exactly one bit. */
  predicate Hot(m: bv32) {
    m != 0 && m & (m - 1) == 0
  }

  predicate On(w: bv32, m: bv32) {
    w & m != 0
  }

  lemma OnXor(a: bv32, b: bv32, m: bv32)
    requires Hot(m)
    ensures On(a ^ b, m) == (On(a, m) != On(b, m))
  {
  }

  function Rol2(w: bv32): bv32 {
    (w << 2) | (w >> 30)
  }

  function Rol10(w: bv32): bv32 {
    (w << 10) | (w >> 22)
  }

  function Rol18(w: bv32): bv32 {
    (w << 18) | (w >> 14)
  }

  function Rol24(w: bv32): bv32 {
    (w << 24) | (w >> 8)
  }

  function Rol13(w: bv32): bv32 {
    (w << 13) | (w >> 19)
  }

  function Rol23(w: bv32): bv32 {
    (w << 23) | (w >> 9)
  }

  function Ror2(m: bv32): bv32 {
    (m >> 2) | (m << 30)
  }

  function Ror10(m: bv32): bv32 {
    (m >> 10) | (m << 22)
  }

  function Ror18(m: bv32): bv32 {
    (m >> 18) | (m << 14)
  }

  function Ror24(m: bv32): bv32 {
    (m >> 24) | (m << 8)
  }

  function Ror16(m: bv32): bv32 {
    (m >> 16) | (m << 16)
  }

  function Ror20(m: bv32): bv32 {
    (m >> 20) | (m << 12)
  }

  function Ror8(m: bv32): bv32 {
    (m >> 8) | (m << 24)
  }

  function Ror4(m: bv32): bv32 {
    (m >> 4) | (m << 28)
  }

  function Ror12(m: bv32): bv32 {
    (m >> 12) | (m << 20)
  }

  function Ror26(m: bv32): bv32 {
    (m >> 26) | (m << 6)
  }

  function Ror28(m: bv32): bv32 {
    (m >> 28) | (m << 4)
  }

  lemma HotRor2(m: bv32)
    requires Hot(m)
    ensures Hot(Ror2(m))
  {
  }

  lemma HotRor10(m: bv32)
    requires Hot(m)
    ensures Hot(Ror10(m))
  {
  }

  lemma HotRor18(m: bv32)
    requires Hot(m)
    ensures Hot(Ror18(m))
  {
  }

  lemma HotRor24(m: bv32)
    requires Hot(m)
    ensures Hot(Ror24(m))
  {
  }

  lemma HotRor16(m: bv32)
    requires Hot(m)
    ensures Hot(Ror16(m))
  {
  }

  lemma HotRor20(m: bv32)
    requires Hot(m)
    ensures Hot(Ror20(m))
  {
  }

  lemma OnRot2(w: bv32, m: bv32)
    ensures On(Rol2(w), m) == On(w, Ror2(m))
  {
  }

  lemma OnRot10(w: bv32, m: bv32)
    ensures On(Rol10(w), m) == On(w, Ror10(m))
  {
  }

  lemma OnRot18(w: bv32, m: bv32)
    ensures On(Rol18(w), m) == On(w, Ror18(m))
  {
  }

  lemma OnRot24(w: bv32, m: bv32)
    ensures On(Rol24(w), m) == On(w, Ror24(m))
  {
  }

  lemma SameByte0(v: bv32, w: bv32)
    requires forall m | Hot(m) :: On(v, m) == On(w, m)
    ensures v & 0xff == w & 0xff
  {
    assert Hot(0x1) && Hot(0x2) && Hot(0x4) && Hot(0x8) && Hot(0x10) && Hot(0x20) && Hot(0x40) && Hot(0x80);
    assert On(v, 0x1) == On(w, 0x1) && On(v, 0x2) == On(w, 0x2) && On(v, 0x4) == On(w, 0x4) && On(v, 0x8) == On(w, 0x8);
    assert On(v, 0x10) == On(w, 0x10) && On(v, 0x20) == On(w, 0x20) && On(v, 0x40) == On(w, 0x40) && On(v, 0x80) == On(w, 0x80);
  }

  lemma SameByte1(v: bv32, w: bv32)
    requires forall m | Hot(m) :: On(v, m) == On(w, m)
    ensures v & 0xff00 == w & 0xff00
  {
    assert Hot(0x100) && Hot(0x200) && Hot(0x400) && Hot(0x800) && Hot(0x1000) && Hot(0x2000) && Hot(0x4000) && Hot(0x8000);
    assert On(v, 0x100) == On(w, 0x100) && On(v, 0x200) == On(w, 0x200) && On(v, 0x400) == On(w, 0x400) && On(v, 0x800) == On(w, 0x800);
    assert On(v, 0x1000) == On(w, 0x1000) && On(v, 0x2000) == On(w, 0x2000) && On(v, 0x4000) == On(w, 0x4000) && On(v, 0x8000) == On(w, 0x8000);
  }

  lemma SameByte2(v: bv32, w: bv32)
    requires forall m | Hot(m) :: On(v, m) == On(w, m)
    ensures v & 0xff0000 == w & 0xff0000
  {
    assert Hot(0x10000) && Hot(0x20000) && Hot(0x40000) && Hot(0x80000) && Hot(0x100000) && Hot(0x200000) && Hot(0x400000) && Hot(0x800000);
    assert On(v, 0x10000) == On(w, 0x10000) && On(v, 0x20000) == On(w, 0x20000) && On(v, 0x40000) == On(w, 0x40000) && On(v, 0x80000) == On(w, 0x80000);
    assert On(v, 0x100000) == On(w, 0x100000) && On(v, 0x200000) == On(w, 0x200000) && On(v, 0x400000) == On(w, 0x400000) && On(v, 0x800000) == On(w, 0x800000);
  }

  lemma SameByte3(v: bv32, w: bv32)
    requires forall m | Hot(m) :: On(v, m) == On(w, m)
    ensures v & 0xff000000 == w & 0xff000000
  {
    assert Hot(0x1000000) && Hot(0x2000000) && Hot(0x4000000) && Hot(0x8000000) && Hot(0x10000000) && Hot(0x20000000) && Hot(0x40000000) && Hot(0x80000000);
    assert On(v, 0x1000000) == On(w, 0x1000000) && On(v, 0x2000000) == On(w, 0x2000000) && On(v, 0x4000000) == On(w, 0x4000000) && On(v, 0x8000000) == On(w, 0x8000000);
    assert On(v, 0x10000000) == On(w, 0x10000000) && On(v, 0x20000000) == On(w, 0x20000000) && On(v, 0x40000000) == On(w, 0x40000000) && On(v, 0x80000000) == On(w, 0x80000000);
  }

  lemma FourParts(v: bv32, w: bv32)
    requires v & 0xff == w & 0xff && v & 0xff00 == w & 0xff00 && v & 0xff0000 == w & 0xff0000 && v & 0xff000000 == w & 0xff000000
    ensures v == w
  {
  }

  /** Words with the same bits are equal. */
  lemma SameBits(v: bv32, w: bv32)
    requires forall m | Hot(m) :: On(v, m) == On(w, m)
    ensures v == w
  {
    hide Hot, On;
    SameByte0(v, w);
    SameByte1(v, w);
    SameByte2(v, w);
    SameByte3(v, w);
    FourParts(v, w);
  }

  lemma OnFive(a: bv32, b: bv32, c: bv32, d: bv32, e: bv32, r: bv32, m: bv32)
    requires Hot(m) && r == a ^ b ^ c ^ d ^ e
    ensures On(r, m) == (On(a, m) != (On(b, m) != (On(c, m) != (On(d, m) != On(e, m)))))
  {
  }

  lemma Ror2Of10(m: bv32)
    ensures Ror2(Ror10(m)) == Ror12(m)
  {
  }

  lemma Ror10Of2(m: bv32)
    ensures Ror10(Ror2(m)) == Ror12(m)
  {
  }

  lemma Ror2Of18(m: bv32)
    ensures Ror2(Ror18(m)) == Ror20(m)
  {
  }

  lemma Ror18Of2(m: bv32)
    ensures Ror18(Ror2(m)) == Ror20(m)
  {
  }

  lemma Ror2Of24(m: bv32)
    ensures Ror2(Ror24(m)) == Ror26(m)
  {
  }

  lemma Ror24Of2(m: bv32)
    ensures Ror24(Ror2(m)) == Ror26(m)
  {
  }

  lemma Ror10Of18(m: bv32)
    ensures Ror10(Ror18(m)) == Ror28(m)
  {
  }

  lemma Ror18Of10(m: bv32)
    ensures Ror18(Ror10(m)) == Ror28(m)
  {
  }

  lemma Ror10Of24(m: bv32)
    ensures Ror10(Ror24(m)) == Ror2(m)
  {
  }

  lemma Ror24Of10(m: bv32)
    ensures Ror24(Ror10(m)) == Ror2(m)
  {
  }

  lemma Ror18Of24(m: bv32)
    ensures Ror18(Ror24(m)) == Ror10(m)
  {
  }

  lemma Ror24Of18(m: bv32)
    ensures Ror24(Ror18(m)) == Ror10(m)
  {
  }

  lemma Ror16Of20(m: bv32)
    ensures Ror16(Ror20(m)) == Ror4(m)
  {
  }

  lemma Ror20Of16(m: bv32)
    ensures Ror20(Ror16(m)) == Ror4(m)
  {
  }

  lemma Ror2Of2(m: bv32)
    ensures Ror2(Ror2(m)) == Ror4(m)
  {
  }

  lemma Ror18Of18(m: bv32)
    ensures Ror18(Ror18(m)) == Ror4(m)
  {
  }

  lemma Ror10Of10(m: bv32)
    ensures Ror10(Ror10(m)) == Ror20(m)
  {
  }

  lemma Ror24Of24(m: bv32)
    ensures Ror24(Ror24(m)) == Ror16(m)
  {
  }

  lemma Ror20Of20(m: bv32)
    ensures Ror20(Ror20(m)) == Ror8(m)
  {
  }

  lemma Ror16Of16(m: bv32)
    ensures Ror16(Ror16(m)) == m
  {
  }
}
