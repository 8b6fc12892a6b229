/** The linear maps of the SM4 round function and key schedule. */
module Linear32 {
  import opened Bits32

  /** w and its rotations by 2, 10, 18 and 24. */
  function Mixed(w: bv32): bv32 {
    w ^ Rol2(w) ^ Rol10(w) ^ Rol18(w) ^ Rol24(w)
  }

  /** w and its rotations by 13 and 23. */
  function KeyMixed(w: bv32): bv32 {
    w ^ Rol13(w) ^ Rol23(w)
  }

  /** Bit n modulo 32. */
  function Bit(n: bv32): bv32 {
    1 << (n & 31)
  }

  lemma MixedBits(n: bv32)
    requires n < 32
    ensures Mixed(Bit(n)) == Bit(n) | Bit(n + 2) | Bit(n + 10) | Bit(n + 18) | Bit(n + 24)
  {
  }

  lemma KeyMixedBits(n: bv32)
    requires n < 32
    ensures KeyMixed(Bit(n)) == Bit(n) | Bit(n + 13) | Bit(n + 23)
  {
  }

  lemma MixedParts(w: bv32, m: bv32)
    requires Hot(m)
    ensures On(Mixed(w), m) == (On(w, m) != (On(Rol2(w), m) != (On(Rol10(w), m) != (On(Rol18(w), m) != On(Rol24(w), m)))))
  {
    hide Hot, On, Rol2, Rol10, Rol18, Rol24;
    OnFive(w, Rol2(w), Rol10(w), Rol18(w), Rol24(w), Mixed(w), m);
  }

  /** One bit of the linear part. */
  lemma MixedOn(w: bv32, m: bv32)
    requires Hot(m)
    ensures On(Mixed(w), m) == (On(w, m) != (On(w, Ror2(m)) != (On(w, Ror10(m)) != (On(w, Ror18(m)) != On(w, Ror24(m))))))
  {
    hide Hot, On, Mixed, Rol2, Rol10, Rol18, Rol24, Ror2, Ror10, Ror18, Ror24;
    MixedParts(w, m);
    OnRot2(w, m);
    OnRot10(w, m);
    OnRot18(w, m);
    OnRot24(w, m);
  }

  lemma MixedTwiceOn(w: bv32, m: bv32)
    requires Hot(m)
    ensures On(Mixed(Mixed(w)), m) == (On(w, m) != (On(w, Ror16(m)) != On(w, Ror20(m))))
  {
    hide Hot, On, Mixed, Ror2, Ror10, Ror18, Ror24, Ror16, Ror20, Ror4, Ror12, Ror26, Ror28;
    HotRor2(m);
    HotRor10(m);
    HotRor18(m);
    HotRor24(m);
    MixedOn(Mixed(w), m);
    MixedOn(w, m);
    MixedOn(w, Ror2(m));
    MixedOn(w, Ror10(m));
    MixedOn(w, Ror18(m));
    MixedOn(w, Ror24(m));
    Ror2Of10(m);
    Ror10Of2(m);
    Ror2Of18(m);
    Ror18Of2(m);
    Ror2Of24(m);
    Ror24Of2(m);
    Ror10Of18(m);
    Ror18Of10(m);
    Ror10Of24(m);
    Ror24Of10(m);
    Ror18Of24(m);
    Ror24Of18(m);
    Ror2Of2(m);
    Ror18Of18(m);
    Ror10Of10(m);
    Ror24Of24(m);
  }

  /** Applied four times the linear part is a rotation by eight. */
  lemma MixedFourOn(w: bv32, m: bv32)
    requires Hot(m)
    ensures On(Mixed(Mixed(Mixed(Mixed(w)))), m) == On(w, Ror8(m))
  {
    hide Hot, On, Mixed, Ror4, Ror8, Ror16, Ror20;
    HotRor16(m);
    HotRor20(m);
    MixedTwiceOn(Mixed(Mixed(w)), m);
    MixedTwiceOn(w, m);
    MixedTwiceOn(w, Ror16(m));
    MixedTwiceOn(w, Ror20(m));
    Ror16Of20(m);
    Ror20Of16(m);
    Ror16Of16(m);
    Ror20Of20(m);
  }

  lemma RorBack(m: bv32)
    requires Hot(m)
    ensures Hot(Ror24(m)) && Ror8(Ror24(m)) == m
  {
  }

  /** So it loses nothing. */
  lemma MixedInjective(v: bv32, w: bv32)
    requires Mixed(v) == Mixed(w)
    ensures v == w
  {
    hide Hot, On, Mixed, Ror8, Ror24;
    forall m | Hot(m)
      ensures On(v, m) == On(w, m)
    {
      RorBack(m);
      MixedFourOn(v, Ror24(m));
      MixedFourOn(w, Ror24(m));
    }
    SameBits(v, w);
  }
}
