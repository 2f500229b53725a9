/** The table of x^(2^n) in deps/zlib/crc32.c, and why 32 entries are enough: x^(2^32) is x again. The 32
    squarings from x to x^(2^32) are evaluated one by one, by a product unrolled to 32 coefficients, and
    exponents can therefore be taken modulo 2^32 - 1. */
module CrcPowers {
  import opened CrcPoly
  import opened Powers

  function Part(a: bv32, b: bv32, m: bv32): bv32 { if Has(a, m) then b else ZERO }

  /** Multiplication by x^8. */
  function MulX8(b: bv32): bv32 { MulX(MulX(MulX(MulX(MulX(MulX(MulX(MulX(b)))))))) }

  /** Eight coefficients of a product, for evaluation. */
  function Eight(a: bv32, b: bv32, m: bv32, rest: bv32): bv32 {
    var b1 := MulX(b);
    var b2 := MulX(b1);
    var b3 := MulX(b2);
    var b4 := MulX(b3);
    var b5 := MulX(b4);
    var b6 := MulX(b5);
    var b7 := MulX(b6);
    Plus(Part(a, b, m), Plus(Part(a, b1, m >> 1), Plus(Part(a, b2, m >> 2), Plus(Part(a, b3, m >> 3),
      Plus(Part(a, b4, m >> 4), Plus(Part(a, b5, m >> 5), Plus(Part(a, b6, m >> 6), Plus(Part(a, b7, m >> 7), rest))))))))
  }

  /** All 32 coefficients. */
  function Flat(a: bv32, b: bv32): bv32 {
    var c := MulX8(b);
    var d := MulX8(c);
    Eight(a, b, 0x8000_0000, Eight(a, c, 0x80_0000, Eight(a, d, 0x8000, Eight(a, MulX8(d), 0x80, ZERO))))
  }

  lemma {:induction false} MulStep(a: bv32, b: bv32, m: bv32)
    requires Single(m) && m != ZERO
    ensures Single(m >> 1) && MulFrom(a, b, m) == Plus(Part(a, b, m), MulFrom(a, MulX(b), m >> 1))
  {
    hide Plus, Has, MulX;
    HalfSingle(m);
  }

  lemma {:induction false} UnrolledEight(a: bv32, b: bv32, m: bv32)
    requires m == 0x8000_0000 || m == 0x80_0000 || m == 0x8000 || m == 0x80
    ensures Single(m) && Single(m >> 8) && MulFrom(a, b, m) == Eight(a, b, m, MulFrom(a, MulX8(b), m >> 8))
  {
    hide Plus, Part, MulX, MulFrom;
    var b1 := MulX(b);
    var b2 := MulX(b1);
    var b3 := MulX(b2);
    var b4 := MulX(b3);
    var b5 := MulX(b4);
    var b6 := MulX(b5);
    var b7 := MulX(b6);
    MulStep(a, b, m);
    MulStep(a, b1, m >> 1);
    MulStep(a, b2, m >> 2);
    MulStep(a, b3, m >> 3);
    MulStep(a, b4, m >> 4);
    MulStep(a, b5, m >> 5);
    MulStep(a, b6, m >> 6);
    MulStep(a, b7, m >> 7);
  }

  lemma {:induction false} Unrolled(a: bv32, b: bv32)
    ensures Mul(a, b) == Flat(a, b)
  {
    hide Eight, MulX8, MulFrom;
    UnrolledEight(a, b, 0x8000_0000);
    UnrolledEight(a, MulX8(b), 0x80_0000);
    UnrolledEight(a, MulX8(MulX8(b)), 0x8000);
    UnrolledEight(a, MulX8(MulX8(MulX8(b))), 0x80);
    NoneLeft(a, MulX8(MulX8(MulX8(MulX8(b)))));
  }

  lemma {:induction false} NoneLeft(a: bv32, b: bv32)
    ensures Single(0) && MulFrom(a, b, 0) == ZERO
  {
  }

  // ----- x^(2^n) by squaring

  lemma Square0() ensures Mul(0x4000_0000, 0x4000_0000) == 0x2000_0000 { hide Mul; Unrolled(0x4000_0000, 0x4000_0000); }
  lemma Square1() ensures Mul(0x2000_0000, 0x2000_0000) == 0x0800_0000 { hide Mul; Unrolled(0x2000_0000, 0x2000_0000); }
  lemma Square2() ensures Mul(0x0800_0000, 0x0800_0000) == 0x0080_0000 { hide Mul; Unrolled(0x0800_0000, 0x0800_0000); }
  lemma Square3() ensures Mul(0x0080_0000, 0x0080_0000) == 0x0000_8000 { hide Mul; Unrolled(0x0080_0000, 0x0080_0000); }
  lemma Square4() ensures Mul(0x0000_8000, 0x0000_8000) == 0xedb8_8320 { hide Mul; Unrolled(0x0000_8000, 0x0000_8000); }
  lemma Square5() ensures Mul(0xedb8_8320, 0xedb8_8320) == 0xb1e6_b092 { hide Mul; Unrolled(0xedb8_8320, 0xedb8_8320); }
  lemma Square6() ensures Mul(0xb1e6_b092, 0xb1e6_b092) == 0xa06a_2517 { hide Mul; Unrolled(0xb1e6_b092, 0xb1e6_b092); }
  lemma Square7() ensures Mul(0xa06a_2517, 0xa06a_2517) == 0xed62_7dae { hide Mul; Unrolled(0xa06a_2517, 0xa06a_2517); }
  lemma Square8() ensures Mul(0xed62_7dae, 0xed62_7dae) == 0x88d1_4467 { hide Mul; Unrolled(0xed62_7dae, 0xed62_7dae); }
  lemma Square9() ensures Mul(0x88d1_4467, 0x88d1_4467) == 0xd7bb_fe6a { hide Mul; Unrolled(0x88d1_4467, 0x88d1_4467); }
  lemma Square10() ensures Mul(0xd7bb_fe6a, 0xd7bb_fe6a) == 0xec44_7f11 { hide Mul; Unrolled(0xd7bb_fe6a, 0xd7bb_fe6a); }
  lemma Square11() ensures Mul(0xec44_7f11, 0xec44_7f11) == 0x8e7e_a170 { hide Mul; Unrolled(0xec44_7f11, 0xec44_7f11); }
  lemma Square12() ensures Mul(0x8e7e_a170, 0x8e7e_a170) == 0x6427_800e { hide Mul; Unrolled(0x8e7e_a170, 0x8e7e_a170); }
  lemma Square13() ensures Mul(0x6427_800e, 0x6427_800e) == 0x4d47_bae0 { hide Mul; Unrolled(0x6427_800e, 0x6427_800e); }
  lemma Square14() ensures Mul(0x4d47_bae0, 0x4d47_bae0) == 0x09fe_548f { hide Mul; Unrolled(0x4d47_bae0, 0x4d47_bae0); }
  lemma Square15() ensures Mul(0x09fe_548f, 0x09fe_548f) == 0x8385_2d0f { hide Mul; Unrolled(0x09fe_548f, 0x09fe_548f); }
  lemma Square16() ensures Mul(0x8385_2d0f, 0x8385_2d0f) == 0x3036_2f1a { hide Mul; Unrolled(0x8385_2d0f, 0x8385_2d0f); }
  lemma Square17() ensures Mul(0x3036_2f1a, 0x3036_2f1a) == 0x7b5a_9cc3 { hide Mul; Unrolled(0x3036_2f1a, 0x3036_2f1a); }
  lemma Square18() ensures Mul(0x7b5a_9cc3, 0x7b5a_9cc3) == 0x31fe_c169 { hide Mul; Unrolled(0x7b5a_9cc3, 0x7b5a_9cc3); }
  lemma Square19() ensures Mul(0x31fe_c169, 0x31fe_c169) == 0x9fec_022a { hide Mul; Unrolled(0x31fe_c169, 0x31fe_c169); }
  lemma Square20() ensures Mul(0x9fec_022a, 0x9fec_022a) == 0x6c8d_edc4 { hide Mul; Unrolled(0x9fec_022a, 0x9fec_022a); }
  lemma Square21() ensures Mul(0x6c8d_edc4, 0x6c8d_edc4) == 0x15d6_874d { hide Mul; Unrolled(0x6c8d_edc4, 0x6c8d_edc4); }
  lemma Square22() ensures Mul(0x15d6_874d, 0x15d6_874d) == 0x5fde_7a4e { hide Mul; Unrolled(0x15d6_874d, 0x15d6_874d); }
  lemma Square23() ensures Mul(0x5fde_7a4e, 0x5fde_7a4e) == 0xbad9_0e37 { hide Mul; Unrolled(0x5fde_7a4e, 0x5fde_7a4e); }
  lemma Square24() ensures Mul(0xbad9_0e37, 0xbad9_0e37) == 0x2e4e_5eef { hide Mul; Unrolled(0xbad9_0e37, 0xbad9_0e37); }
  lemma Square25() ensures Mul(0x2e4e_5eef, 0x2e4e_5eef) == 0x4eab_a214 { hide Mul; Unrolled(0x2e4e_5eef, 0x2e4e_5eef); }
  lemma Square26() ensures Mul(0x4eab_a214, 0x4eab_a214) == 0xa8a4_72c0 { hide Mul; Unrolled(0x4eab_a214, 0x4eab_a214); }
  lemma Square27() ensures Mul(0xa8a4_72c0, 0xa8a4_72c0) == 0x429a_969e { hide Mul; Unrolled(0xa8a4_72c0, 0xa8a4_72c0); }
  lemma Square28() ensures Mul(0x429a_969e, 0x429a_969e) == 0x148d_302a { hide Mul; Unrolled(0x429a_969e, 0x429a_969e); }
  lemma Square29() ensures Mul(0x148d_302a, 0x148d_302a) == 0xc40b_a6d0 { hide Mul; Unrolled(0x148d_302a, 0x148d_302a); }
  lemma Square30() ensures Mul(0xc40b_a6d0, 0xc40b_a6d0) == 0xc4e2_2c3c { hide Mul; Unrolled(0xc40b_a6d0, 0xc40b_a6d0); }
  lemma Square31() ensures Mul(0xc4e2_2c3c, 0xc4e2_2c3c) == 0x4000_0000 { hide Mul; Unrolled(0xc4e2_2c3c, 0xc4e2_2c3c); }

  lemma DoublePower(n: nat)
    ensures XPow(Pow2(n + 1)) == Mul(XPow(Pow2(n)), XPow(Pow2(n)))
  {
    hide Mul, Times;
    MulPower(Pow2(n), XPow(Pow2(n)));
    TimesAdd(ONE, Pow2(n), Pow2(n));
  }

  lemma FirstPower()
    ensures XPow(Pow2(0)) == 0x4000_0000
  {
    assert Times(MulX(ONE), 0) == MulX(ONE);
  }

  /** x^(2^32) is x: 32 squarings come back to where they started. */
  lemma PowersWrap()
    ensures XPow(Pow2(32)) == XPow(Pow2(0))
  {
    hide Mul, XPow, Pow2;
    FirstPower();
    DoublePower(0); Square0();
    DoublePower(1); Square1();
    DoublePower(2); Square2();
    DoublePower(3); Square3();
    DoublePower(4); Square4();
    DoublePower(5); Square5();
    DoublePower(6); Square6();
    DoublePower(7); Square7();
    DoublePower(8); Square8();
    DoublePower(9); Square9();
    DoublePower(10); Square10();
    DoublePower(11); Square11();
    DoublePower(12); Square12();
    DoublePower(13); Square13();
    DoublePower(14); Square14();
    DoublePower(15); Square15();
    DoublePower(16); Square16();
    DoublePower(17); Square17();
    DoublePower(18); Square18();
    DoublePower(19); Square19();
    DoublePower(20); Square20();
    DoublePower(21); Square21();
    DoublePower(22); Square22();
    DoublePower(23); Square23();
    DoublePower(24); Square24();
    DoublePower(25); Square25();
    DoublePower(26); Square26();
    DoublePower(27); Square27();
    DoublePower(28); Square28();
    DoublePower(29); Square29();
    DoublePower(30); Square30();
    DoublePower(31); Square31();
  }

  /** Powers of powers. */
  lemma {:induction false} TimesMany(b: bv32, e: nat, f: nat, k: nat)
    requires XPow(e) == XPow(f)
    ensures k * e >= 0 && k * f >= 0 && Times(b, k * e) == Times(b, k * f)
    decreases k
  {
    hide Times, Mul, XPow;
    if k > 0 {
      TimesMany(b, e, f, k - 1);
      assert k * e == (k - 1) * e + e && k * f == (k - 1) * f + f;
      TimesAdd(b, (k - 1) * e, e);
      TimesAdd(b, (k - 1) * f, f);
      MulPower(e, Times(b, (k - 1) * e));
      MulPower(f, Times(b, (k - 1) * f));
    }
  }

  lemma WrapOnce(k: nat)
    requires k >= 32
    ensures XPow(Pow2(k)) == XPow(Pow2(k - 32))
  {
    hide Times, Mul, Pow2;
    PowersWrap();
    Pow2Add(k - 32, 32);
    PowZero();
    TimesMany(ONE, Pow2(32), Pow2(0), Pow2(k - 32));
  }

  lemma PowZero()
    ensures Pow2(0) == 1
  {
  }

  /** x^(2^k) depends on k modulo 32 only, which is how the table is indexed. */
  lemma {:induction false} PowerMod(k: nat)
    ensures XPow(Pow2(k)) == XPow(Pow2(k % 32))
    decreases k
  {
    hide XPow, Pow2;
    if k >= 32 {
      WrapOnce(k);
      PowerMod(k - 32);
    }
  }
}
