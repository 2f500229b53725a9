/** Polynomials over GF(2) modulo the CRC-32 polynomial, as deps/zlib/crc32.c keeps them: 32 coefficients,
    the lowest power in the most significant bit, so that multiplying by x is a right shift. Facts about single
    words come first; products and powers are then reasoned about without looking at bits again. */
module CrcPoly {
  /** The CRC polynomial without x^32. */
  const POLY: bv32 := 0xedb8_8320

  /** The polynomials 0 and 1. */
  const ZERO: bv32 := 0
  const ONE: bv32 := 0x8000_0000

  function Plus(a: bv32, b: bv32): bv32 { a ^ b }

  /** Multiplication by x. */
  function MulX(v: bv32): bv32 {
    if v & 1 == 0 then v >> 1 else (v >> 1) ^ POLY
  }

  /** Whether the coefficient at bit `m` is set. */
  predicate Has(a: bv32, m: bv32) { a & m != 0 }

  /** A word with at most one bit set. */
  predicate Single(m: bv32) { m & (m - 1) == 0 }

  function Half(m: bv32): bv32 { m >> 1 }

  // ----- facts about words; everything after this works with them alone

  lemma PlusSwap(a: bv32, b: bv32)
    ensures Plus(a, b) == Plus(b, a) && Plus(a, ZERO) == a && Plus(ZERO, a) == a && Plus(a, a) == ZERO
  {
  }

  lemma PlusGroup(a: bv32, b: bv32, c: bv32)
    ensures Plus(Plus(a, b), c) == Plus(a, Plus(b, c))
  {
  }

  /** The second and third of three change places. */
  lemma PlusThird(a: bv32, b: bv32, c: bv32)
    ensures Plus(Plus(a, b), c) == Plus(Plus(a, c), b)
  {
    hide Plus;
    PlusGroup(a, b, c);
    PlusSwap(b, c);
    PlusGroup(a, c, b);
  }

  lemma XorShift(a: bv32, b: bv32)
    ensures (a ^ b) >> 1 == (a >> 1) ^ (b >> 1)
    ensures (a ^ b) & 1 == if a & 1 == b & 1 then 0 else 1
    ensures a & 1 == 0 || a & 1 == 1
  {
  }

  lemma XorPast(a: bv32, b: bv32, p: bv32)
    ensures (a ^ p) ^ (b ^ p) == a ^ b && (a ^ p) ^ b == (a ^ b) ^ p && a ^ (b ^ p) == (a ^ b) ^ p
  {
  }

  lemma XorMulX(a: bv32, b: bv32)
    ensures MulX(a ^ b) == MulX(a) ^ MulX(b)
  {
    XorShift(a, b);
    XorShift(b, a);
    XorPast(a >> 1, b >> 1, POLY);
  }

  lemma MulXLinear(a: bv32, b: bv32)
    ensures MulX(Plus(a, b)) == Plus(MulX(a), MulX(b))
  {
    hide MulX;
    XorMulX(a, b);
  }

  lemma MulXZero(a: bv32)
    ensures MulX(ZERO) == ZERO && (MulX(a) == ZERO ==> a == ZERO)
  {
  }

  lemma XorBit(a: bv32, b: bv32, m: bv32)
    requires m & (m - 1) == 0
    ensures ((a ^ b) & m != 0) == ((a & m != 0) != (b & m != 0))
  {
  }

  lemma HasPlus(a: bv32, b: bv32, m: bv32)
    requires Single(m)
    ensures Has(Plus(a, b), m) <==> Has(a, m) != Has(b, m)
  {
    XorBit(a, b, m);
  }

  lemma HalfSingle(m: bv32)
    ensures Single(m) ==> Single(Half(m))
    ensures m != ZERO ==> Half(m) < m
    ensures Single(ONE) && Half(ZERO) == ZERO && Single(ZERO)
  {
  }

  /** The bits from `m` down. */
  function Down(m: bv32): bv32 { m | (m - 1) }

  function And(a: bv32, m: bv32): bv32 { a & m }

  lemma DisjointAnd(a: bv32, m: bv32, n: bv32)
    requires m & n == 0
    ensures (a & m) ^ (a & n) == a & (m | n)
  {
  }

  lemma SingleAnd(a: bv32, m: bv32)
    requires m & (m - 1) == 0
    ensures a & m == 0 || a & m == m
  {
  }

  lemma DownHalf(m: bv32)
    requires m & (m - 1) == 0 && m > 1
    ensures (m >> 1) | ((m >> 1) - 1) == m - 1
  {
  }

  lemma AndSplit(a: bv32, m: bv32)
    requires Single(m)
    ensures Plus(And(a, m), And(a, m - 1)) == And(a, Down(m))
  {
    DisjointAnd(a, m, m - 1);
  }

  lemma AndSingle(a: bv32, m: bv32)
    requires Single(m)
    ensures And(a, m) == if Has(a, m) then m else ZERO
  {
    SingleAnd(a, m);
  }

  lemma DownOfHalf(m: bv32)
    requires Single(m) && m > 1
    ensures Down(Half(m)) == m - 1
  {
    DownHalf(m);
  }

  /** Taking one coefficient off, from the top. */
  lemma TakeCoefficient(a: bv32, m: bv32)
    requires Single(m) && m > 1
    ensures Plus(if Has(a, m) then m else ZERO, And(a, Down(Half(m)))) == And(a, Down(m))
  {
    hide Plus, Has, And, Down, Half, Single;
    AndSplit(a, m);
    AndSingle(a, m);
    DownOfHalf(m);
  }

  lemma LastCoefficient(a: bv32)
    ensures And(a, Down(1)) == if Has(a, 1) then 1 else ZERO
    ensures And(a, Down(ONE)) == a && MulX(1) == POLY && Half(1) == ZERO
  {
  }

  lemma MulXSingle(m: bv32)
    requires Single(m) && m > 1
    ensures MulX(m) == Half(m) && Half(m) != ZERO
  {
  }

  function ClearLow(a: bv32): bv32 { a & 0xffff_fffe }

  /** Multiplying by x moves every coefficient; the one of x^31 comes back as the polynomial. */
  lemma MulXSplit(a: bv32)
    ensures MulX(a) == if Has(a, 1) then Plus(Half(a), POLY) else Half(a)
    ensures a == if Has(a, 1) then Plus(ClearLow(a), 1) else ClearLow(a)
    ensures !Has(Half(a), ONE) && !Has(ClearLow(a), 1)
  {
  }

  lemma HasHalf(a: bv32, m: bv32)
    ensures Has(Half(a), Half(m)) <==> Has(ClearLow(a), m)
  {
  }

  lemma NoneDown(a: bv32, m: bv32)
    requires Single(m) && m != ZERO && And(a, m - 1) == ZERO
    ensures !Has(a, Half(m)) && (Half(m) != ZERO ==> And(a, Half(m) - 1) == ZERO)
  {
  }

  // ----- powers of x

  /** x^n times `b`. */
  function Times(b: bv32, n: nat): bv32
    decreases n
  {
    if n == 0 then b else Times(MulX(b), n - 1)
  }

  lemma {:induction false} TimesLinear(a: bv32, b: bv32, n: nat)
    ensures Times(Plus(a, b), n) == Plus(Times(a, n), Times(b, n))
    decreases n
  {
    hide MulX, Plus;
    if n > 0 {
      MulXLinear(a, b);
      TimesLinear(MulX(a), MulX(b), n - 1);
    }
  }

  lemma {:induction false} TimesZero(n: nat)
    ensures Times(ZERO, n) == ZERO
  {
    hide MulX;
    MulXZero(ZERO);
    if n > 0 { TimesZero(n - 1); }
  }

  lemma {:induction false} TimesAdd(b: bv32, m: nat, n: nat)
    ensures Times(Times(b, m), n) == Times(b, m + n)
    decreases m
  {
    hide MulX;
    if m > 0 { TimesAdd(MulX(b), m - 1, n); }
  }

  lemma {:induction false} TimesX(b: bv32, n: nat)
    ensures Times(MulX(b), n) == MulX(Times(b, n)) == Times(b, n + 1)
    decreases n
  {
    hide MulX;
    if n > 0 { TimesX(MulX(b), n - 1); }
  }

  /** x^n modulo the polynomial. */
  function XPow(n: nat): bv32 { Times(ONE, n) }

  /** x is invertible, so its powers are never zero. */
  lemma {:induction false} TimesNonZero(b: bv32, n: nat)
    requires b != ZERO
    ensures Times(b, n) != ZERO
    decreases n
  {
    hide MulX;
    if n > 0 {
      MulXZero(b);
      TimesNonZero(MulX(b), n - 1);
    }
  }

  // ----- products

  /** The coefficients of `a` from the one at `m` on down the word, times `b`. */
  function MulFrom(a: bv32, b: bv32, m: bv32): bv32
    requires Single(m)
    decreases m
  {
    if m == ZERO then ZERO
    else
      HalfSingle(m);
      Plus(if Has(a, m) then b else ZERO, MulFrom(a, MulX(b), Half(m)))
  }

  /** The product modulo the polynomial. */
  function Mul(a: bv32, b: bv32): bv32 {
    HalfSingle(ONE);
    MulFrom(a, b, ONE)
  }

  lemma {:induction false} MulRight(a: bv32, b: bv32, c: bv32, m: bv32)
    requires Single(m)
    ensures MulFrom(a, Plus(b, c), m) == Plus(MulFrom(a, b, m), MulFrom(a, c, m))
    decreases m
  {
    hide MulX, Plus, Has, Single, Half;
    PlusSwap(ZERO, ZERO);
    if m != ZERO {
      HalfSingle(m);
      MulXLinear(b, c);
      MulRight(a, MulX(b), MulX(c), Half(m));
      var u, v := if Has(a, m) then b else ZERO, if Has(a, m) then c else ZERO;
      var x, y := MulFrom(a, MulX(b), Half(m)), MulFrom(a, MulX(c), Half(m));
      PlusGroup(Plus(u, v), x, y);
      PlusThird(u, v, x);
      PlusGroup(Plus(u, x), v, y);
    }
  }

  lemma {:induction false} MulLeft(a: bv32, b: bv32, c: bv32, m: bv32)
    requires Single(m)
    ensures MulFrom(Plus(a, b), c, m) == Plus(MulFrom(a, c, m), MulFrom(b, c, m))
    decreases m
  {
    hide MulX, Plus, Has, Single, Half;
    PlusSwap(ZERO, ZERO);
    if m != ZERO {
      HalfSingle(m);
      HasPlus(a, b, m);
      MulLeft(a, b, MulX(c), Half(m));
      PlusSwap(c, ZERO);
      var u, v := if Has(a, m) then c else ZERO, if Has(b, m) then c else ZERO;
      var x, y := MulFrom(a, MulX(c), Half(m)), MulFrom(b, MulX(c), Half(m));
      PlusGroup(Plus(u, v), x, y);
      PlusThird(u, v, x);
      PlusGroup(Plus(u, x), v, y);
    }
  }

  /** Products commute with multiplication by x. */
  lemma {:induction false} MulXOut(a: bv32, b: bv32, m: bv32)
    requires Single(m)
    ensures MulFrom(a, MulX(b), m) == MulX(MulFrom(a, b, m))
    decreases m
  {
    hide MulX, Plus, Has, Single, Half;
    MulXZero(ZERO);
    if m != ZERO {
      HalfSingle(m);
      MulXOut(a, MulX(b), Half(m));
      MulXLinear(if Has(a, m) then b else ZERO, MulFrom(a, MulX(b), Half(m)));
    }
  }

  /** `a` times 1, read from bit `m` down. */
  lemma {:induction false} MulOneFrom(a: bv32, m: bv32)
    requires Single(m) && m != ZERO
    ensures MulFrom(a, m, m) == And(a, Down(m))
    decreases m
  {
    hide MulX, Plus, Has, Single, Half, And, Down;
    HalfSingle(m);
    PlusSwap(m, ZERO);
    LastCoefficient(a);
    if m == 1 {
      PlusSwap(ZERO, ZERO);
      assert MulFrom(a, MulX(m), Half(m)) == ZERO;
    } else {
      Above(m);
      MulXSingle(m);
      MulOneFrom(a, Half(m));
      TakeCoefficient(a, m);
    }
  }

  lemma Above(m: bv32)
    requires m != ZERO && m != 1
    ensures m > 1
  {
  }

  lemma MulOne(a: bv32)
    ensures Mul(a, ONE) == a
  {
    hide MulX, Plus, Has, Single, Half, And, Down, MulFrom;
    HalfSingle(ONE);
    MulOneFrom(a, ONE);
    LastCoefficient(a);
  }

  /** Products in a row can be taken in any order. */
  lemma {:induction false} MulExchange(a: bv32, b: bv32, c: bv32, m: bv32)
    requires Single(m)
    ensures MulFrom(a, Mul(b, c), m) == Mul(b, MulFrom(a, c, m))
    decreases m
  {
    hide MulX, Plus, Has, Single, Half, Mul;
    MulZero(b);
    if m != ZERO {
      HalfSingle(m);
      MulXMul(b, c);
      MulExchange(a, b, MulX(c), Half(m));
      MulPlus(b, if Has(a, m) then c else ZERO, MulFrom(a, MulX(c), Half(m)));
    }
  }

  lemma MulPlus(a: bv32, b: bv32, c: bv32)
    ensures Mul(a, Plus(b, c)) == Plus(Mul(a, b), Mul(a, c))
  {
    hide MulFrom, Plus, Single;
    HalfSingle(ONE);
    MulRight(a, b, c, ONE);
  }

  lemma PlusMul(a: bv32, b: bv32, c: bv32)
    ensures Mul(Plus(a, b), c) == Plus(Mul(a, c), Mul(b, c))
  {
    hide MulFrom, Plus, Single;
    HalfSingle(ONE);
    MulLeft(a, b, c, ONE);
  }

  lemma MulXMul(a: bv32, b: bv32)
    ensures Mul(a, MulX(b)) == MulX(Mul(a, b))
  {
    hide MulFrom, MulX, Single;
    HalfSingle(ONE);
    MulXOut(a, b, ONE);
  }

  lemma MulZero(a: bv32)
    ensures Mul(a, ZERO) == ZERO
  {
    hide MulFrom, Plus, Mul;
    MulPlus(a, ZERO, ZERO);
    PlusSwap(ZERO, ZERO);
    PlusSwap(Mul(a, ZERO), ZERO);
  }

  lemma MulSwap(a: bv32, b: bv32)
    ensures Mul(a, b) == Mul(b, a)
  {
    hide MulFrom, Single;
    HalfSingle(ONE);
    MulExchange(a, b, ONE, ONE);
    MulOne(a);
    MulOne(b);
  }

  /** Halving `a` shifts its coefficients by one. */
  lemma {:induction false} MulHalf(a: bv32, b: bv32, m: bv32)
    requires Single(m)
    ensures Single(Half(m)) && MulFrom(Half(a), b, Half(m)) == MulFrom(ClearLow(a), b, m)
    decreases m
  {
    hide MulX, Plus, Has, Single, Half, ClearLow;
    HalfSingle(m);
    HalfSingle(Half(m));
    HasHalf(a, m);
    PlusSwap(ZERO, ZERO);
    if m != ZERO {
      MulHalf(a, MulX(b), Half(m));
      if Half(m) == ZERO {
        HalfNone(a, m);
      }
    }
  }

  lemma HalfNone(a: bv32, m: bv32)
    requires Half(m) == ZERO
    ensures !Has(ClearLow(a), m)
  {
  }

  /** The polynomial itself acts as x^32, that is, as x times x^31. */
  lemma MulPoly(b: bv32)
    ensures Mul(POLY, b) == MulX(Mul(1, b))
  {
    hide MulFrom, MulX, Mul;
    LastCoefficient(1);
    MulSwap(POLY, b);
    MulSwap(1, b);
    MulXMul(b, 1);
  }

  /** Multiplying the first factor by x. */
  lemma XMul(a: bv32, b: bv32)
    ensures Mul(MulX(a), b) == MulX(Mul(a, b))
  {
    hide MulX, Plus, Has, Half, ClearLow, Mul;
    MulXSplit(a);
    HalfMul(a, b);
    if Has(a, 1) {
      PlusMul(Half(a), POLY, b);
      PlusMul(ClearLow(a), 1, b);
      MulPoly(b);
      MulXLinear(Mul(ClearLow(a), b), Mul(1, b));
    }
  }

  lemma HalfMul(a: bv32, b: bv32)
    ensures Mul(Half(a), b) == MulX(Mul(ClearLow(a), b))
  {
    hide MulX, Plus, Has, Single, Half, ClearLow;
    HalfSingle(ONE);
    MulXSplit(a);
    MulHalf(a, MulX(b), ONE);
    MulXOut(ClearLow(a), b, ONE);
    PlusSwap(MulFrom(Half(a), MulX(b), Half(ONE)), ZERO);
  }

  /** Multiplying by a power of x. */
  lemma {:induction false} MulPower(n: nat, b: bv32)
    ensures Mul(XPow(n), b) == Times(b, n)
    decreases n
  {
    hide MulX, Mul, Times;
    if n == 0 {
      TimesNone(ONE);
      TimesNone(b);
      MulSwap(ONE, b);
      MulOne(b);
    } else {
      TimesX(ONE, n - 1);
      TimesX(b, n - 1);
      MulPower(n - 1, b);
      XMul(XPow(n - 1), b);
    }
  }

  lemma TimesNone(b: bv32)
    ensures Times(b, 0) == b
  {
  }
}
