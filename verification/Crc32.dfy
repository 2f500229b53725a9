/** deps/zlib/crc32.c: CRC-32 by bits, by tables and by braids. */
module Crc32 {
  import opened CrcPoly
  import opened CrcPowers
  import opened Powers

  const ALL: bv32 := 0xffff_ffff

  type Octet = b: bv32 | b <= 0xff

  // ----- the definition, bit at a time

  /** One byte: eight multiplications by x. */
  function Feed(c: bv32, b: Octet): bv32 { Times(Plus(c, b), 8) }

  /** The register after the bytes `s`. */
  ghost function Raw(c: bv32, s: seq<Octet>): bv32
    decreases |s|
  {
    if s == [] then c else Raw(Feed(c, s[0]), s[1..])
  }

  /** The CRC with pre- and post-conditioning. */
  ghost function Crc(c: bv32, s: seq<Octet>): bv32 { Plus(Raw(Plus(c, ALL), s), ALL) }

  /** The contribution of the bytes alone: each one times the power of x for its place. */
  ghost function Sum(s: seq<Octet>): bv32
    decreases |s|
  {
    if s == [] then ZERO else Plus(Times(s[0], 8 * |s|), Sum(s[1..]))
  }

  lemma {:induction false} RawSum(c: bv32, s: seq<Octet>)
    ensures Raw(c, s) == Plus(Times(c, 8 * |s|), Sum(s))
    decreases |s|
  {
    hide Plus, Times;
    if s == [] {
      TimesNone(c);
      PlusSwap(c, ZERO);
    } else {
      var n := 8 * (|s| - 1);
      RawSum(Feed(c, s[0]), s[1..]);
      TimesAdd(Plus(c, s[0]), 8, n);
      TimesLinear(c, s[0], 8 + n);
      PlusGroup(Times(c, 8 + n), Times(s[0], 8 + n), Sum(s[1..]));
    }
  }

  lemma {:induction false} RawJoin(c: bv32, s: seq<Octet>, t: seq<Octet>)
    ensures Raw(c, s + t) == Raw(Raw(c, s), t)
    decreases |s|
  {
    hide Feed;
    if s == [] {
      assert s + t == t;
    } else {
      assert (s + t)[0] == s[0] && (s + t)[1..] == s[1..] + t;
      RawJoin(Feed(c, s[0]), s[1..], t);
    }
  }

  lemma {:induction false} SumJoin(s: seq<Octet>, t: seq<Octet>)
    ensures Sum(s + t) == Plus(Times(Sum(s), 8 * |t|), Sum(t))
    decreases |s|
  {
    hide Plus, Times;
    if s == [] {
      assert s + t == t;
      TimesZero(8 * |t|);
      PlusSwap(Sum(t), ZERO);
    } else {
      assert (s + t)[0] == s[0] && (s + t)[1..] == s[1..] + t;
      SumJoin(s[1..], t);
      TimesLinear(Times(s[0], 8 * |s|), Sum(s[1..]), 8 * |t|);
      TimesAdd(s[0], 8 * |s|, 8 * |t|);
      PlusGroup(Times(s[0], 8 * |s| + 8 * |t|), Times(Sum(s[1..]), 8 * |t|), Sum(t));
    }
  }

  // ----- table lookup

  /** The low `n` bits are clear. */
  predicate Clear(v: bv32, n: nat)
    decreases n
  {
    n == 0 || (!Has(v, 1) && Clear(Half(v), n - 1))
  }

  function Shifted(v: bv32, n: nat): bv32
    decreases n
  {
    if n == 0 then v else Shifted(Half(v), n - 1)
  }

  /** Steps without a carry are a shift. */
  lemma {:induction false} TimesShift(v: bv32, n: nat)
    requires Clear(v, n)
    ensures Times(v, n) == Shifted(v, n)
    decreases n
  {
    hide MulX, Half, Has;
    MulXSplit(v);
    if n > 0 { TimesShift(Half(v), n - 1); }
  }

  function Two(v: bv32): bv32 { v >> 2 }

  predicate TwoClear(v: bv32) { v & 3 == 0 }

  lemma {:induction false} ClearTwo(v: bv32, n: nat)
    requires TwoClear(v) && Clear(Two(v), n)
    ensures Clear(v, n + 2) && Shifted(v, n + 2) == Shifted(Two(v), n)
  {
    hide Two, TwoClear, Half, Has;
    TwoHalves(v);
    assert Clear(Half(v), n + 1);
  }

  lemma TwoHalves(v: bv32)
    requires TwoClear(v)
    ensures !Has(v, 1) && !Has(Half(v), 1) && Half(Half(v)) == Two(v)
  {
  }

  lemma EightBits(v: bv32)
    requires v & 0xff == 0
    ensures TwoClear(v) && TwoClear(Two(v)) && TwoClear(Two(Two(v))) && TwoClear(Two(Two(Two(v))))
    ensures Two(Two(Two(Two(v)))) == Rest(v)
  {
  }

  lemma {:induction false} ClearByte(v: bv32)
    requires v & 0xff == 0
    ensures Clear(v, 8) && Shifted(v, 8) == Rest(v)
  {
    hide Clear, Shifted, Two, TwoClear, Rest;
    EightBits(v);
    ClearNone(Rest(v));
    ClearTwo(Two(Two(Two(v))), 0);
    ClearTwo(Two(Two(v)), 2);
    ClearTwo(Two(v), 4);
    ClearTwo(v, 6);
  }

  lemma ClearNone(v: bv32)
    ensures Clear(v, 0) && Shifted(v, 0) == v
  {
  }

  function Low(v: bv32): Octet
  {
    LowOctet(v);
    v & 0xff
  }

  lemma LowOctet(v: bv32)
    ensures v & 0xff <= 0xff
  {
  }

  function Rest(v: bv32): bv32 { v >> 8 }

  function High(v: bv32): bv32 { v & 0xffff_ff00 }

  lemma SplitWord(v: bv32)
    ensures (v & 0xffff_ff00) & 0xff == 0 && (v & 0xffff_ff00) >> 8 == v >> 8
    ensures (v & 0xffff_ff00) ^ (v & 0xff) == v
  {
  }

  lemma SplitLow(v: bv32)
    ensures High(v) & 0xff == 0 && Rest(High(v)) == Rest(v)
  {
    SplitWord(v);
  }

  lemma JoinLow(v: bv32)
    ensures Plus(High(v), Low(v)) == v
  {
    SplitWord(v);
  }

  /** A word is its low byte, and the rest eight places on. */
  lemma TimesByte(v: bv32)
    ensures Times(v, 8) == Plus(Rest(v), Times(Low(v), 8))
  {
    hide Times, Plus, Rest, High, Low, Clear, Shifted;
    SplitLow(v);
    JoinLow(v);
    ClearByte(High(v));
    TimesShift(High(v), 8);
    TimesLinear(High(v), Low(v), 8);
  }

  lemma RestOctet(c: bv32, b: Octet)
    ensures Rest(Plus(c, b)) == Rest(c) && Low(Plus(c, b)) == Plus(Low(c), b)
  {
    RawRest(c, b);
  }

  lemma RawRest(c: bv32, b: bv32)
    requires b <= 0xff
    ensures (c ^ b) >> 8 == c >> 8 && (c ^ b) & 0xff == (c & 0xff) ^ b
  {
  }

  /** A place in a table of 256 entries. */
  datatype Index = Index(value: Octet)

  /** Entry i is i times x^e. */
  ghost predicate ShiftTable(t: map<Index, bv32>, e: nat) {
    forall i: Index :: i in t && t[i] == Times(i.value, e)
  }

  ghost predicate ByteTable(t: map<Index, bv32>) { ShiftTable(t, 8) }

  /** One step of the table-driven loop. */
  method UpdateByte(t: map<Index, bv32>, crc: bv32, b: Octet) returns (r: bv32)
    requires ByteTable(t)
    ensures r == Feed(crc, b)
  {
    hide Plus, Rest, Low, Times;
    RestOctet(crc, b);
    TimesByte(Plus(crc, b));
    var i := Low(Plus(crc, b));
    r := Plus(Rest(crc), t[Index(i)]);
  }

  // ----- multmodp and x2nmodp

  /** No coefficient left, nothing added. */
  lemma {:induction false} NothingLeft(a: bv32, b: bv32, m: bv32)
    requires Single(m) && m != ZERO && And(a, m - 1) == ZERO
    ensures Single(Half(m)) && MulFrom(a, b, Half(m)) == ZERO
    decreases m
  {
    hide MulX, Plus, Has, Single, Half, And;
    HalfSingle(m);
    NoneDown(a, m);
    PlusSwap(ZERO, ZERO);
    if Half(m) != ZERO {
      NothingLeft(a, MulX(b), Half(m));
    }
  }

  lemma SomethingLeft(a: bv32, m: bv32)
    requires Single(m) && m != ZERO && And(a, Down(m)) != ZERO && !Has(a, m)
    ensures Half(m) != ZERO && And(a, Down(Half(m))) != ZERO
  {
    hide Plus, Has, Single, Half, And, Down;
    AndSplit(a, m);
    AndSingle(a, m);
    PlusSwap(And(a, m - 1), ZERO);
    if m == 1 {
      AndNothing(a);
    } else {
      Above(m);
      DownOfHalf(m);
      MulXSingle(m);
    }
  }

  lemma AndNothing(a: bv32)
    ensures And(a, 1 - 1) == ZERO
  {
  }

  lemma RestLeft(a: bv32, m: bv32)
    requires Single(m) && m != ZERO && And(a, m - 1) != ZERO
    ensures Half(m) != ZERO && And(a, Down(Half(m))) != ZERO
  {
    hide Single, Half, And, Down;
    if m == 1 {
      AndNothing(a);
    } else {
      Above(m);
      DownOfHalf(m);
      MulXSingle(m);
    }
  }

  /** The coefficients of `a` beyond the one at `m`. */
  function Beyond(a: bv32, m: bv32): bv32 { And(a, m - 1) }

  lemma MultStart(a: bv32, b: bv32)
    requires a != ZERO
    ensures Single(ONE) && ONE != ZERO && And(a, Down(ONE)) != ZERO && Plus(ZERO, MulFrom(a, b, ONE)) == Mul(a, b)
  {
    hide MulX, Plus, Has, Single, Half, And, Down, MulFrom;
    HalfSingle(ONE);
    LastCoefficient(a);
    PlusSwap(MulFrom(a, b, ONE), ZERO);
  }

  /** The body of the loop of multmodp. */
  method Round(a: bv32, b: bv32, m: bv32, p: bv32, ghost product: bv32) returns (q: bv32, done: bool)
    requires Single(m) && m != ZERO && And(a, Down(m)) != ZERO && Plus(p, MulFrom(a, b, m)) == product
    ensures Single(Half(m)) && Half(m) < m && Plus(q, MulFrom(a, MulX(b), Half(m))) == product
    ensures if done then q == product else Half(m) != ZERO && And(a, Down(Half(m))) != ZERO
  {
    hide MulX, Plus, Has, Single, Half, And, Down, MulFrom;
    HalfSingle(m);
    Peel(a, b, m);
    ghost var more := MulFrom(a, MulX(b), Half(m));
    PlusGroup(p, if Has(a, m) then b else ZERO, more);
    PlusSwap(p, ZERO);
    q, done := p, false;
    if Has(a, m) {
      q := Plus(p, b);
      PlusSwap(q, ZERO);
      if Beyond(a, m) == ZERO {
        NothingLeft(a, MulX(b), m);
        done := true;
      } else {
        RestLeft(a, m);
      }
    } else {
      SomethingLeft(a, m);
    }
  }

  /** multmodp; it ends because `a` is not zero. */
  method MultModP(a: bv32, b0: bv32) returns (p: bv32)
    requires a != 0
    ensures p == Mul(a, b0)
  {
    hide MulX, Plus, Has, Single, Half, And, Down, MulFrom, Mul, Beyond;
    var m := ONE;
    var b := b0;
    p := ZERO;
    MultStart(a, b0);
    var done := false;
    while !done
      invariant if done then p == Mul(a, b0)
                else Single(m) && m != ZERO && And(a, Down(m)) != ZERO && Plus(p, MulFrom(a, b, m)) == Mul(a, b0)
      decreases m, !done
    {
      p, done := Round(a, b, m, p, Mul(a, b0));
      m := Half(m);
      b := MulX(b);
    }
  }

  lemma {:induction false} Peel(a: bv32, b: bv32, m: bv32)
    requires Single(m) && m != ZERO
    ensures Single(Half(m)) && MulFrom(a, b, m) == Plus(if Has(a, m) then b else ZERO, MulFrom(a, MulX(b), Half(m)))
  {
    hide MulX, Plus, Has, Single, Half;
    HalfSingle(m);
  }

  ghost predicate PowerTable(t: seq<bv32>) {
    |t| == 32 && forall k :: 0 <= k < 32 ==> t[k] == XPow(Pow2(k))
  }

  lemma PowerNonZero(n: nat)
    ensures XPow(n) != ZERO
  {
    TimesNonZero(ONE, n);
  }

  /** x2nmodp: x^(n * 2^k), never zero. The table is indexed modulo 32 at any length. */
  method X2nModP(t: seq<bv32>, n0: nat, k0: nat) returns (p: bv32)
    requires PowerTable(t)
    ensures n0 * Pow2(k0) >= 0 && p == XPow(n0 * Pow2(k0)) && p != 0
  {
    hide XPow, Mul;
    p := ONE;
    ghost var e: nat := 0;
    var n, k := n0, k0;
    PowerNone();
    while n > 0
      invariant 0 <= n && 0 <= k && p == XPow(e) && e + n * Pow2(k) == n0 * Pow2(k0)
    {
      Halving(n, Pow2(k));
      PowerMod(k);
      if n % 2 == 1 {
        PowerNonZero(Pow2(k));
        PowersMultiply(Pow2(k), e);
        p := MultModP(t[k % 32], p);
        e := e + Pow2(k);
      }
      n := n / 2;
      k := k + 1;
    }
    assert n * Pow2(k) == 0;
    PowerNonZero(e);
  }

  lemma {:induction false} PowerNone()
    ensures XPow(0) == ONE
  {
  }

  lemma Halving(n: nat, p: nat)
    ensures n * p == (n / 2) * (2 * p) + (n % 2) * p
  {
    assert n == 2 * (n / 2) + n % 2;
    assert (2 * (n / 2) + n % 2) * p == (2 * (n / 2)) * p + (n % 2) * p;
    assert (2 * (n / 2)) * p == (n / 2) * (2 * p);
  }

  lemma PowersMultiply(m: nat, n: nat)
    ensures Mul(XPow(m), XPow(n)) == XPow(n + m)
  {
    hide Times, Mul;
    MulPower(m, XPow(n));
    TimesAdd(ONE, n, m);
  }

  // ----- the tables

  lemma {:induction false} TimesStep(v: bv32, n: nat)
    requires n > 0
    ensures Times(v, n) == Times(MulX(v), n - 1)
  {
  }

  lemma BelowNext(i: bv32, j: bv32)
    requires i < 256 && j < i + 1
    ensures j < i || j == i
  {
  }

  lemma OctetBelow(j: bv32, i: bv32)
    requires j <= 0xff && i >= 256
    ensures j < i
  {
  }

  /** Eight shift-register steps. */
  method ByteEntry(i: bv32) returns (p: bv32)
    ensures p == Times(i, 8)
  {
    hide MulX;
    p := i;
    for j := 0 to 8
      invariant Times(p, 8 - j) == Times(i, 8)
    {
      TimesStep(p, 8 - j);
      p := MulX(p);
    }
    TimesNone(p);
  }

  /** The entries below `i` are in place. */
  ghost predicate Filled(t: map<Index, bv32>, i: bv32, e: nat) {
    i <= 256 && forall j: Index :: j.value < i ==> j in t && t[j] == Times(j.value, e)
  }

  lemma FillStep(t: map<Index, bv32>, i: bv32, e: nat, q: bv32)
    requires Filled(t, i, e) && i <= 0xff && q == Times(i, e)
    ensures Filled(t[Index(i) := q], i + 1, e)
  {
    hide Times;
    var u := t[Index(i) := q];
    forall j: Index | j.value < i + 1 ensures j in u && u[j] == Times(j.value, e) {
      BelowNext(i, j.value);
    }
    Bounded(i);
  }

  lemma Bounded(i: bv32)
    requires i <= 0xff
    ensures i + 1 <= 256
  {
  }

  lemma FillDone(t: map<Index, bv32>, i: bv32, e: nat)
    requires Filled(t, i, e) && i >= 256
    ensures ShiftTable(t, e)
  {
    hide Times;
    forall j: Index ensures j in t && t[j] == Times(j.value, e) { OctetBelow(j.value, i); }
  }

  lemma FillNone(e: nat)
    ensures Filled(map[], 0, e)
  {
    forall j: Index ensures !(j.value < 0) { NotBelow(j.value); }
  }

  lemma NotBelow(j: bv32)
    ensures !(j < 0)
  {
  }

  /** make_crc_table: the byte table. */
  method MakeByteTable() returns (t: map<Index, bv32>)
    ensures ByteTable(t)
  {
    hide Times, Filled;
    t := map[];
    var i: bv32 := 0;
    FillNone(8);
    while i < 256
      invariant Filled(t, i, 8)
      decreases 256 - i
    {
      OctetAbove(i);
      var p := ByteEntry(i);
      FillStep(t, i, 8, p);
      t := t[Index(i) := p];
      i := i + 1;
    }
    FillDone(t, i, 8);
  }

  lemma OctetAbove(j: bv32)
    requires j < 256
    ensures j <= 0xff
  {
  }

  /** make_crc_table: the powers x^(2^n), each the square of the one before. */
  method MakePowerTable() returns (t: seq<bv32>)
    ensures PowerTable(t)
  {
    hide Mul, XPow, Pow2;
    FirstPower();
    var p: bv32 := 0x4000_0000;
    t := [p];
    for n := 1 to 32
      invariant |t| == n && p == t[n - 1] && forall k :: 0 <= k < n ==> t[k] == XPow(Pow2(k))
    {
      PowerNonZero(Pow2(n - 1));
      DoublePower(n - 1);
      p := MultModP(p, p);
      t := t + [p];
    }
  }

  // ----- combining

  /** Conditioning both ends makes CRCs of parts fit together. */
  lemma CrcJoin(c: bv32, a: seq<Octet>, b: seq<Octet>)
    ensures Crc(c, a + b) == Plus(Times(Crc(c, a), 8 * |b|), Crc(0, b))
  {
    hide Plus, Times, Raw;
    var n := 8 * |b|;
    var r := Raw(Plus(c, ALL), a);
    RawJoin(Plus(c, ALL), a, b);
    RawSum(r, b);
    PlusSwap(ALL, ZERO);
    RawSum(ALL, b);
    TimesLinear(r, ALL, n);
    var tr, ta, s := Times(r, n), Times(ALL, n), Sum(b);
    PlusGroup(Plus(ta, s), ALL, ZERO);
    // (tr + ta) + ((ta + s) + ALL) is (tr + s) + ALL
    PlusGroup(ta, s, ALL);
    PlusGroup(Plus(tr, ta), ta, Plus(s, ALL));
    PlusGroup(tr, ta, ta);
    PlusSwap(ta, ta);
    PlusSwap(tr, ZERO);
    PlusGroup(tr, s, ALL);
  }

  /** crc32_combine64: the CRC of two pieces from their CRCs and the length of the second, at any length. */
  method Combine(t: seq<bv32>, crc1: bv32, crc2: bv32, len2: nat, ghost a: seq<Octet>, ghost b: seq<Octet>)
    returns (r: bv32)
    requires PowerTable(t) && crc1 == Crc(0, a) && crc2 == Crc(0, b) && len2 == |b|
    ensures r == Crc(0, a + b)
  {
    hide Plus, Times, Crc, Mul, PowerTable;
    var op := X2nModP(t, len2, 3);
    assert Pow2(3) == 8;
    CrcJoin(0, a, b);
    MulPower(8 * len2, crc1);
    var p := MultModP(op, crc1);
    r := Plus(p, crc2);
  }

  // ----- words and braids

  lemma PlusOctet(a: bv32, b: bv32)
    requires a <= 0xff && b <= 0xff
    ensures Plus(a, b) <= 0xff
  {
    XorOctet(a, b);
  }

  lemma XorOctet(a: bv32, b: bv32)
    requires a <= 0xff && b <= 0xff
    ensures a ^ b <= 0xff
  {
  }

  /** A CRC exclusive-or'ed into a word: its bytes meet the first bytes of the word. */
  function Inject(v: bv32, w: seq<Octet>): (r: seq<Octet>)
    ensures |r| == |w|
    decreases |w|
  {
    if w == [] then []
    else
      PlusOctet(w[0], Low(v));
      [Plus(w[0], Low(v))] + Inject(Rest(v), w[1..])
  }

  /** `v` has no more than `n` bytes. */
  predicate Fits(v: bv32, n: nat)
    decreases n
  {
    if n == 0 then v == ZERO else Fits(Rest(v), n - 1)
  }

  lemma {:induction false} FitsFour(v: bv32, n: nat)
    requires n >= 4
    ensures Fits(v, n)
    decreases n
  {
    if n > 4 {
      FitsFour(Rest(v), n - 1);
    } else {
      FourBytes(v);
      assert Fits(Rest(Rest(Rest(Rest(v)))), 0);
      assert Fits(Rest(Rest(Rest(v))), 1);
      assert Fits(Rest(Rest(v)), 2);
    }
  }

  lemma FourBytes(v: bv32)
    ensures Rest(Rest(Rest(Rest(v)))) == ZERO
  {
  }

  /** Injecting a CRC into a word is the same as starting from it. */
  lemma {:induction false} SumInject(v: bv32, w: seq<Octet>)
    requires Fits(v, |w|)
    ensures Sum(Inject(v, w)) == Plus(Times(v, 8 * |w|), Sum(w))
    decreases |w|
  {
    hide Plus, Times, Low, Rest;
    if w == [] {
      TimesZero(0);
      PlusSwap(ZERO, ZERO);
    } else {
      var n := 8 * (|w| - 1);
      var x := Inject(v, w);
      SumInject(Rest(v), w[1..]);
      assert x[1..] == Inject(Rest(v), w[1..]);
      var a, l, r, s := Times(w[0], 8 + n), Times(Low(v), 8 + n), Times(Rest(v), n), Sum(w[1..]);
      TimesLinear(w[0], Low(v), 8 + n);
      assert Sum(x) == Plus(Plus(a, l), Plus(r, s));
      TimesByte(v);
      TimesAdd(v, 8, n);
      TimesAdd(Low(v), 8, n);
      TimesLinear(Rest(v), Times(Low(v), 8), n);
      assert Times(v, 8 + n) == Plus(r, l);
      PlusSwap(a, l);
      PlusGroup(Plus(l, a), r, s);
      PlusThird(l, a, r);
      PlusGroup(Plus(l, r), a, s);
      PlusSwap(l, r);
    }
  }

  lemma LowPlus(u: bv32, v: bv32)
    ensures Low(Plus(u, v)) == Plus(Low(u), Low(v)) && Rest(Plus(u, v)) == Plus(Rest(u), Rest(v))
  {
    LowXor(u, v);
  }

  lemma LowXor(u: bv32, v: bv32)
    ensures (u ^ v) & 0xff == (u & 0xff) ^ (v & 0xff) && (u ^ v) >> 8 == (u >> 8) ^ (v >> 8)
  {
  }

  lemma {:induction false} InjectTwice(u: bv32, v: bv32, w: seq<Octet>)
    ensures Inject(u, Inject(v, w)) == Inject(Plus(u, v), w)
    decreases |w|
  {
    hide Plus, Low, Rest;
    if w != [] {
      LowPlus(u, v);
      PlusGroup(w[0], Low(v), Low(u));
      PlusSwap(Low(u), Low(v));
      InjectTwice(Rest(u), Rest(v), w[1..]);
      assert Inject(v, w)[1..] == Inject(Rest(v), w[1..]);
    }
  }

  lemma {:induction false} InjectPad(v: bv32, w: seq<Octet>)
    requires Fits(v, |w|)
    ensures Inject(v, w + [0]) == Inject(v, w) + [0]
    decreases |w|
  {
    hide Plus, Low, Rest;
    LowZero();
    PlusSwap(ZERO, ZERO);
    if w == [] {
      assert w + [0] == [0];
      assert Inject(v, [0])[0] == Plus(0, Low(v));
    } else {
      assert (w + [0])[1..] == w[1..] + [0];
      InjectPad(Rest(v), w[1..]);
    }
  }

  lemma LowZero()
    ensures Low(ZERO) == 0 && Rest(ZERO) == ZERO
  {
  }

  lemma {:induction false} InjectZero(w: seq<Octet>)
    ensures Inject(ZERO, w) == w
    decreases |w|
  {
    hide Plus, Low, Rest;
    LowZero();
    if w != [] {
      PlusSwap(w[0], ZERO);
      InjectZero(w[1..]);
    }
  }

  /** `(z_crc_t)data`: the first four bytes of a word. */
  function Truncate(d: seq<Octet>): bv32
    requires |d| >= 4
  {
    Plus(d[0], Plus((d[1] as bv32) << 8, Plus((d[2] as bv32) << 16, (d[3] as bv32) << 24)))
  }

  lemma TruncateZeros(v: bv32, n: nat)
    requires n >= 4
    ensures Truncate(Inject(v, seq(n, _ => 0))) == v
  {
    var z := seq(n, _ => 0);
    var a := Rest(v);
    var b := Rest(a);
    assert z[1..] == seq(n - 1, _ => 0) && z[1..][1..] == seq(n - 2, _ => 0) && z[1..][1..][1..] == seq(n - 3, _ => 0);
    ZeroByte(v, z);
    ZeroByte(a, z[1..]);
    ZeroByte(b, z[1..][1..]);
    ZeroByte(Rest(b), z[1..][1..][1..]);
    WordBytes(v);
  }

  lemma ZeroByte(v: bv32, z: seq<Octet>)
    requires z != [] && z[0] == 0
    ensures Inject(v, z)[0] == Low(v) && Inject(v, z)[1..] == Inject(Rest(v), z[1..])
  {
    hide Plus, Low, Rest;
    PlusSwap(Low(v), ZERO);
  }

  lemma WordBytes(v: bv32)
    ensures (v & 0xff) ^ ((((v >> 8) & 0xff) << 8)
              ^ (((((v >> 8) >> 8) & 0xff) << 16) ^ (((((v >> 8) >> 8) >> 8) & 0xff) << 24))) == v
  {
  }

  function ZeroBytes(n: nat): (z: seq<Octet>)
    ensures |z| == n
  {
    seq(n, _ => 0)
  }

  /** One round of crc_word: the register `s` has taken one more byte. */
  lemma WordRound(s: bv32, x: seq<Octet>, d: seq<Octet>, y: bv32)
    requires |x| >= 4 && d == Inject(s, x) && y == Times(d[0], 8)
    ensures Inject(y, d[1..] + [0]) == Inject(Feed(s, x[0]), x[1..] + [0])
  {
    hide Plus, Low, Rest, Times;
    assert d[1..] == Inject(Rest(s), x[1..]);
    ThreeLeft(s, |x| - 1);
    InjectPad(Rest(s), x[1..]);
    InjectTwice(y, Rest(s), x[1..] + [0]);
    RestOctet(s, x[0]);
    TimesByte(Plus(s, x[0]));
    PlusSwap(x[0], Low(s));
    PlusSwap(y, Rest(s));
  }

  lemma ThreeLeft(v: bv32, n: nat)
    requires n >= 3
    ensures Fits(Rest(v), n)
  {
    FitsFour(v, n + 1);
  }

  /** crc_word: the register after the bytes of one word, from zero. */
  method CrcWord(t: map<Index, bv32>, data: seq<Octet>) returns (r: bv32)
    requires ByteTable(t) && |data| >= 4
    ensures r == Sum(data)
  {
    hide Times, Feed, Inject, Sum, Raw, Truncate;
    var d := data;
    ghost var s: bv32 := ZERO;
    InjectZero(data);
    assert data[0..] + ZeroBytes(0) == data;
    for k := 0 to |data|
      invariant |d| == |data| && d == Inject(s, data[k..] + ZeroBytes(k)) && Raw(s, data[k..]) == Raw(ZERO, data)
    {
      ghost var x := data[k..] + ZeroBytes(k);
      assert x[0] == data[k] && x[1..] + [0] == data[k + 1..] + ZeroBytes(k + 1);
      assert data[k..][0] == data[k] && data[k..][1..] == data[k + 1..];
      RawStep(s, data[k..]);
      var y := t[Index(d[0])];
      WordRound(s, x, d, y);
      s := Feed(s, x[0]);
      d := Inject(y, d[1..] + [0]);
    }
    assert data[|data|..] + ZeroBytes(|data|) == ZeroBytes(|data|);
    RawNone(s);
    TruncateZeros(s, |data|);
    RawSum(ZERO, data);
    TimesZero(8 * |data|);
    PlusSwap(Sum(data), ZERO);
    r := Truncate(d);
  }

  lemma {:induction false} RawStep(c: bv32, s: seq<Octet>)
    requires s != []
    ensures Raw(c, s) == Raw(Feed(c, s[0]), s[1..])
  {
  }

  lemma {:induction false} RawNone(c: bv32)
    ensures Raw(c, []) == c
  {
  }

  // ----- the braid tables

  lemma TopByte(i: Octet)
    ensures i != 0 ==> i << 24 != 0
    ensures (i << 24) & 0xff == 0 && (i << 24) >> 8 == i << 16 && (i << 16) & 0xff == 0 && (i << 16) >> 8 == i << 8
    ensures (i << 8) & 0xff == 0 && (i << 8) >> 8 == i
  {
  }

  lemma TimesRest(v: bv32)
    requires v & 0xff == 0
    ensures Times(v, 8) == Rest(v)
  {
    hide Times, Clear, Shifted, Rest;
    ClearByte(v);
    TimesShift(v, 8);
  }

  /** A byte at the top of the word comes down in 24 steps. */
  lemma TopDown(i: Octet)
    ensures Times(i << 24, 24) == i
  {
    hide Times;
    TopByte(i);
    TimesRest(i << 24);
    TimesRest(i << 16);
    TimesRest(i << 8);
    TimesAdd(i << 24, 8, 16);
    TimesAdd(i << 16, 8, 8);
  }

  /** One table of braid: byte `k` of a word, advanced past the words of the other braids. */
  method BraidTable(p: bv32, ghost e: nat) returns (t: map<Index, bv32>)
    requires p == XPow(e + 24)
    ensures ShiftTable(t, e)
  {
    hide Times, Mul, XPow, Filled;
    TimesZero(e);
    FillNone(e);
    FillStep(map[], 0, e, 0);
    t := map[Index(0) := 0];
    assert t == map[][Index(0) := 0 as bv32];
    var i: bv32 := 1;
    while i < 256
      invariant i != 0 && Filled(t, i, e)
      decreases 256 - i
    {
      OctetAbove(i);
      var q := BraidEntry(i, p, e);
      FillStep(t, i, e, q);
      t := t[Index(i) := q];
      i := i + 1;
    }
    FillDone(t, i, e);
  }

  method BraidEntry(i: Octet, p: bv32, ghost e: nat) returns (q: bv32)
    requires p == XPow(e + 24) && i != 0
    ensures q == Times(i, e)
  {
    hide Times, Mul;
    TopByte(i);
    q := MultModP(i << 24, p);
    MulSwap(i << 24, p);
    MulPower(e + 24, i << 24);
    TimesAdd(i << 24, 24, e);
    TopDown(i);
  }

  /** All tables for `n` braids of `w`-byte words. */
  ghost predicate BraidTables(ltl: seq<map<Index, bv32>>, gap: nat, w: nat) {
    |ltl| == w && forall k :: 0 <= k < w ==> ShiftTable(ltl[k], gap + 8 * (w - k))
  }

  /** braid */
  method MakeBraid(t: seq<bv32>, n: nat, w: nat) returns (ltl: seq<map<Index, bv32>>)
    requires PowerTable(t) && n >= 1
    ensures n * w >= w && BraidTables(ltl, 8 * (n * w - w), w)
  {
    hide XPow, ShiftTable, Pow2;
    assert n * w >= w by { ProductMono(1, n, w); }
    PowZero();
    ltl := [];
    for k := 0 to w
      invariant |ltl| == k && forall j :: 0 <= j < k ==> ShiftTable(ltl[j], 8 * (n * w - w) + 8 * (w - j))
    {
      var p := X2nModP(t, (n * w + 3 - k) * 8, 0);
      var l := BraidTable(p, 8 * (n * w - w) + 8 * (w - k));
      ltl := ltl + [l];
    }
  }

  // ----- the braided computation

  /** What the CRCs of the first `j` braids still contribute, with `len` bytes to go from their own block on:
      the one of braid i stands before word i. */
  ghost function Owed(crcs: seq<bv32>, j: nat, w: nat, len: int): bv32
    requires j <= |crcs|
    decreases j
  {
    if j == 0 then ZERO
    else Plus(Owed(crcs, j - 1, w, len), if len >= (j - 1) * w then Times(crcs[j - 1], 8 * (len - (j - 1) * w)) else ZERO)
  }

  lemma {:induction false} OwedStep(crcs: seq<bv32>, j: nat, w: nat, len: nat)
    requires j < |crcs| && len >= j * w
    ensures Owed(crcs, j + 1, w, len) == Plus(Owed(crcs, j, w, len), Times(crcs[j], 8 * (len - j * w)))
  {
  }

  lemma {:induction false} OwedNone(crcs: seq<bv32>, w: nat, len: int)
    ensures Owed(crcs, 0, w, len) == ZERO
  {
  }

  /** Only the first braid starts with a CRC. */
  lemma {:induction false} OwedFirst(crcs: seq<bv32>, j: nat, w: nat, len: nat)
    requires 1 <= j <= |crcs| && (j - 1) * w >= 0 && len >= (j - 1) * w
    requires forall i :: 1 <= i < |crcs| ==> crcs[i] == ZERO
    ensures Owed(crcs, j, w, len) == Times(crcs[0], 8 * len)
    decreases j
  {
    hide Times, Plus, Owed;
    if j == 1 {
      OwedNone(crcs, w, len);
      OwedStep(crcs, 0, w, len);
      PlusSwap(Times(crcs[0], 8 * len), ZERO);
    } else {
      assert (j - 1) * w == (j - 2) * w + w;
      ProductMono(0, j - 2, w);
      OwedFirst(crcs, j - 1, w, len);
      OwedStep(crcs, j - 1, w, len);
      TimesZero(8 * (len - (j - 1) * w));
      PlusSwap(Times(crcs[0], 8 * len), ZERO);
    }
  }

  /** Word `j` of a block. */
  function WordAt(block: seq<Octet>, j: nat, w: nat): (r: seq<Octet>)
    requires 0 <= j * w && j * w + w <= |block|
    ensures |r| == w
  {
    block[j * w..j * w + w]
  }

  lemma SumWord(block: seq<Octet>, j: nat, w: nat)
    requires 0 <= j * w && j * w + w <= |block|
    ensures (j + 1) * w == j * w + w
    ensures Sum(block[..(j + 1) * w]) == Plus(Times(Sum(block[..j * w]), 8 * w), Sum(WordAt(block, j, w)))
  {
    hide Sum, Plus, Times;
    assert (j + 1) * w == j * w + w;
    assert block[..j * w + w] == block[..j * w] + WordAt(block, j, w);
    SumJoin(block[..j * w], WordAt(block, j, w));
  }

  /** What a braid does with one word: its CRC moves on past the words of the other braids. */
  ghost predicate MovedOn(crc: bv32, crc': bv32, word: seq<Octet>, gap: nat) {
    crc' == Times(Plus(Times(crc, 8 * |word|), Sum(word)), gap)
  }

  /** The first `n` braids have moved on by one block. */
  ghost predicate AllMoved(crcs: seq<bv32>, crcs': seq<bv32>, block: seq<Octet>, n: nat, w: nat) {
    && n <= |crcs| && n <= |crcs'| && |block| >= w
    && (forall i :: 0 <= i < n ==> 0 <= i * w && i * w + w <= |block|)
    && (forall i :: 0 <= i < n ==> MovedOn(crcs[i], crcs'[i], WordAt(block, i, w), 8 * (|block| - w)))
  }

  /** A block processed by all braids leaves the total as it was: `len` bytes come after the block of `size`. */
  lemma {:induction false} BlockKeeps(crcs: seq<bv32>, crcs': seq<bv32>, block: seq<Octet>, j: nat, w: nat, len: nat)
    requires |crcs| == |crcs'| && j <= |crcs| && |block| == |crcs| * w && len >= |block| >= w
    requires AllMoved(crcs, crcs', block, |crcs|, w)
    ensures 0 <= j * w <= |block|
    ensures Plus(Times(Sum(block[..j * w]), 8 * (|block| - j * w + len)), Owed(crcs, j, w, |block| + len))
         == Owed(crcs', j, w, len)
    decreases j
  {
    hide Sum, Plus, Times, Owed, WordAt;
    ProductMono(j, |crcs|, w);
    if j == 0 {
      assert block[..0] == [];
      SumNone();
      TimesZero(8 * (|block| + len));
      OwedNone(crcs, w, |block| + len);
      OwedNone(crcs', w, len);
      PlusSwap(ZERO, ZERO);
    } else {
      var i := j - 1;
      BlockKeeps(crcs, crcs', block, i, w, len);
      SumWord(block, i, w);
      OneWordKeeps(crcs, crcs', block, i, w, len);
    }
  }

  lemma {:induction false} SumNone()
    ensures Sum([]) == ZERO
  {
  }

  lemma OneWordKeeps(crcs: seq<bv32>, crcs': seq<bv32>, block: seq<Octet>, i: nat, w: nat, len: nat)
    requires |crcs| == |crcs'| && i < |crcs| && len >= |block| >= w
    requires 0 <= i * w && i * w + w <= |block| && (i + 1) * w == i * w + w
    requires MovedOn(crcs[i], crcs'[i], WordAt(block, i, w), 8 * (|block| - w))
    requires Plus(Times(Sum(block[..i * w]), 8 * (|block| - i * w + len)), Owed(crcs, i, w, |block| + len))
          == Owed(crcs', i, w, len)
    requires Sum(block[..(i + 1) * w]) == Plus(Times(Sum(block[..i * w]), 8 * w), Sum(WordAt(block, i, w)))
    ensures Plus(Times(Sum(block[..(i + 1) * w]), 8 * (|block| - (i + 1) * w + len)), Owed(crcs, i + 1, w, |block| + len))
         == Owed(crcs', i + 1, w, len)
  {
    hide Sum, Plus, Times, Owed, WordAt;
    var b, p := |block|, i * w;
    var e := 8 * (b - p - w + len);
    var word := WordAt(block, i, w);
    OwedStep(crcs, i, w, b + len);
    OwedStep(crcs', i, w, len);
    TimesLinear(Times(Sum(block[..p]), 8 * w), Sum(word), e);
    TimesAdd(Sum(block[..p]), 8 * w, e);
    var before, mine := Times(Sum(block[..p]), 8 * (b - p + len)), Times(Sum(word), e);
    assert Times(Sum(block[..(i + 1) * w]), e) == Plus(before, mine);
    // the new CRC of this braid
    var x := Plus(Times(crcs[i], 8 * w), Sum(word));
    TimesAdd(x, 8 * (b - w), 8 * (len - p));
    assert Times(crcs'[i], 8 * (len - p)) == Times(x, e);
    TimesLinear(Times(crcs[i], 8 * w), Sum(word), e);
    TimesAdd(crcs[i], 8 * w, e);
    var old_ := Times(crcs[i], 8 * (b + len - p));
    var owed := Owed(crcs, i, w, b + len);
    PlusGroup(Plus(before, mine), owed, old_);
    PlusThird(before, mine, owed);
    PlusGroup(Plus(before, owed), mine, old_);
    PlusSwap(mine, old_);
  }

  /** One braid's work on one word: W table lookups. */
  method BraidWord(ltl: seq<map<Index, bv32>>, word: seq<Octet>, ghost gap: nat) returns (crc: bv32)
    requires BraidTables(ltl, gap, |word|) && |word| >= 1
    ensures crc == Times(Sum(word), gap)
  {
    hide Times, Plus, Sum;
    crc := ltl[0][Index(word[0])];
    ghost var target := Times(Sum(word), gap);
    SumStep(word, gap);
    for k := 1 to |word|
      invariant Plus(crc, Times(Sum(word[k..]), gap)) == target
    {
      ghost var rest := word[k..];
      SumStep(rest, gap);
      assert rest[1..] == word[k + 1..];
      PlusGroup(crc, Times(word[k], gap + 8 * |rest|), Times(Sum(rest[1..]), gap));
      crc := Plus(crc, ltl[k][Index(word[k])]);
    }
    assert word[|word|..] == [];
    SumNone();
    TimesZero(gap);
    PlusSwap(crc, ZERO);
  }

  lemma {:induction false} SumStep(s: seq<Octet>, gap: nat)
    requires s != []
    ensures Times(Sum(s), gap) == Plus(Times(s[0], gap + 8 * |s|), Times(Sum(s[1..]), gap))
  {
    hide Times, Plus;
    TimesLinear(Times(s[0], 8 * |s|), Sum(s[1..]), gap);
    TimesAdd(s[0], 8 * |s|, gap);
  }

  /** One block: every braid takes its word. */
  method BraidBlock(ltl: seq<map<Index, bv32>>, crcs: seq<bv32>, block: seq<Octet>, w: nat) returns (crcs': seq<bv32>)
    requires |crcs| >= 1 && w >= 4 && |block| == |crcs| * w >= w && BraidTables(ltl, 8 * (|block| - w), w)
    ensures |crcs'| == |crcs| && AllMoved(crcs, crcs', block, |crcs|, w)
  {
    hide Times, Plus, Sum, BraidTables, Inject;
    crcs' := [];
    for j := 0 to |crcs|
      invariant |crcs'| == j && AllMoved(crcs, crcs', block, j, w)
    {
      WordInside(j, |crcs|, w);
      var word := WordAt(block, j, w);
      FitsFour(crcs[j], w);
      SumInject(crcs[j], word);
      var crc := BraidWord(ltl, Inject(crcs[j], word), 8 * (|block| - w));
      crcs' := crcs' + [crc];
    }
  }

  lemma WordInside(j: nat, n: nat, w: nat)
    requires j < n
    ensures 0 <= j * w && j * w + w <= n * w
  {
    assert (j + 1) * w == j * w + w;
    ProductMono(j + 1, n, w);
    ProductMono(0, j, w);
  }

  /** The last block: the braids are combined word by word. */
  method CombineBlock(t: map<Index, bv32>, crcs: seq<bv32>, block: seq<Octet>, w: nat) returns (crc: bv32)
    requires ByteTable(t) && |crcs| >= 1 && w >= 4 && |block| == |crcs| * w
    ensures crc == Plus(Sum(block), Owed(crcs, |crcs|, w, |block|))
  {
    hide Times, Plus, Sum, ByteTable, Inject, Owed, WordAt;
    crc := 0;
    assert block[..0] == [];
    SumNone();
    OwedNone(crcs, w, 0);
    PlusSwap(ZERO, ZERO);
    for j := 0 to |crcs|
      invariant 0 <= j * w <= |block| && crc == Plus(Sum(block[..j * w]), Owed(crcs, j, w, j * w))
    {
      WordInside(j, |crcs|, w);
      SumWord(block, j, w);
      var word := WordAt(block, j, w);
      FitsFour(crc, w);
      FitsFour(crcs[j], w);
      SumInject(crcs[j], word);
      SumInject(crc, Inject(crcs[j], word));
      OwedMoves(crcs, j, w, j * w);
      OwedStep(crcs, j, w, j * w + w);
      ghost var s, o, c, x := Times(Sum(block[..j * w]), 8 * w), Times(Owed(crcs, j, w, j * w), 8 * w), Times(crcs[j], 8 * w), Sum(word);
      TimesLinear(Sum(block[..j * w]), Owed(crcs, j, w, j * w), 8 * w);
      crc := CrcWord(t, Inject(crc, Inject(crcs[j], word)));
      assert crc == Plus(Plus(s, o), Plus(c, x));
      PlusSwap(c, x);
      PlusGroup(Plus(s, o), x, c);
      PlusThird(s, o, x);
      PlusGroup(Plus(s, x), o, c);
    }
    assert block[..|block|] == block;
  }

  /** With more bytes to go, everything owed moves on. */
  lemma {:induction false} OwedMoves(crcs: seq<bv32>, j: nat, w: nat, len: nat)
    requires j <= |crcs| && len >= j * w
    ensures Times(Owed(crcs, j, w, len), 8 * w) == Owed(crcs, j, w, len + w)
    decreases j
  {
    hide Times, Plus, Owed;
    if j == 0 {
      OwedNone(crcs, w, len);
      OwedNone(crcs, w, len + w);
      TimesZero(8 * w);
    } else {
      assert j * w == (j - 1) * w + w;
      ProductMono(0, j - 1, w);
      OwedMoves(crcs, j - 1, w, len);
      OwedStep(crcs, j - 1, w, len);
      OwedStep(crcs, j - 1, w, len + w);
      var e := 8 * (len - (j - 1) * w);
      TimesLinear(Owed(crcs, j - 1, w, len), Times(crcs[j - 1], e), 8 * w);
      TimesAdd(crcs[j - 1], e, 8 * w);
    }
  }

  /** The register that the blocks to come and the braids so far stand for. */
  ghost function Total(crcs: seq<bv32>, rest: seq<Octet>, w: nat): bv32 {
    Plus(Sum(rest), Owed(crcs, |crcs|, w, |rest|))
  }

  lemma TotalKept(crcs: seq<bv32>, crcs': seq<bv32>, block: seq<Octet>, rest: seq<Octet>, w: nat)
    requires |crcs| == |crcs'| >= 1 && |block| == |crcs| * w >= w && |rest| >= |block|
    requires AllMoved(crcs, crcs', block, |crcs|, w)
    ensures Total(crcs, block + rest, w) == Total(crcs', rest, w)
  {
    hide Sum, Plus, Times, Owed, AllMoved;
    var n := |crcs|;
    BlockKeeps(crcs, crcs', block, n, w, |rest|);
    assert block[..n * w] == block;
    SumJoin(block, rest);
    var b, o, r := Times(Sum(block), 8 * |rest|), Owed(crcs, n, w, |block| + |rest|), Sum(rest);
    PlusSwap(b, r);
    PlusGroup(r, b, o);
  }

  lemma TotalFirst(crc: bv32, crcs: seq<bv32>, s: seq<Octet>, w: nat)
    requires |crcs| >= 1 && crcs[0] == crc && (forall i :: 1 <= i < |crcs| ==> crcs[i] == ZERO)
    requires |s| >= |crcs| * w
    ensures Total(crcs, s, w) == Raw(crc, s)
  {
    hide Sum, Plus, Times, Owed, Raw;
    var n := |crcs|;
    assert n * w == (n - 1) * w + w;
    ProductMono(0, n - 1, w);
    OwedFirst(crcs, n, w, |s|);
    RawSum(crc, s);
    PlusSwap(Sum(s), Times(crc, 8 * |s|));
  }

  /** The part of crc32_z between the alignment and the remaining bytes: `blks` blocks of `n` words of `w` bytes. */
  method Braided(t: map<Index, bv32>, ltl: seq<map<Index, bv32>>, crc: bv32, s: seq<Octet>, blks0: nat, n: nat, w: nat)
    returns (r: bv32)
    requires ByteTable(t) && n >= 1 && w >= 4 && blks0 >= 1 && n * w >= w && |s| == blks0 * (n * w)
    requires BraidTables(ltl, 8 * (n * w - w), w)
    ensures r == Raw(crc, s)
  {
    hide Times, Plus, Sum, ByteTable, BraidTables, Raw, Owed, AllMoved, Total;
    var size := n * w;
    var crcs: seq<bv32> := [crc] + seq(n - 1, _ => 0);
    ProductMono(1, blks0, size);
    TotalFirst(crc, crcs, s, w);
    var words := s;
    var blks := blks0 - 1;
    while blks != 0
      invariant blks >= 0 && |crcs| == n && |words| == blks * size + size && Total(crcs, words, w) == Raw(crc, s)
      decreases blks
    {
      assert blks * size == (blks - 1) * size + size;
      ProductMono(0, blks - 1, size);
      var block := words[..size];
      ghost var before := crcs;
      crcs := BraidBlock(ltl, crcs, block, w);
      assert words == block + words[size..];
      TotalKept(before, crcs, block, words[size..], w);
      words := words[size..];
      blks := blks - 1;
    }
    r := CombineBlock(t, crcs, words, w);
    TotalIs(crcs, words, w);
  }

  lemma TotalIs(crcs: seq<bv32>, rest: seq<Octet>, w: nat)
    ensures Total(crcs, rest, w) == Plus(Sum(rest), Owed(crcs, |crcs|, w, |rest|))
  {
  }

  /** The byte loops, eight at a time and then one at a time. */
  method Bytewise(t: map<Index, bv32>, crc0: bv32, s: seq<Octet>) returns (crc: bv32)
    requires ByteTable(t)
    ensures crc == Raw(crc0, s)
  {
    hide Feed, ByteTable, Raw;
    crc := crc0;
    var k := 0;
    assert s[0..] == s;
    while |s| - k >= 8
      invariant 0 <= k <= |s| && Raw(crc, s[k..]) == Raw(crc0, s)
    {
      for j := 0 to 8
        invariant Raw(crc, s[k + j..]) == Raw(crc0, s)
      {
        crc := OneByte(t, crc, s, k + j, Raw(crc0, s));
      }
      k := k + 8;
    }
    while k < |s|
      invariant 0 <= k <= |s| && Raw(crc, s[k..]) == Raw(crc0, s)
    {
      crc := OneByte(t, crc, s, k, Raw(crc0, s));
      k := k + 1;
    }
    assert s[|s|..] == [];
    RawNone(crc);
  }

  method OneByte(t: map<Index, bv32>, crc: bv32, s: seq<Octet>, k: nat, ghost target: bv32) returns (r: bv32)
    requires ByteTable(t) && k < |s| && Raw(crc, s[k..]) == target
    ensures Raw(r, s[k + 1..]) == target
  {
    hide Feed, ByteTable, Raw;
    RawStep(crc, s[k..]);
    assert s[k..][1..] == s[k + 1..];
    r := UpdateByte(t, crc, s[k]);
  }

  /** crc32_z on a little-endian machine, for any number of braids, any word size from 4 up, any length and any
      distance `ahead` to the next word boundary: the CRC of section 8 of RFC 1952. The test on the length leaves
      at least one block after the alignment, so that the block counter is never decremented below zero. */
  method Crc32Z(t: map<Index, bv32>, ltl: seq<map<Index, bv32>>, n: nat, w: nat, crc0: bv32, buf: seq<Octet>, ahead: nat)
    returns (r: bv32)
    requires n >= 1 && w >= 4 && ahead < w && n * w >= w
    requires ByteTable(t) && BraidTables(ltl, 8 * (n * w - w), w)
    ensures r == Crc(crc0, buf)
  {
    hide Raw, ByteTable, BraidTables, Plus;
    var crc := Plus(crc0, ALL);
    var rest := buf;
    if |buf| >= n * w + w - 1 {
      var size := n * w;
      crc := Bytewise(t, crc, buf[..ahead]);
      rest := buf[ahead..];
      assert buf == buf[..ahead] + rest;
      RawJoin(Plus(crc0, ALL), buf[..ahead], rest);
      var blks := |rest| / size;
      AtLeastOne(|rest|, size);
      var words := rest[..blks * size];
      RawJoin(crc, words, rest[blks * size..]);
      assert rest == words + rest[blks * size..];
      crc := Braided(t, ltl, crc, words, blks, n, w);
      rest := rest[blks * size..];
    }
    crc := Bytewise(t, crc, rest);
    r := Plus(crc, ALL);
  }

  lemma AtLeastOne(len: nat, size: nat)
    requires len >= size >= 1
    ensures len / size >= 1 && 0 <= (len / size) * size <= len
  {
    Divide(len, size);
    if len / size < 1 { ProductMono(len / size, 0, size); }
  }
}
