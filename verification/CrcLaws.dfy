/** What a CRC-32 is good for. */
module CrcLaws {
  import opened Crc32
  import opened CrcPoly
  import opened CrcPowers

  /** A word as four bytes, low byte first, as section 2.3.1 of RFC 1952 stores it. */
  function LowFirst(v: bv32): (s: seq<Octet>)
    ensures |s| == 4
  {
    [Low(v), Low(Rest(v)), Low(Rest(Rest(v))), Low(Rest(Rest(Rest(v))))]
  }

  // ----- words and registers

  lemma {:induction false} LowFirstInjected(v: bv32)
    ensures Inject(v, ZeroBytes(4)) == LowFirst(v)
  {
    hide Plus, Low, Rest;
    var z := ZeroBytes(4);
    var a := Rest(v);
    var b := Rest(a);
    assert z[1..] == ZeroBytes(3) && ZeroBytes(3)[1..] == ZeroBytes(2) && ZeroBytes(2)[1..] == ZeroBytes(1) && ZeroBytes(1)[1..] == [];
    ZeroByte(v, z);
    ZeroByte(a, ZeroBytes(3));
    ZeroByte(b, ZeroBytes(2));
    ZeroByte(Rest(b), ZeroBytes(1));
    var w := Inject(v, z);
    assert w == [w[0]] + w[1..];
    assert Inject(a, ZeroBytes(3)) == [Low(a)] + Inject(b, ZeroBytes(2));
    assert Inject(b, ZeroBytes(2)) == [Low(b)] + Inject(Rest(b), ZeroBytes(1));
    assert Inject(Rest(b), ZeroBytes(1)) == [Low(Rest(b))] + [];
  }

  lemma {:induction false} SumZeros(n: nat)
    ensures Sum(ZeroBytes(n)) == ZERO
    decreases n
  {
    hide Plus, Times;
    if n > 0 {
      assert ZeroBytes(n)[1..] == ZeroBytes(n - 1);
      SumZeros(n - 1);
      TimesZero(8 * n);
      PlusSwap(ZERO, ZERO);
    }
  }

  /** Four bytes are taken as one word. */
  lemma RawWord(c: bv32, v: bv32)
    ensures Raw(c, LowFirst(v)) == Times(Plus(c, v), 32)
  {
    hide Plus, Times, Sum, Inject, LowFirst, Raw;
    var z := ZeroBytes(4);
    FitsFour(v, 4);
    SumInject(v, z);
    LowFirstInjected(v);
    SumZeros(4);
    RawSum(c, LowFirst(v));
    PlusSwap(Times(v, 32), ZERO);
    TimesLinear(c, v, 32);
  }

  lemma EightMore(v: bv32, n: nat)
    ensures Times(v, n + 8) == Times(MulX8(v), n)
  {
    hide MulX;
    assert Times(v, n + 8) == Times(MulX(v), n + 7) == Times(MulX(MulX(v)), n + 6) == Times(MulX(MulX(MulX(v))), n + 5);
    var w := MulX(MulX(MulX(v)));
    assert Times(w, n + 5) == Times(MulX(w), n + 4) == Times(MulX(MulX(w)), n + 3) == Times(MulX(MulX(MulX(w))), n + 2);
    var u := MulX(MulX(MulX(w)));
    assert Times(u, n + 2) == Times(MulX(u), n + 1) == Times(MulX(MulX(u)), n);
  }

  lemma OnesByte()
    ensures MulX8(0xffff_ffff) == 0x2dfd_1072
  {
  }

  lemma OnesBytes()
    ensures MulX8(0x2dfd_1072) == 0xbe26_ed00 && MulX8(0xbe26_ed00) == 0x00be_26ed && MulX8(0x00be_26ed) == 0xdebb_20e3
  {
  }

  /** All ones after four bytes and after one. */
  lemma OnesMoved()
    ensures Times(0xffff_ffff, 32) == 0xdebb_20e3 && Times(0xffff_ffff, 8) == 0x2dfd_1072
  {
    hide MulX8, Times;
    OnesByte();
    OnesBytes();
    EightMore(0xffff_ffff, 24);
    EightMore(0x2dfd_1072, 16);
    EightMore(0xbe26_ed00, 8);
    EightMore(0x00be_26ed, 0);
    EightMore(0xffff_ffff, 0);
    TimesNone(0xdebb_20e3);
    TimesNone(0x2dfd_1072);
  }

  lemma Cancels(r: bv32)
    ensures Plus(r, Plus(r, 0xffff_ffff)) == 0xffff_ffff && Plus(0xdebb_20e3, 0xffff_ffff) == 0x2144_df1c
  {
  }

  // ----- laws of the CRC itself

  /** The residue: a message followed by its CRC always has the same CRC, whatever the start value. */
  lemma Residue(c: bv32, a: seq<Octet>)
    ensures Crc(c, a + LowFirst(Crc(c, a))) == 0x2144_df1c
  {
    hide Plus, Times, Raw, LowFirst;
    var r := Raw(Plus(c, ALL), a);
    RawJoin(Plus(c, ALL), a, LowFirst(Crc(c, a)));
    RawWord(r, Crc(c, a));
    Cancels(r);
    OnesMoved();
  }

  lemma Apart(u: bv32, v: bv32)
    ensures (Plus(u, v) == ZERO) == (u == v) && Plus(Plus(u, 0xffff_ffff), 0xffff_ffff) == u
  {
  }

  /** Registers that differ stay different. */
  lemma RawDiffer(c: bv32, d: bv32, a: seq<Octet>)
    requires c != d
    ensures Raw(c, a) != Raw(d, a)
  {
    hide Plus, Times, Raw, Sum;
    var n := 8 * |a|;
    RawSum(c, a);
    RawSum(d, a);
    Apart(c, d);
    TimesNonZero(Plus(c, d), n);
    TimesLinear(c, d, n);
    SameSum(Times(c, n), Times(d, n), Sum(a));
    Apart(Times(c, n), Times(d, n));
  }

  lemma SameSum(u: bv32, v: bv32, s: bv32)
    ensures Plus(u, s) == Plus(v, s) ==> u == v
  {
  }

  /** Leading zeros are not lost. */
  lemma LeadingZero(a: seq<Octet>)
    ensures Crc(0, [0] + a) != Crc(0, a)
  {
    hide Plus, Times, Raw;
    StartOnes();
    assert ([0] + a)[1..] == a;
    RawStep(ALL, [0] + a);
    PlusSwap(ALL, ZERO);
    OnesMoved();
    assert Feed(ALL, 0) == 0x2dfd_1072;
    RawDiffer(0x2dfd_1072, ALL, a);
    Apart(Raw(0x2dfd_1072, a), ZERO);
    SameSum(Raw(0x2dfd_1072, a), Raw(ALL, a), ALL);
  }

  lemma StartOnes()
    ensures Plus(0, ALL) == ALL == 0xffff_ffff && Plus(ALL, 0) == ALL
  {
  }

  lemma LowFirstOnto(w: seq<Octet>) returns (v: bv32)
    requires |w| == 4
    ensures LowFirst(v) == w
  {
    v := Truncate(w);
    FourOctets(w[0], w[1], w[2], w[3]);
  }

  lemma FourOctets(a: Octet, b: Octet, c: Octet, d: Octet)
    ensures LowFirst(Truncate([a, b, c, d])) == [a, b, c, d]
  {
  }

  /** Any change within four bytes in a row changes the CRC. */
  lemma BurstDetected(c: bv32, a: seq<Octet>, w: seq<Octet>, w': seq<Octet>, b: seq<Octet>)
    requires |w| == |w'| == 4 && w != w'
    ensures Crc(c, a + w + b) != Crc(c, a + w' + b)
  {
    hide Plus, Times, Raw, LowFirst;
    var r := Raw(Plus(c, ALL), a);
    var u := LowFirstOnto(w);
    var v := LowFirstOnto(w');
    RawJoin(Plus(c, ALL), a + w, b);
    RawJoin(Plus(c, ALL), a, w);
    RawJoin(Plus(c, ALL), a + w', b);
    RawJoin(Plus(c, ALL), a, w');
    RawWord(r, u);
    RawWord(r, v);
    WordsDiffer(r, u, v);
    RawDiffer(Times(Plus(r, u), 32), Times(Plus(r, v), 32), b);
    SameSum(Raw(Times(Plus(r, u), 32), b), Raw(Times(Plus(r, v), 32), b), ALL);
  }

  lemma WordsDiffer(r: bv32, u: bv32, v: bv32)
    requires u != v
    ensures Times(Plus(r, u), 32) != Times(Plus(r, v), 32)
  {
    hide Times, Plus;
    PlusSwap(r, u);
    PlusSwap(r, v);
    SameSum(u, v, r);
    Apart(Plus(r, u), Plus(r, v));
    TimesNonZero(Plus(Plus(r, u), Plus(r, v)), 32);
    TimesLinear(Plus(r, u), Plus(r, v), 32);
    Apart(Times(Plus(r, u), 32), Times(Plus(r, v), 32));
  }

  /** The CRC of nothing, and of one byte. */
  lemma KnownValues()
    ensures Crc(0, []) == 0 && Crc(0, [0x61]) == 0xe8b7_be43
  {
    StartOnes();
    OneKnown();
    EightMore(0xffff_ff9e, 0);
    TimesNone(MulX8(0xffff_ff9e));
    assert [0x61][1..] == [];
    assert Raw(ALL, [0x61]) == Raw(Feed(ALL, 0x61), []) == Feed(ALL, 0x61);
  }

  lemma OneKnown()
    ensures Plus(0xffff_ffff, 0x61) == 0xffff_ff9e && Plus(MulX8(0xffff_ff9e), 0xffff_ffff) == 0xe8b7_be43
  {
  }
}
