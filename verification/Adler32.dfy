/** deps/zlib/adler32.c: the Adler-32 checksum. */
module Adler32 {
  import Powers
  import opened Counting

  const BASE := 65521
  const NMAX := 5552

  /** The two sums, kept apart. */
  datatype Sums = Sums(s1: nat, s2: nat)

  /** The definition: both sums are reduced after every byte. */
  ghost function Reduced(s: Sums, buf: seq<byte>): Sums
    decreases |buf|
  {
    if buf == [] then s
    else
      var p := Reduced(s, buf[..|buf| - 1]);
      var s1 := (p.s1 + buf[|buf| - 1]) % BASE;
      Sums(s1, (p.s2 + s1) % BASE)
  }

  /** The same without reductions. */
  ghost function Plain(s: Sums, buf: seq<byte>): Sums
    decreases |buf|
  {
    if buf == [] then s
    else
      var p := Plain(s, buf[..|buf| - 1]);
      var s1 := p.s1 + buf[|buf| - 1];
      Sums(s1, p.s2 + s1)
  }

  ghost function Mod(s: Sums): Sums { Sums(s.s1 % BASE, s.s2 % BASE) }

  lemma ModSum(x: nat, y: nat)
    ensures (x + y) % BASE == (x % BASE + y) % BASE == (x % BASE + y % BASE) % BASE
  {
    Powers.Divide(x, BASE);
    Powers.Divide(y, BASE);
    Congruent(x % BASE + y, x / BASE);
    Congruent(x % BASE + y % BASE, y / BASE);
  }

  lemma PlainStep(s: Sums, q: seq<byte>, c: byte)
    ensures var p := Plain(s, q); Plain(s, q + [c]) == Sums(p.s1 + c, p.s2 + p.s1 + c)
  {
    assert (q + [c])[..|q|] == q;
  }

  lemma ReducedStep(s: Sums, q: seq<byte>, c: byte)
    ensures var p := Reduced(s, q); var a := (p.s1 + c) % BASE; Reduced(s, q + [c]) == Sums(a, (p.s2 + a) % BASE)
  {
    assert (q + [c])[..|q|] == q;
  }

  /** Reductions can be put off. */
  lemma {:induction false} PlainReduced(s: Sums, buf: seq<byte>)
    ensures Mod(Plain(s, buf)) == Reduced(Mod(s), buf)
    decreases |buf|
  {
    hide Plain, Reduced;
    if buf == [] {
      PlainNone(s);
      ReducedNone(Mod(s));
    } else {
      var q, c := buf[..|buf| - 1], buf[|buf| - 1];
      assert buf == q + [c];
      PlainReduced(s, q);
      PlainStep(s, q, c);
      ReducedStep(Mod(s), q, c);
      var p := Plain(s, q);
      ModSum(p.s1, c);
      ModSum(p.s2, p.s1 + c);
    }
  }

  /** How large the unreduced sums can get. */
  lemma {:induction false} PlainBound(s: Sums, buf: seq<byte>)
    ensures Plain(s, buf).s1 <= s.s1 + 255 * |buf|
    ensures 2 * Plain(s, buf).s2 <= 2 * s.s2 + 2 * |buf| * s.s1 + 255 * |buf| * (|buf| + 1)
    decreases |buf|
  {
    hide Plain;
    if buf == [] {
      PlainNone(s);
    } else {
      var q, c := buf[..|buf| - 1], buf[|buf| - 1];
      assert buf == q + [c];
      PlainBound(s, q);
      PlainStep(s, q, c);
      BoundStep(s, Plain(s, q), |q|, c);
    }
  }

  lemma BoundStep(s: Sums, p: Sums, n: nat, c: byte)
    requires p.s1 <= s.s1 + 255 * n && 2 * p.s2 <= 2 * s.s2 + 2 * n * s.s1 + 255 * n * (n + 1)
    ensures 2 * (p.s2 + p.s1 + c) <= 2 * s.s2 + 2 * (n + 1) * s.s1 + 255 * (n + 1) * (n + 2)
  {
    assert 2 * (n + 1) * s.s1 == 2 * n * s.s1 + 2 * s.s1;
    assert 255 * (n + 1) * (n + 2) == 255 * n * (n + 1) + 510 * (n + 1);
  }

  /** NMAX is exactly as large as 32 bits allow. */
  lemma NmaxIsTight()
    ensures 255 * NMAX * (NMAX + 1) / 2 + (NMAX + 1) * (BASE - 1) < 0x1_0000_0000
    ensures 255 * (NMAX + 1) * (NMAX + 2) / 2 + (NMAX + 2) * (BASE - 1) >= 0x1_0000_0000
  {
  }

  /** A block of at most NMAX bytes after a reduction stays within 32 bits. */
  lemma FitsBlock(s: Sums, buf: seq<byte>)
    requires s.s1 < BASE && s.s2 < BASE && |buf| <= NMAX
    ensures Plain(s, buf).s1 < 0x1_0000_0000 && Plain(s, buf).s2 < 0x1_0000_0000
  {
    PlainBound(s, buf);
    var n := |buf|;
    Larger(n * s.s1, n * (BASE - 1), n, s.s1, BASE - 1);
    Larger(n * (BASE - 1), NMAX * (BASE - 1), BASE - 1, n, NMAX);
    Square(n);
  }

  lemma Larger(x: int, y: int, k: nat, a: nat, b: nat)
    requires x == k * a && y == k * b && a <= b
    ensures x <= y
  {
    assert k * b == k * a + k * (b - a);
  }

  lemma Square(n: nat)
    requires n <= NMAX
    ensures 255 * n * (n + 1) <= 255 * NMAX * (NMAX + 1)
  {
    Larger(n * n, n * NMAX, n, n, NMAX);
    Larger(n * NMAX, NMAX * NMAX, NMAX, n, NMAX);
    assert n * (n + 1) == n * n + n;
    assert 255 * n * (n + 1) == 255 * (n * (n + 1));
  }

  lemma {:induction false} PlainJoin(s: Sums, a: seq<byte>, b: seq<byte>)
    ensures Plain(s, a + b) == Plain(Plain(s, a), b)
    decreases |b|
  {
    if b == [] {
      assert a + b == a;
    } else {
      assert (a + b)[..|a + b| - 1] == a + b[..|b| - 1];
      PlainJoin(s, a, b[..|b| - 1]);
    }
  }

  // ----- reductions without division

  /** CHOP */
  function Chop(a: nat): nat { a % 0x1_0000 + (a / 0x1_0000 * 16 - a / 0x1_0000) }

  lemma ChopKeeps(a: nat)
    ensures Chop(a) % BASE == a % BASE
  {
    var t := a / 0x1_0000;
    assert a == Chop(a) + BASE * t;
  }

  function Subtract(a: nat): nat { if a >= BASE then a - BASE else a }

  /** MOD28 is the remainder for all values below 2^28. */
  lemma Mod28Right(a: nat)
    requires a < 0x1000_0000
    ensures Subtract(Chop(a)) == a % BASE
  {
    ChopKeeps(a);
  }

  /** MOD is the remainder for all values of 32 bits. */
  lemma ModRight(a: nat)
    requires a < 0x1_0000_0000
    ensures Subtract(Chop(Chop(a))) == a % BASE
  {
    ChopKeeps(a);
    Mod28Right(Chop(a));
  }

  /** The first step of MOD63. */
  function Fold(a: nat): nat { a % 0x1_0000_0000 + (a / 0x1_0000_0000 * 256 - a / 0x1_0000_0000 * 32 + a / 0x1_0000_0000) }

  lemma FoldKeeps(a: nat)
    ensures Fold(a) % BASE == a % BASE
  {
    var t := a / 0x1_0000_0000;
    assert a == Fold(a) + BASE * (65551 * t);
    Multiples(Fold(a), 65551 * t);
  }

  lemma Multiples(x: nat, k: nat)
    ensures (x + BASE * k) % BASE == x % BASE
  {
  }

  lemma FoldBound(a: nat)
    requires a < 0x8000_0000_0000_0000
    ensures Fold(a) < 227 * 0x8000_0000
  {
  }

  lemma ChopBound(a: nat)
    ensures a < 227 * 0x8000_0000 ==> Chop(a) <= 111_640_560
    ensures a <= 111_640_560 ==> Chop(a) < 2 * BASE
  {
  }

  /** MOD63 is the remainder for all values below 2^63. */
  lemma Mod63Right(a: nat)
    requires a < 0x8000_0000_0000_0000
    ensures Subtract(Chop(Chop(Fold(a)))) == a % BASE
  {
    hide Fold, Chop;
    FoldKeeps(a);
    FoldBound(a);
    ChopKeeps(Fold(a));
    ChopBound(Fold(a));
    ChopKeeps(Chop(Fold(a)));
    ChopBound(Chop(Fold(a)));
  }

  // ----- the checksum

  /** Both sums in one word. */
  function Join(s: Sums): nat { s.s1 + s.s2 * 0x1_0000 }

  ghost predicate IsReduced(s: Sums) { s.s1 < BASE && s.s2 < BASE }

  /** The byte loop: unreduced sums. */
  method Accumulate(s: Sums, buf: seq<byte>) returns (r: Sums)
    ensures r == Plain(s, buf)
  {
    r := s;
    var k := 0;
    assert buf[..0] == [];
    while k < |buf|
      invariant 0 <= k <= |buf| && r == Plain(s, buf[..k])
    {
      assert buf[..k + 1][..k] == buf[..k];
      var adler := r.s1 + buf[k];
      r := Sums(adler, r.s2 + adler);
      k := k + 1;
    }
    assert buf[..|buf|] == buf;
  }

  /** A stretch between two reductions, 16 bytes at a time as far as they go; nothing overflows 32 bits. */
  method SumBlock(s: Sums, buf: seq<byte>) returns (r: Sums)
    requires IsReduced(s) && |buf| <= NMAX
    ensures r == Reduced(s, buf)
  {
    hide Plain, Reduced;
    r := s;
    var k := 0;
    PlainNone(s);
    assert buf[..0] == [];
    while |buf| - k >= 16
      invariant 0 <= k <= |buf| && r == Plain(s, buf[..k])
    {
      r := Accumulate(r, buf[k..k + 16]);
      PlainJoin(s, buf[..k], buf[k..k + 16]);
      assert buf[..k] + buf[k..k + 16] == buf[..k + 16];
      k := k + 16;
    }
    r := Accumulate(r, buf[k..]);
    PlainJoin(s, buf[..k], buf[k..]);
    assert buf[..k] + buf[k..] == buf;
    FitsBlock(s, buf);
    assert r.s1 < 0x1_0000_0000 && r.s2 < 0x1_0000_0000;
    PlainReduced(s, buf);
    r := Sums(r.s1 % BASE, r.s2 % BASE);
  }

  lemma {:induction false} PlainNone(s: Sums)
    ensures Plain(s, []) == s
  {
  }

  lemma {:induction false} ReducedJoin(s: Sums, a: seq<byte>, b: seq<byte>)
    ensures Reduced(s, a + b) == Reduced(Reduced(s, a), b)
    decreases |b|
  {
    if b == [] {
      assert a + b == a;
    } else {
      assert (a + b)[..|a + b| - 1] == a + b[..|b| - 1];
      ReducedJoin(s, a, b[..|b| - 1]);
    }
  }

  /** Fewer than 16 bytes: one subtraction and MOD28 are enough. */
  method ShortBuffer(s: Sums, buf: seq<byte>) returns (r: Sums)
    requires IsReduced(s) && |buf| < 16
    ensures r == Reduced(s, buf)
  {
    hide Plain, Reduced;
    var p := Accumulate(s, buf);
    PlainReduced(s, buf);
    PlainBound(s, buf);
    ShortSums(s, p, |buf|);
    r := Sums(Subtract(p.s1), p.s2 % BASE);
  }

  lemma ShortSums(s: Sums, p: Sums, n: nat)
    requires IsReduced(s) && n < 16
    requires p.s1 <= s.s1 + 255 * n && 2 * p.s2 <= 2 * s.s2 + 2 * n * s.s1 + 255 * n * (n + 1)
    ensures p.s1 < 2 * BASE && p.s2 < 0x1000_0000
  {
    Larger(n * s.s1, n * (BASE - 1), n, s.s1, BASE - 1);
    Larger(n * n, n * 15, n, n, 15);
    assert 255 * n * (n + 1) == 255 * (n * n) + 255 * n;
    assert 2 * n * s.s1 == 2 * (n * s.s1);
  }

  /** 16 bytes or more: a reduction after every NMAX bytes, and one after the rest. */
  method LongBuffer(start: Sums, buf: seq<byte>) returns (s: Sums)
    requires IsReduced(start)
    ensures s == Reduced(start, buf)
  {
    hide Plain, Reduced;
    s := start;
    var k := 0;
    assert buf[..0] == [];
    ReducedNone(s);
    while |buf| - k >= NMAX
      invariant 0 <= k <= |buf| && IsReduced(s) && s == Reduced(start, buf[..k])
    {
      ReducedJoin(start, buf[..k], buf[k..k + NMAX]);
      assert buf[..k] + buf[k..k + NMAX] == buf[..k + NMAX];
      s := SumBlock(s, buf[k..k + NMAX]);
      ReducedIsReduced(start, buf[..k + NMAX]);
      k := k + NMAX;
    }
    if k < |buf| {
      s := SumBlock(s, buf[k..]);
      ReducedJoin(start, buf[..k], buf[k..]);
      assert buf[..k] + buf[k..] == buf;
    } else {
      assert buf[..k] == buf;
    }
  }

  /** adler32_z, from any reduced start value: the definition, by whichever path. */
  method AdlerZ(adler: nat, buf: seq<byte>, ghost start: Sums) returns (r: nat)
    requires IsReduced(start) && adler == Join(start)
    ensures r == Join(Reduced(start, buf))
  {
    hide Plain, Reduced, Join;
    Unpack(start);
    var s := Sums(adler % 0x1_0000, adler / 0x1_0000 % 0x1_0000);
    if |buf| == 1 {
      OneByte(s, buf);
      var a := Subtract(s.s1 + buf[0]);
      s := Sums(a, Subtract(s.s2 + a));
    } else if |buf| < 16 {
      s := ShortBuffer(s, buf);
    } else {
      s := LongBuffer(s, buf);
    }
    r := Join(s);
  }

  lemma {:induction false} ReducedNone(s: Sums)
    ensures Reduced(s, []) == s
  {
  }

  lemma {:induction false} ReducedIsReduced(s: Sums, buf: seq<byte>)
    requires IsReduced(s)
    ensures IsReduced(Reduced(s, buf))
    decreases |buf|
  {
    if buf != [] { ReducedIsReduced(s, buf[..|buf| - 1]); }
  }

  lemma {:induction false} OneByte(s: Sums, buf: seq<byte>)
    requires IsReduced(s) && |buf| == 1
    ensures var a := Subtract(s.s1 + buf[0]); Reduced(s, buf) == Sums(a, Subtract(s.s2 + a))
  {
    assert buf[..0] == [];
    assert Reduced(s, buf[..0]) == s;
  }

  // ----- combining

  /** The first sum starts at 1; how a start value shifts both sums. */
  lemma {:induction false} PlainShift(s: Sums, buf: seq<byte>)
    ensures Plain(s, buf).s1 == s.s1 + Plain(Sums(0, 0), buf).s1
    ensures Plain(s, buf).s2 == s.s2 + |buf| * s.s1 + Plain(Sums(0, 0), buf).s2
    decreases |buf|
  {
    if buf != [] {
      var n := |buf| - 1;
      PlainShift(s, buf[..n]);
      assert (n + 1) * s.s1 == n * s.s1 + s.s1;
    }
  }

  const START := Sums(1, 0)

  /** adler32_combine_: the checksum of two pieces from their checksums and the length of the second. */
  method Combine(adler1: nat, adler2: nat, len2: nat, ghost a: seq<byte>, ghost b: seq<byte>) returns (r: nat)
    requires adler1 == Join(Reduced(START, a)) && adler2 == Join(Reduced(START, b)) && len2 == |b|
    ensures r == Join(Reduced(START, a + b))
  {
    hide Reduced, Plain, Join;
    ghost var x, y := Reduced(START, a), Reduced(START, b);
    ReducedIsReduced(START, a);
    ReducedIsReduced(START, b);
    Unpack(x);
    Unpack(y);
    var rem := len2 % BASE;
    var sum1 := adler1 % 0x1_0000;
    var sum2 := rem * sum1 % BASE;
    CombineRight(a, b, sum2);
    sum1 := sum1 + (adler2 % 0x1_0000 + BASE - 1);
    sum2 := sum2 + ((adler1 / 0x1_0000 % 0x1_0000) + (adler2 / 0x1_0000 % 0x1_0000) + BASE - rem);
    Steps(sum1);
    Steps(sum2);
    if sum1 >= BASE { sum1 := sum1 - BASE; }
    if sum1 >= BASE { sum1 := sum1 - BASE; }
    if sum2 >= 2 * BASE { sum2 := sum2 - 2 * BASE; }
    if sum2 >= BASE { sum2 := sum2 - BASE; }
    r := Join(Sums(sum1, sum2));
  }

  lemma Unpack(s: Sums)
    requires IsReduced(s)
    ensures Join(s) % 0x1_0000 == s.s1 && Join(s) / 0x1_0000 % 0x1_0000 == s.s2
  {
  }

  /** Subtractions are enough to reduce what has been added up. */
  lemma Steps(v: nat)
    ensures v < 3 * BASE ==> Subtract(Subtract(v)) == v % BASE
    ensures v < 4 * BASE ==> Subtract(if v >= 2 * BASE then v - 2 * BASE else v) == v % BASE
  {
  }

  /** The congruences behind the formula. */
  lemma CombineRight(a: seq<byte>, b: seq<byte>, product: nat)
    requires product == (|b| % BASE * Reduced(START, a).s1) % BASE
    ensures var x, y, z := Reduced(START, a), Reduced(START, b), Reduced(START, a + b);
            && (x.s1 + y.s1 + BASE - 1) % BASE == z.s1
            && (product + x.s2 + y.s2 + BASE - |b| % BASE) % BASE == z.s2
  {
    hide Reduced, Plain;
    var x, n := Reduced(START, a), |b|;
    var p := Plain(Sums(0, 0), b);
    ReducedJoin(START, a, b);
    ReducedIsReduced(START, a);
    PlainReduced(x, b);
    PlainShift(x, b);
    PlainReduced(START, b);
    PlainShift(START, b);
    assert Reduced(START, a + b) == Sums((x.s1 + p.s1) % BASE, (x.s2 + n * x.s1 + p.s2) % BASE);
    assert Reduced(START, b) == Sums((1 + p.s1) % BASE, (n + p.s2) % BASE);
    hide IsReduced;
    FirstSum(x.s1, p.s1);
    SecondSum(x.s1, x.s2, p.s2, n);
  }

  lemma FirstSum(u: nat, p: nat)
    ensures (u + (1 + p) % BASE + BASE - 1) % BASE == (u + p) % BASE
  {
  }

  lemma SecondSum(u: nat, v: nat, p: nat, n: nat)
    ensures ((n % BASE * u) % BASE + v + (n + p) % BASE + BASE - n % BASE) % BASE == (v + n * u + p) % BASE
  {
    var q, m := n / BASE, n % BASE;
    assert n * u == BASE * (q * u) + m * u;
    var w := m * u;
    var x := w % BASE + v + (n + p) % BASE + BASE - m;
    var y := v + n * u + p;
    // y - x is a multiple of BASE
    var k := q * u + w / BASE + (n + p) / BASE - 1 - q;
    assert y == x + BASE * k;
    Congruent(x, k);
  }

  lemma Congruent(x: nat, k: int)
    requires x + BASE * k >= 0
    ensures (x + BASE * k) % BASE == x % BASE
  {
  }
}
