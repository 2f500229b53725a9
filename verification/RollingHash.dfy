/** UPDATE_HASH of deps/zlib/deflate.c: the running key of the last three bytes. Shifting by `shift` three times
    moves a byte out of the key altogether, so that the key depends on three bytes only, and two of them with
    the key determine the third. */
module RollingHash {
  import opened Counting
  import opened Powers

  /** Bitwise exclusive or. */
  function Xor(x: nat, y: nat): nat {
    if x == 0 && y == 0 then 0
    else 2 * Xor(x / 2, y / 2) + (if x % 2 == y % 2 then 0 else 1)
  }

  /** The hash parameters: three shifts push a byte out of the key, and a byte fits in a key. */
  datatype HashSize = HashSize(bits: nat, shift: nat)

  ghost predicate Proper(z: HashSize) {
    8 <= z.bits <= 3 * z.shift && z.shift <= z.bits
  }

  /** UPDATE_HASH */
  function Update(z: HashSize, h: nat, c: byte): (r: nat)
    ensures r < Pow2(z.bits)
  {
    Low(Xor(Shifted(h, z.shift), c), z.bits)
  }

  function Hash3(z: HashSize, a: byte, b: byte, c: byte): (r: nat)
    ensures r < Pow2(z.bits)
  {
    Update(z, Update(z, Update(z, 0, a), b), c)
  }

  /** The low `m` bits. */
  function Low(v: nat, m: nat): (r: nat)
    ensures r < Pow2(m)
  {
    v % Pow2(m)
  }

  lemma ModPow(v: nat, m: nat)
    requires m > 0
    ensures Low(v, m) == 2 * Low(v / 2, m - 1) + v % 2
  {
    var p := Pow2(m - 1);
    var q, r := v / 2 / p, v / 2 % p;
    assert v == 2 * (q * p + r) + v % 2;
    assert 2 * (q * p) == q * (2 * p);
    DivUnique(v, 2 * p, q, 2 * r + v % 2);
  }

  /** The low bits of an exclusive or depend on the low bits only. */
  lemma {:induction false} XorMod(x: nat, y: nat, m: nat)
    ensures Low(Xor(x, y), m) == Low(Xor(Low(x, m), Low(y, m)), m)
    decreases m
  {
    hide Low, Xor;
    if m == 0 {
      LowNone(Xor(x, y));
      LowNone(Xor(Low(x, 0), Low(y, 0)));
    } else {
      ModPow(x, m);
      ModPow(y, m);
      var x', y' := Low(x, m), Low(y, m);
      XorHalf(x, y);
      XorHalf(x', y');
      XorMod(x / 2, y / 2, m - 1);
      ModPow(Xor(x, y), m);
      ModPow(Xor(x', y'), m);
    }
  }

  lemma LowNone(x: nat)
    ensures Low(x, 0) == 0
  {
  }

  lemma {:induction false} XorHalf(x: nat, y: nat)
    ensures Xor(x, y) / 2 == Xor(x / 2, y / 2) && Xor(x, y) % 2 == if x % 2 == y % 2 then 0 else 1
  {
    if x == 0 && y == 0 { assert Xor(0, 0) == 0; }
  }

  /** From the result of an exclusive or and one operand, the other one follows. */
  lemma {:induction false} XorCancel(x: nat, y: nat, y': nat, m: nat)
    requires Low(Xor(x, y), m) == Low(Xor(x, y'), m) && y < Pow2(m) && y' < Pow2(m)
    ensures y == y'
    decreases m
  {
    hide Low, Xor;
    if m > 0 {
      ModPow(Xor(x, y), m);
      ModPow(Xor(x, y'), m);
      XorHalf(x, y);
      XorHalf(x, y');
      XorCancel(x / 2, y / 2, y' / 2, m - 1);
    }
  }

  lemma {:induction false} XorZero(x: nat)
    ensures Xor(0, x) == x
  {
    if x > 0 { XorZero(x / 2); }
  }

  /** `h << s` */
  function Shifted(h: nat, s: nat): nat { h * Pow2(s) }

  /** Shifting by `s` leaves only the low `m - s` bits in the low `m`. */
  lemma {:induction false} ShiftMod(h: nat, h': nat, s: nat, m: nat)
    requires m >= s ==> Low(h, m - s) == Low(h', m - s)
    ensures Low(Shifted(h, s), m) == Low(Shifted(h', s), m)
    decreases s
  {
    hide Low, Shifted;
    if s == 0 {
      ShiftNone(h);
      ShiftNone(h');
    } else if m == 0 {
      LowNone(Shifted(h, s));
      LowNone(Shifted(h', s));
    } else {
      ShiftOne(h, s);
      ShiftOne(h', s);
      ModPow(Shifted(h, s), m);
      ModPow(Shifted(h', s), m);
      ShiftMod(h, h', s - 1, m - 1);
    }
  }

  lemma ShiftNone(h: nat)
    ensures Shifted(h, 0) == h
  {
  }

  lemma ShiftOne(h: nat, s: nat)
    requires s > 0
    ensures Shifted(h, s) == 2 * Shifted(h, s - 1)
  {
    assert h * (2 * Pow2(s - 1)) == 2 * (h * Pow2(s - 1));
  }

  lemma {:induction false} ModLower(x: nat, y: nat, m: nat, n: nat)
    requires m <= n && Low(x, n) == Low(y, n)
    ensures Low(x, m) == Low(y, m)
    decreases n
  {
    hide Low;
    if m == 0 {
      LowNone(x);
      LowNone(y);
    } else if m < n {
      ModPow(x, n);
      ModPow(y, n);
      ModPow(x, m);
      ModPow(y, m);
      ModLower(x / 2, y / 2, m - 1, n - 1);
    }
  }

  lemma ModTwice(x: nat, m: nat, n: nat)
    requires m <= n
    ensures Low(Low(x, n), m) == Low(x, m)
  {
    hide Low;
    Small(Low(x, n), n);
    ModLower(Low(x, n), x, m, n);
  }

  /** One update forgets the oldest `shift` bits. */
  lemma UpdateForgets(z: HashSize, h: nat, h': nat, c: byte, m: nat)
    requires m <= z.bits && (m >= z.shift ==> Low(h, m - z.shift) == Low(h', m - z.shift))
    ensures Low(Update(z, h, c), m) == Low(Update(z, h', c), m)
  {
    hide Xor, Low, Shifted;
    ShiftMod(h, h', z.shift, m);
    var x, x' := Shifted(h, z.shift), Shifted(h', z.shift);
    XorMod(x, c, m);
    XorMod(x', c, m);
    ModTwice(Xor(x, c), m, z.bits);
    ModTwice(Xor(x', c), m, z.bits);
  }

  /** After three updates the key is a function of the last three bytes. */
  lemma ThreeBytes(z: HashSize, h: nat, a: byte, b: byte, c: byte)
    requires Proper(z)
    ensures Update(z, Update(z, Update(z, h, a), b), c) == Hash3(z, a, b, c)
  {
    hide Update, Low;
    var k, s := z.bits, z.shift;
    if k >= s {
      if k - s >= s {
        if k - 2 * s >= s {
          LowNone(h);
          LowNone(0);
        }
        UpdateForgets(z, h, 0, a, k - 2 * s);
      }
      UpdateForgets(z, Update(z, h, a), Update(z, 0, a), b, k - s);
    }
    UpdateForgets(z, Update(z, Update(z, h, a), b), Update(z, Update(z, 0, a), b), c, k);
    Small(Update(z, Update(z, Update(z, h, a), b), c), k);
    Small(Hash3(z, a, b, c), k);
  }

  lemma Small(x: nat, k: nat)
    requires x < Pow2(k)
    ensures Low(x, k) == x
  {
    DivUnique(x, Pow2(k), 0, x);
  }

  /** Equal keys and two equal bytes make the third byte equal. */
  lemma ThirdByte(z: HashSize, a: byte, b: byte, c: byte, c': byte)
    requires Proper(z) && Hash3(z, a, b, c) == Hash3(z, a, b, c')
    ensures c == c'
  {
    hide Xor, Shifted, Low;
    var h := Update(z, Update(z, 0, a), b);
    Pow2Mono(8, z.bits);
    assert Pow2(8) == 256;
    XorCancel(Shifted(h, z.shift), c, c', z.bits);
  }

  /** The key is ready for a string that starts with `a` and `b`: one more update completes it. */
  ghost predicate Primed(z: HashSize, h: nat, a: byte, b: byte) {
    forall c: byte :: Update(z, h, c) == Hash3(z, a, b, c)
  }

  lemma PrimedStep(z: HashSize, h: nat, a: byte, b: byte, c: byte)
    requires Proper(z) && Primed(z, h, a, b)
    ensures Primed(z, Update(z, h, c), b, c)
  {
    forall d: byte ensures Update(z, Update(z, h, c), d) == Hash3(z, b, c, d) {
      ThreeBytes(z, Update(z, 0, a), b, c, d);
    }
  }

  /** Starting over from the first byte itself. */
  lemma PrimedFresh(z: HashSize, a: byte, b: byte)
    requires Proper(z)
    ensures Primed(z, Update(z, a, b), a, b)
  {
    Pow2Mono(8, z.bits);
    assert Pow2(8) == 256;
    XorZero(a);
    Small(a, z.bits);
    ShiftZero(z.shift);
    assert Update(z, 0, a) == a;
  }

  lemma ShiftZero(s: nat)
    ensures Shifted(0, s) == 0
  {
  }
}
