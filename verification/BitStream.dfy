/** The 32-bit bit buffers of deps/bzip2/compress.c (bsW, bsNEEDW, bsFinishWrite) and of
    deps/bzip2/decompress.c (GET_BITS), over plain sequences of bits. */
module BitStream {
  import opened Counting
  import opened Powers

  type Bits = seq<bool>

  function Bit(b: bool): nat { if b then 1 else 0 }

  /** The number a bit sequence spells, most significant bit first. */
  function Val(b: Bits): nat {
    if b == [] then 0 else 2 * Val(b[..|b| - 1]) + Bit(b[|b| - 1])
  }

  /** The low `n` bits of `v`, most significant bit first. */
  function BitsOf(v: nat, n: nat): (b: Bits)
    ensures |b| == n
  {
    if n == 0 then [] else BitsOf(v / 2, n - 1) + [v % 2 == 1]
  }

  /** The stream a sequence of bytes stands for. */
  function ByteBits(s: seq<byte>): (b: Bits)
    ensures |b| == 8 * |s|
  {
    if s == [] then [] else ByteBits(s[..|s| - 1]) + BitsOf(s[|s| - 1], 8)
  }

  /** Bitwise or. */
  function Or(x: nat, y: nat): nat {
    if x == 0 && y == 0 then 0
    else 2 * Or(x / 2, y / 2) + Bit(x % 2 == 1 || y % 2 == 1)
  }

  /** Logical shift right. */
  function Shr(v: nat, n: nat): nat {
    QuotientNat(v, Pow2(n));
    v / Pow2(n)
  }

  lemma QuotientNat(v: nat, d: nat)
    requires d > 0
    ensures v / d >= 0
  {
  }

  lemma {:induction false} ValBitsOf(v: nat, n: nat)
    requires v < Pow2(n)
    ensures Val(BitsOf(v, n)) == v
  {
    if n > 0 {
      ValBitsOf(v / 2, n - 1);
      assert BitsOf(v, n)[..n - 1] == BitsOf(v / 2, n - 1);
    }
  }

  lemma {:induction false} BitsOfVal(b: Bits)
    ensures Val(b) < Pow2(|b|) && BitsOf(Val(b), |b|) == b
  {
    if b != [] {
      BitsOfVal(b[..|b| - 1]);
      assert Val(b) / 2 == Val(b[..|b| - 1]);
      assert b[..|b| - 1] + [b[|b| - 1]] == b;
    }
  }

  /** The low end of a bit string. */
  lemma {:induction false} BitsLow(v: nat, k: nat, n: nat)
    ensures BitsOf(v, k + n)[k..] == BitsOf(v, n)
    decreases n
  {
    if n > 0 {
      BitsLow(v / 2, k, n - 1);
      assert BitsOf(v, k + n)[k..] == BitsOf(v / 2, k + n - 1)[k..] + [v % 2 == 1];
    }
  }

  lemma DivPow(v: nat, n: nat)
    requires n > 0
    ensures Shr(v, n) == Shr(v / 2, n - 1)
  {
    var p := Pow2(n - 1);
    var q, r := v / 2 / p, v / 2 % p;
    assert v == 2 * (q * p + r) + v % 2;
    assert 2 * (q * p) == q * (2 * p);
    assert 0 <= 2 * r + v % 2 < 2 * p;
    DivUnique(v, 2 * p, q, 2 * r + v % 2);
  }

  /** The high end of a bit string. */
  lemma {:induction false} BitsHigh(v: nat, k: nat, n: nat)
    ensures BitsOf(v, k + n)[..k] == BitsOf(Shr(v, n), k)
    decreases n
  {
    if n == 0 {
      assert BitsOf(v, k)[..k] == BitsOf(v, k);
    } else {
      BitsHigh(v / 2, k, n - 1);
      DivPow(v, n);
      assert BitsOf(v, k + n)[..k] == BitsOf(v / 2, k + n - 1)[..k];
    }
  }

  lemma BitsSplit(v: nat, k: nat, n: nat)
    ensures BitsOf(v, k + n) == BitsOf(Shr(v, n), k) + BitsOf(v, n)
  {
    hide BitsOf, Shr;
    BitsHigh(v, k, n);
    BitsLow(v, k, n);
    assert BitsOf(v, k + n) == BitsOf(v, k + n)[..k] + BitsOf(v, k + n)[k..];
  }

  /** Only the low bits matter. */
  lemma {:induction false} BitsMod(v: nat, m: nat, n: nat)
    requires n <= m
    ensures v % Pow2(m) >= 0 && BitsOf(v % Pow2(m), n) == BitsOf(v, n)
    decreases n
  {
    if n > 0 {
      ModHalf(v, m);
      BitsMod(v / 2, m - 1, n - 1);
    }
  }

  lemma ModHalf(v: nat, m: nat)
    requires m > 0
    ensures (v % Pow2(m)) / 2 == (v / 2) % Pow2(m - 1) && (v % Pow2(m)) % 2 == v % 2
  {
    var p := Pow2(m - 1);
    var q, r := v / 2 / p, v / 2 % p;
    assert v == 2 * (q * p + r) + v % 2;
    assert 2 * (q * p) == q * (2 * p);
    DivUnique(v, 2 * p, q, 2 * r + v % 2);
  }

  /** Two values side by side. */
  lemma BitsJoin(x: nat, y: nat, k: nat, n: nat)
    requires y < Pow2(n)
    ensures x * Pow2(n) + y >= 0 && BitsOf(x * Pow2(n) + y, k + n) == BitsOf(x, k) + BitsOf(y, n)
  {
    assert x * Pow2(n) >= 0;
    var v := x * Pow2(n) + y;
    DivUnique(v, Pow2(n), x, y);
    BitsSplit(v, k, n);
    BitsMod(v, n, n);
  }

  /** Or is addition where the operands do not overlap. */
  lemma {:induction false} OrDisjoint(x: nat, y: nat, n: nat)
    requires y < Pow2(n)
    ensures x * Pow2(n) >= 0 && Or(x * Pow2(n), y) == x * Pow2(n) + y
    decreases n
  {
    hide Or;
    if n == 0 {
      assert x * Pow2(0) == x;
      OrZero(x);
    } else {
      OrDisjoint(x, y / 2, n - 1);
      DoubledPower(x, n);
      OrStep(x * Pow2(n - 1), y);
    }
  }

  lemma DoubledPower(x: nat, n: nat)
    requires n > 0
    ensures 0 <= x * Pow2(n - 1) && x * Pow2(n) == 2 * (x * Pow2(n - 1))
  {
    var p := Pow2(n - 1);
    assert Pow2(n) == 2 * p;
    assert x * (2 * p) == 2 * (x * p);
  }

  /** The lowest bit comes from the second operand. */
  lemma OrStep(z: nat, y: nat)
    ensures Or(2 * z, y) == 2 * Or(z, y / 2) + y % 2
  {
    if z == 0 && y == 0 {
      OrZero(0);
    }
  }

  lemma {:induction false} OrZero(x: nat)
    ensures Or(x, 0) == x
  {
    if x > 0 { OrZero(x / 2); }
  }

  // ----- the writer

  function Zeros(n: nat): (b: Bits)
    ensures |b| == n
  {
    seq(n, i => false)
  }

  lemma {:induction false} BitsOfZero(n: nat)
    ensures BitsOf(0, n) == Zeros(n) && Val(Zeros(n)) == 0
  {
    if n > 0 {
      BitsOfZero(n - 1);
      assert Zeros(n)[..n - 1] == Zeros(n - 1);
      assert Zeros(n) == Zeros(n - 1) + [false];
    }
  }

  /** A buffer whose low `m` bits are clear is a multiple of 2^m. */
  lemma LowClear(v: nat, m: nat)
    requires BitsOf(v, m) == Zeros(m)
    ensures v == Shr(v, m) * Pow2(m)
  {
    hide BitsOf, Val, Zeros;
    var r := v % Pow2(m);
    BitsMod(v, m, m);
    BitsOfZero(m);
    ValBitsOf(r, m);
    Divide(v, Pow2(m));
  }

  /** `v << m`. */
  function Shl(v: nat, m: nat): nat { v * Pow2(m) }

  lemma ShlBelow(v: nat, n: nat, m: nat)
    requires v < Pow2(n)
    ensures Shl(v, m) < Pow2(n + m)
  {
    Pow2Add(n, m);
    ProductBelow(v, Pow2(n), Pow2(m));
  }

  /** Putting `n` bits into a buffer that holds `live`. */
  lemma Appended(buff: nat, live: nat, v: nat, n: nat)
    requires live + n <= 32 && buff < Pow2(32) && v < Pow2(n)
    requires BitsOf(buff, 32)[live..] == Zeros(32 - live)
    ensures BitsOf(Or(buff, Shl(v, 32 - live - n)), 32)
         == BitsOf(buff, 32)[..live] + BitsOf(v, n) + Zeros(32 - live - n)
    ensures Or(buff, Shl(v, 32 - live - n)) < Pow2(32)
  {
    hide BitsOf, Or, Zeros, Pow2;
    var m, k := 32 - live, 32 - live - n;
    var x := Shr(buff, m);
    BitsLow(buff, live, m);
    BitsHigh(buff, live, m);
    LowClear(buff, m);
    ShlBelow(v, n, k);
    OrDisjoint(x, Shl(v, k), m);
    BitsJoin(x, Shl(v, k), live, m);
    BitsJoin(v, 0, n, k);
    BitsOfZero(k);
    assert BitsOf(Shl(v, k), m) == BitsOf(v, n) + Zeros(k);
    ShrBelow(buff, live, m);
    JoinBelow(x, Shl(v, k), live, m);
  }

  lemma ShrBelow(v: nat, k: nat, m: nat)
    requires v < Pow2(k + m)
    ensures Shr(v, m) < Pow2(k)
  {
    Pow2Add(k, m);
    Divide(v, Pow2(m));
    if v / Pow2(m) >= Pow2(k) {
      ProductMono(Pow2(k), v / Pow2(m), Pow2(m));
    }
  }

  lemma JoinBelow(x: nat, y: nat, k: nat, m: nat)
    requires x < Pow2(k) && y < Pow2(m)
    ensures x * Pow2(m) + y < Pow2(k + m)
  {
    Pow2Add(k, m);
    ProductMono(x, Pow2(k) - 1, Pow2(m));
  }

  const WORD: nat := 0x1_0000_0000

  lemma WordIsPow()
    ensures Pow2(32) == WORD && Pow2(24) == 0x100_0000 && Pow2(8) == 256
  {
    assert Pow2(8) == 256;
    Pow2Add(8, 8);
    Pow2Add(16, 8);
    Pow2Add(24, 8);
  }

  /** Shifting eight bits out at the top. */
  lemma ShiftedOut(buff: nat)
    requires buff < WORD
    ensures 0 <= buff / 0x100_0000 < 256
    ensures BitsOf(buff, 32) == BitsOf(buff / 0x100_0000, 8) + BitsOf(buff, 24)
    ensures BitsOf(buff * 256 % WORD, 32) == BitsOf(buff, 24) + Zeros(8)
  {
    hide BitsOf, Zeros, Pow2;
    WordIsPow();
    BitsSplit(buff, 8, 24);
    BitsJoin(buff, 0, 24, 8);
    BitsOfZero(8);
    BitsMod(buff * 256, 32, 32);
  }

  /** The bytes hold these bits, the last byte filled up with zeros. */
  ghost predicate PaddedTo(s: seq<byte>, b: Bits, pad: nat) {
    pad < 8 && ByteBits(s) == b + Zeros(pad)
  }

  class BitWriter {
    var zbits: seq<byte>
    var bsBuff: nat
    var bsLive: int

    ghost predicate Valid()
      reads this
    {
      && 0 <= bsLive <= 32 && bsBuff < WORD
      && BitsOf(bsBuff, 32)[bsLive..] == Zeros(32 - bsLive)
    }

    /** Everything written so far, the bits still in the buffer included. */
    ghost function Contents(): Bits
      requires Valid()
      reads this
    {
      ByteBits(zbits) + BitsOf(bsBuff, 32)[..bsLive]
    }

    /** The bits still in the buffer. */
    ghost function Live(): (b: Bits)
      requires Valid()
      reads this
      ensures |b| <= 32 && Contents() == ByteBits(zbits) + b
    {
      BitsOf(bsBuff, 32)[..bsLive]
    }

    /** BZ2_bsInitWrite. */
    constructor ()
      ensures Valid() && Contents() == [] && zbits == []
    {
      zbits, bsBuff, bsLive := [], 0, 0;
      new;
      BitsOfZero(32);
    }

    /** bsNEEDW. */
    method FlushBytes()
      requires Valid()
      modifies this
      ensures Valid() && bsLive < 8 && Contents() == old(Contents())
    {
      hide BitsOf, Zeros;
      while bsLive >= 8
        invariant Valid() && Contents() == old(Contents())
        decreases bsLive
      {
        ghost var b, z := BitsOf(bsBuff, 32), zbits;
        ShiftedOut(bsBuff);
        zbits := zbits + [bsBuff / 0x100_0000];
        ByteBitsPush(z, bsBuff / 0x100_0000);
        bsBuff := bsBuff * 256 % WORD;
        bsLive := bsLive - 8;
        ZerosJoin(32 - bsLive - 8, 8);
        ghost var c := BitsOf(bsBuff, 32);
        assert c == b[8..] + Zeros(8);
        assert c[bsLive..] == b[bsLive + 8..] + Zeros(8);
        assert b[..bsLive + 8] == b[..8] + c[..bsLive];
        assert ByteBits(z) + b[..bsLive + 8] == ByteBits(zbits) + c[..bsLive];
      }
    }

    /** bsW: `n` bits of `v`. */
    method Put(n: nat, v: nat)
      requires Valid() && n <= 24 && v < Pow2(n)
      modifies this
      ensures Valid() && Contents() == old(Contents()) + BitsOf(v, n)
    {
      hide BitsOf, Zeros, Or, Shl;
      FlushBytes();
      WordIsPow();
      Appended(bsBuff, bsLive, v, n);
      ghost var b := BitsOf(bsBuff, 32);
      bsBuff := Or(bsBuff, Shl(v, 32 - bsLive - n));
      bsLive := bsLive + n;
      ghost var c := BitsOf(bsBuff, 32);
      assert c == b[..bsLive - n] + BitsOf(v, n) + Zeros(32 - bsLive);
      assert c[..bsLive] == b[..bsLive - n] + BitsOf(v, n);
      assert c[bsLive..] == Zeros(32 - bsLive);
    }

    /** bsFinishWrite: the rest of the buffer goes out, padded to whole bytes. */
    method Finish()
      requires Valid()
      modifies this
      ensures exists pad: nat :: PaddedTo(zbits, old(Contents()), pad)
    {
      hide BitsOf, Zeros;
      FlushBytes();
      ghost var c, pad := Contents(), 0;
      assert c == old(Contents());
      if bsLive > 0 {
        ghost var b, z := BitsOf(bsBuff, 32), zbits;
        ShiftedOut(bsBuff);
        zbits := zbits + [bsBuff / 0x100_0000];
        ByteBitsPush(z, bsBuff / 0x100_0000);
        ZerosPart(32 - bsLive, 8 - bsLive);
        assert b[..8] == b[..bsLive] + b[bsLive..][..8 - bsLive];
        pad := 8 - bsLive;
        assert ByteBits(zbits) == c + Zeros(pad);
        bsBuff := bsBuff * 256 % WORD;
        bsLive := bsLive - 8;
      } else {
        ZerosPart(0, 0);
        assert Zeros(0) == [];
        assert ByteBits(zbits) == c + Zeros(0);
      }
      assert PaddedTo(zbits, old(Contents()), pad);
    }
  }

  lemma {:induction false} ByteBitsPush(s: seq<byte>, x: byte)
    ensures ByteBits(s + [x]) == ByteBits(s) + BitsOf(x, 8)
  {
    assert (s + [x])[..|s|] == s;
  }

  lemma ZerosJoin(m: nat, n: nat)
    ensures Zeros(m) + Zeros(n) == Zeros(m + n)
  {
  }

  lemma ZerosPart(m: nat, n: nat)
    requires n <= m
    ensures Zeros(m)[..n] == Zeros(n)
  {
  }

  // ----- bytes that are out stay out

  lemma {:induction false} SameBytes(s: seq<byte>, t: seq<byte>)
    requires |s| == |t| && ByteBits(s) == ByteBits(t)
    ensures s == t
    decreases |s|
  {
    hide BitsOf;
    if s != [] {
      var q, x, q', x' := s[..|s| - 1], s[|s| - 1], t[..|t| - 1], t[|t| - 1];
      assert s == q + [x] && t == q' + [x'];
      assert ByteBits(s)[..8 * |q|] == ByteBits(q) && ByteBits(t)[..8 * |q|] == ByteBits(q');
      assert ByteBits(s)[8 * |q|..] == BitsOf(x, 8) && ByteBits(t)[8 * |q|..] == BitsOf(x', 8);
      SameBytes(q, q');
      WordIsPow();
      ValBitsOf(x, 8);
      ValBitsOf(x', 8);
    }
  }

  /** When bits are only appended, and enough of them to fill the buffer, the bytes already out are still the first
      ones. */
  lemma BytesKept(s: seq<byte>, live: Bits, more: Bits, t: seq<byte>, live': Bits)
    requires ByteBits(t) + live' == ByteBits(s) + live + more && |live'| <= 32 && |more| >= 25
    ensures s <= t
  {
    hide ByteBits;
    assert 8 * |t| + |live'| == 8 * |s| + |live| + |more|;
    assert |t| >= |s|;
    var q := t[..|s|];
    ByteBitsJoin(q, t[|s|..]);
    assert t == q + t[|s|..];
    assert ByteBits(q) == (ByteBits(t) + live')[..8 * |s|];
    assert ByteBits(s) == (ByteBits(s) + live + more)[..8 * |s|];
    SameBytes(q, s);
  }

  /** If nothing stays in the buffer, more bytes are out. */
  lemma BytesMore(s: seq<byte>, live: Bits, more: Bits, t: seq<byte>)
    requires ByteBits(t) == ByteBits(s) + live + more && |more| >= 1
    ensures |s| < |t|
  {
    hide ByteBits;
    assert 8 * |t| == 8 * |s| + |live| + |more|;
  }

  // ----- the reader

  lemma {:induction false} ByteBitsPop(s: seq<byte>)
    requires s != []
    ensures ByteBits(s) == BitsOf(s[0], 8) + ByteBits(s[1..])
  {
    hide ByteBits, BitsOf;
    assert [s[0]] == [] + [s[0]] && s == [s[0]] + s[1..];
    ByteBitsPush([], s[0]);
    EmptyBits();
    ByteBitsJoin([s[0]], s[1..]);
    assert [] + BitsOf(s[0], 8) == BitsOf(s[0], 8);
  }

  /** Shifting a byte in at the bottom; what falls off the top was not live. */
  lemma ShiftedIn(buff: nat, live: nat, x: byte)
    requires live + 8 <= 32
    ensures Or(buff * 256 % WORD, x) < WORD
    ensures BitsOf(Or(buff * 256 % WORD, x), live + 8) == BitsOf(buff, live) + BitsOf(x, 8)
  {
    hide BitsOf, Or, Pow2;
    WordIsPow();
    var y := buff % 0x100_0000;
    assert buff * 256 % WORD == y * 256;
    OrDisjoint(y, x, 8);
    BitsJoin(y, x, live, 8);
    BitsMod(buff, 24, live);
  }

  /** Taking `n` bits off the top of the live ones. */
  lemma TakenOff(buff: nat, live: nat, n: nat)
    requires n <= live
    ensures BitsOf(buff, live) == BitsOf(Shr(buff, live - n) % Pow2(n), n) + BitsOf(buff, live - n)
  {
    hide BitsOf, Shr;
    BitsSplit(buff, n, live - n);
    BitsMod(Shr(buff, live - n), n, n);
  }

  class BitReader {
    var input: seq<byte>
    var bsBuff: nat
    var bsLive: nat

    ghost predicate Valid()
      reads this
    {
      bsLive < 32 && bsBuff < WORD
    }

    /** The bits not consumed yet. */
    ghost function Rest(): Bits
      reads this
    {
      BitsOf(bsBuff, bsLive) + ByteBits(input)
    }

    constructor (s: seq<byte>)
      ensures Valid() && Rest() == ByteBits(s)
    {
      input, bsBuff, bsLive := s, 0, 0;
    }

    /** More input arrives. */
    method Feed(s: seq<byte>)
      requires Valid()
      modifies this
      ensures Valid() && Rest() == old(Rest()) + ByteBits(s)
    {
      ByteBitsJoin(input, s);
      input := input + s;
    }

    /** GET_BITS. When the input runs out first, nothing is consumed: the call can be repeated
        once more input is there. */
    method Get(n: nat) returns (ok: bool, v: nat)
      requires Valid() && n <= 24
      modifies this
      ensures Valid()
      ensures ok <==> n <= |old(Rest())|
      ensures ok ==> v < Pow2(n) && BitsOf(v, n) == old(Rest())[..n] && Rest() == old(Rest())[n..]
      ensures !ok ==> Rest() == old(Rest())
    {
      hide BitsOf, ByteBits, Or, Shr, Pow2;
      ghost var rest := Rest();
      while bsLive < n
        invariant Valid() && Rest() == rest
        decreases |input|
      {
        if input == [] {
          EmptyBits();
          return false, 0;
        }
        ShiftedIn(bsBuff, bsLive, input[0]);
        ByteBitsPop(input);
        bsBuff := Or(bsBuff * 256 % WORD, input[0]);
        bsLive := bsLive + 8;
        input := input[1..];
      }
      TakenOff(bsBuff, bsLive, n);
      v := Shr(bsBuff, bsLive - n) % Pow2(n);
      bsLive := bsLive - n;
      ok := true;
      assert rest == BitsOf(v, n) + Rest();
    }
  }

  lemma EmptyBits()
    ensures ByteBits([]) == []
  {
  }

  lemma {:induction false} ByteBitsJoin(s: seq<byte>, t: seq<byte>)
    ensures ByteBits(s + t) == ByteBits(s) + ByteBits(t)
    decreases |t|
  {
    hide ByteBits, BitsOf;
    if t == [] {
      EmptyBits();
      assert s + t == s;
    } else {
      var q, x := t[..|t| - 1], t[|t| - 1];
      assert t == q + [x] && s + t == (s + q) + [x];
      ByteBitsJoin(s, q);
      ByteBitsPush(q, x);
      ByteBitsPush(s + q, x);
    }
  }
}
