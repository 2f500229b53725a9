/** Canonical codes of deps/bzip2/huffman.c: BZ2_hbAssignCodes hands them out,
    BZ2_hbCreateDecodeTables prepares the limit/base/perm tables that read them back. */
module HuffmanCodes {
  import opened BitStream
  import opened Counting
  import opened HuffmanLengths
  import opened Powers

  const MAX_CODE_LEN := 23

  /** The smallest code of length `n`, when the shortest codes have length `lo`. */
  ghost function First(len: seq<int>, lo: int, n: int): nat
    decreases n - lo
  {
    if n <= lo then 0 else 2 * (First(len, lo, n - 1) + Count(len, n - 1, |len|))
  }

  /** The code of symbol `i`: the first of its length, plus its rank among the symbols of that length. */
  ghost function CodeOf(len: seq<int>, lo: int, i: int): nat
    requires 0 <= i < |len|
  {
    First(len, lo, len[i]) + Count(len, len[i], i)
  }

  /** All lengths lie between `lo` and `hi`. */
  ghost predicate LengthsIn(len: seq<int>, lo: int, hi: int) {
    forall i :: 0 <= i < |len| ==> lo <= len[i] <= hi
  }

  // ----- assigning codes

  /** BZ2_hbAssignCodes. */
  method AssignCodes(code: array<int>, length: seq<int>, minLen: int, maxLen: int, alphaSize: nat)
    requires |length| == alphaSize <= code.Length && LengthsIn(length, minLen, maxLen)
    modifies code
    ensures forall i :: 0 <= i < alphaSize ==> code[i] == CodeOf(length, minLen, i)
  {
    var vec := 0;
    var n := minLen;
    while n <= maxLen
      invariant minLen <= n && (n <= maxLen + 1 || n == minLen)
      invariant vec == First(length, minLen, n)
      invariant forall i :: 0 <= i < alphaSize && length[i] < n ==> code[i] == CodeOf(length, minLen, i)
    {
      var i := 0;
      while i < alphaSize
        invariant 0 <= i <= alphaSize
        invariant vec == First(length, minLen, n) + Count(length, n, i)
        invariant forall k :: 0 <= k < alphaSize && length[k] < n ==> code[k] == CodeOf(length, minLen, k)
        invariant forall k :: 0 <= k < i && length[k] == n ==> code[k] == CodeOf(length, minLen, k)
      {
        if length[i] == n {
          code[i] := vec;
          vec := vec + 1;
        }
        i := i + 1;
      }
      vec := vec * 2;
      n := n + 1;
    }
  }

  // ----- codes fit their lengths and are prefix-free

  /** How much of the code space of `n`-bit words the codes of at most `n` bits take. */
  ghost function Taken(len: seq<int>, k: nat, n: nat): nat
    requires k <= |len| && forall i :: 0 <= i < k ==> len[i] >= 0
  {
    if k == 0 then 0 else Taken(len, k - 1, n) + (if len[k - 1] <= n then Pow2(n - len[k - 1]) else 0)
  }

  lemma {:induction false} TakenStep(len: seq<int>, k: nat, n: nat)
    requires k <= |len| && forall i :: 0 <= i < k ==> len[i] >= 0
    ensures Taken(len, k, n + 1) == 2 * Taken(len, k, n) + Count(len, n + 1, k)
  {
    if k > 0 { TakenStep(len, k - 1, n); }
  }

  lemma {:induction false} TakenNone(len: seq<int>, k: nat, n: nat)
    requires k <= |len| && forall i :: 0 <= i < k ==> len[i] >= n
    ensures Taken(len, k, n) == Count(len, n, k)
  {
    if k > 0 { TakenNone(len, k - 1, n); }
  }

  lemma {:induction false} FirstIsTaken(len: seq<int>, lo: nat, n: nat)
    requires lo <= n && forall i :: 0 <= i < |len| ==> len[i] >= lo
    ensures First(len, lo, n) + Count(len, n, |len|) == Taken(len, |len|, n)
    decreases n
  {
    if n == lo {
      TakenNone(len, |len|, n);
    } else {
      FirstIsTaken(len, lo, n - 1);
      TakenStep(len, |len|, n - 1);
    }
  }

  lemma {:induction false} TakenIsKraft(len: seq<int>, k: nat, m: nat)
    requires k <= |len| && forall i :: 0 <= i < k ==> 0 <= len[i] <= m
    ensures Taken(len, k, m) == Kraft(len, k, m)
  {
    if k > 0 { TakenIsKraft(len, k - 1, m); }
  }

  lemma {:induction false} TakenGrows(len: seq<int>, n: nat, m: nat)
    requires n <= m && forall i :: 0 <= i < |len| ==> len[i] >= 0
    ensures Taken(len, |len|, n) * Pow2(m - n) <= Taken(len, |len|, m)
    decreases m
  {
    hide Taken;
    if n < m {
      TakenGrows(len, n, m - 1);
      TakenStep(len, |len|, m - 1);
      TwiceProduct(Taken(len, |len|, n), Pow2(m - 1 - n));
    }
  }

  /** With a complete set of lengths, every length leaves room for all its codes. */
  lemma RoomAtLevel(len: seq<int>, lo: nat, n: nat, m: nat)
    requires Complete(len, |len|, m) && lo <= n <= m && forall i :: 0 <= i < |len| ==> len[i] >= lo
    ensures First(len, lo, n) + Count(len, n, |len|) <= Pow2(n)
  {
    hide Taken, First, Count, Kraft, Pow2;
    FirstIsTaken(len, lo, n);
    TakenGrows(len, n, m);
    TakenIsKraft(len, |len|, m);
    Pow2Add(n, m - n);
    if Taken(len, |len|, n) > Pow2(n) {
      ProductBelow(Pow2(n), Taken(len, |len|, n), Pow2(m - n));
    }
  }

  /** A code fits in its length. */
  lemma CodeFits(len: seq<int>, lo: nat, i: nat, m: nat)
    requires Complete(len, |len|, m) && i < |len| && LengthsIn(len, lo, m)
    ensures CodeOf(len, lo, i) < Pow2(len[i])
  {
    RoomAtLevel(len, lo, len[i], m);
    CountStrict(len, i, |len|);
  }

  /** Codes of length `l` start above everything that begins with a code of length `n`. */
  lemma {:induction false} LevelsApart(len: seq<int>, lo: nat, n: nat, l: nat)
    requires lo <= n < l
    ensures First(len, lo, l) >= (First(len, lo, n) + Count(len, n, |len|)) * Pow2(l - n)
    decreases l
  {
    hide Count, Pow2;
    Doubling(l - 1 - n);
    if n + 1 < l {
      LevelsApart(len, lo, n, l - 1);
      TwiceProduct(First(len, lo, n) + Count(len, n, |len|), Pow2(l - 1 - n));
    } else {
      OneIsPow();
    }
  }

  lemma {:induction false} Doubling(k: nat)
    ensures Pow2(k + 1) == 2 * Pow2(k)
  {
  }

  lemma OneIsPow()
    ensures Pow2(0) == 1
  {
  }

  lemma TwiceProduct(x: int, y: int)
    ensures x * (2 * y) == 2 * (x * y) && (x - 1) * y == x * y - y
  {
  }

  /** The first `n` bits of a longer code exceed every code of `n` bits. */
  lemma PrefixTooLarge(len: seq<int>, lo: nat, i: nat, n: nat)
    requires i < |len| && lo <= n < len[i]
    ensures Shr(CodeOf(len, lo, i), len[i] - n) >= First(len, lo, n) + Count(len, n, |len|)
  {
    hide First, Count, Pow2;
    var c, d, t := CodeOf(len, lo, i), Pow2(len[i] - n), First(len, lo, n) + Count(len, n, |len|);
    LevelsApart(len, lo, n, len[i]);
    Divide(c, d);
    if c / d < t {
      TwiceProduct(t, d);
      ProductMono(c / d, t - 1, d);
    }
  }

  // ----- the decoding tables

  /** How many symbols have shorter codes than `n`. */
  ghost function Shorter(len: seq<int>, n: nat): nat {
    Below(len, n, |len|)
  }

  /** Where symbol `k` goes when symbols are sorted by length, and keep their order for each length. */
  ghost function Slot(len: seq<int>, k: nat): nat
    requires k < |len| && len[k] >= 0
  {
    Shorter(len, len[k]) + Count(len, len[k], k)
  }

  ghost predicate PermOf(perm: seq<int>, len: seq<int>) {
    && |len| <= |perm|
    && (forall i :: 0 <= i < |len| ==> len[i] >= 0)
    && (forall i :: 0 <= i < |len| ==> Slot(len, i) < |len| && perm[Slot(len, i)] == i)
  }

  /** What the tables mean: the last code of each length, and how far codes are ahead of `perm`. */
  ghost predicate Tables(len: seq<int>, lo: nat, hi: nat, limit: seq<int>, base: seq<int>, perm: seq<int>) {
    && |limit| == |base| == MAX_CODE_LEN && hi < MAX_CODE_LEN && LengthsIn(len, lo, hi)
    && (forall n :: lo <= n <= hi ==> limit[n] == First(len, lo, n) + Count(len, n, |len|) - 1)
    && (forall n :: lo <= n <= hi ==> base[n] == First(len, lo, n) - Shorter(len, n))
    && PermOf(perm, len)
  }

  lemma {:induction false} BelowBound(len: seq<int>, n: nat, k: nat)
    requires k <= |len|
    ensures Below(len, n, k) + Count(len, n, k) <= k
  {
    if k > 0 { BelowBound(len, n, k - 1); }
  }

  lemma {:induction false} BelowNone(len: seq<int>, n: nat, k: nat)
    requires k <= |len| && forall i :: 0 <= i < |len| ==> len[i] >= n
    ensures Below(len, n, k) == 0
  {
    if k > 0 { BelowNone(len, n, k - 1); }
  }

  /** The symbols of one length follow one another. */
  method PlaceLevel(perm: array<int>, length: seq<int>, i: nat, alphaSize: nat, pp0: nat) returns (pp: nat)
    requires |length| == alphaSize <= perm.Length && pp0 == Shorter(length, i)
    requires forall k :: 0 <= k < |length| ==> length[k] >= 0
    modifies perm
    ensures pp == Shorter(length, i + 1) <= alphaSize && perm[..pp0] == old(perm[..pp0])
    ensures forall k :: 0 <= k < |length| && length[k] == i ==> Slot(length, k) < pp && perm[Slot(length, k)] == k
  {
    hide Shorter;
    ShorterStep(length, i);
    ShorterBound(length, i + 1);
    pp := pp0;
    var j := 0;
    while j < alphaSize
      invariant 0 <= j <= alphaSize && pp == pp0 + Count(length, i, j) <= alphaSize
      invariant perm[..pp0] == old(perm[..pp0])
      invariant forall k :: 0 <= k < j && length[k] == i ==> Slot(length, k) < pp && perm[Slot(length, k)] == k
    {
      if length[j] == i {
        CountStrict(length, j, alphaSize);
        ghost var p := perm[..];
        perm[pp] := j;
        assert perm[..] == p[pp := j];
        pp := pp + 1;
      }
      j := j + 1;
      CountMono(length, i, j, alphaSize);
    }
  }

  lemma ShorterBound(len: seq<int>, n: nat)
    ensures Shorter(len, n) <= |len|
  {
  }

  /** The first loop: symbols sorted by length. */
  method SortByLength(perm: array<int>, length: seq<int>, minLen: nat, maxLen: nat, alphaSize: nat)
    requires |length| == alphaSize <= perm.Length && LengthsIn(length, minLen, maxLen) && minLen <= maxLen + 1
    modifies perm
    ensures PermOf(perm[..], length)
  {
    hide Shorter, Slot;
    var pp := 0;
    var i := minLen;
    ShorterNone(length, minLen);
    while i <= maxLen
      invariant minLen <= i <= maxLen + 1 && pp == Shorter(length, i) <= alphaSize
      invariant forall k :: 0 <= k < alphaSize && length[k] < i ==> Slot(length, k) < pp && perm[Slot(length, k)] == k
    {
      ghost var p0 := perm[..pp];
      ghost var pp0 := pp;
      pp := PlaceLevel(perm, length, i, alphaSize, pp);
      ShorterStep(length, i);
      forall k | 0 <= k < alphaSize && length[k] < i ensures perm[Slot(length, k)] == k {
        assert perm[..pp0][Slot(length, k)] == p0[Slot(length, k)];
      }
      i := i + 1;
    }
  }

  /** The loops over `base`: how many codes are shorter than `n`. */
  method CountShorter(base: array<int>, length: seq<int>, alphaSize: nat)
    requires base.Length == MAX_CODE_LEN && |length| == alphaSize && LengthsIn(length, 0, MAX_CODE_LEN - 2)
    modifies base
    ensures forall n :: 0 <= n < MAX_CODE_LEN ==> base[n] == Shorter(length, n)
  {
    var i := 0;
    while i < MAX_CODE_LEN
      invariant 0 <= i <= MAX_CODE_LEN
      invariant forall n :: 0 <= n < i ==> base[n] == 0
    {
      base[i] := 0;
      i := i + 1;
    }
    i := 0;
    while i < alphaSize
      invariant 0 <= i <= alphaSize
      invariant forall n :: 0 <= n < MAX_CODE_LEN ==> base[n] == Count(length, n - 1, i)
    {
      base[length[i] + 1] := base[length[i] + 1] + 1;
      i := i + 1;
    }
    BelowNone(length, 0, alphaSize);
    CountNone(length, -1, alphaSize);
    i := 1;
    while i < MAX_CODE_LEN
      invariant 1 <= i <= MAX_CODE_LEN
      invariant forall n :: 0 <= n < i ==> base[n] == Shorter(length, n)
      invariant forall n :: i <= n < MAX_CODE_LEN ==> base[n] == Count(length, n - 1, alphaSize)
    {
      BelowStep(length, i - 1, alphaSize);
      base[i] := base[i] + base[i - 1];
      i := i + 1;
    }
  }

  lemma {:induction false} CountNone(len: seq<int>, c: int, k: nat)
    requires k <= |len| && forall i :: 0 <= i < |len| ==> len[i] != c
    ensures Count(len, c, k) == 0
  {
    if k > 0 { CountNone(len, c, k - 1); }
  }

  /** BZ2_hbCreateDecodeTables. */
  method CreateDecodeTables(limit: array<int>, base: array<int>, perm: array<int>,
                            length: seq<int>, minLen: nat, maxLen: nat, alphaSize: nat)
    requires limit != base && base != perm && limit != perm
    requires limit.Length == base.Length == MAX_CODE_LEN && |length| == alphaSize <= perm.Length
    requires LengthsIn(length, minLen, maxLen) && minLen <= maxLen <= 20
    modifies limit, base, perm
    ensures Tables(length, minLen, maxLen, limit[..], base[..], perm[..])
  {
    hide PermOf, Count, First, Shorter;
    SortByLength(perm, length, minLen, maxLen, alphaSize);
    CountShorter(base, length, alphaSize);
    var i := 0;
    while i < MAX_CODE_LEN
      invariant 0 <= i <= MAX_CODE_LEN && PermOf(perm[..], length)
      invariant forall n :: 0 <= n < MAX_CODE_LEN ==> base[n] == Shorter(length, n)
    {
      limit[i] := 0;
      i := i + 1;
    }
    var vec := 0;
    i := minLen;
    FirstStart(length, minLen);
    while i <= maxLen
      invariant minLen <= i <= maxLen + 1 && vec == First(length, minLen, i) && PermOf(perm[..], length)
      invariant forall n :: 0 <= n < MAX_CODE_LEN ==> base[n] == Shorter(length, n)
      invariant forall n :: minLen <= n < i ==> limit[n] == First(length, minLen, n) + Count(length, n, alphaSize) - 1
    {
      ShorterStep(length, i);
      FirstStep(length, minLen, i);
      vec := vec + (base[i + 1] - base[i]);
      limit[i] := vec - 1;
      vec := vec * 2;
      i := i + 1;
    }
    i := minLen + 1;
    ShorterNone(length, minLen);
    while i <= maxLen
      invariant minLen + 1 <= i <= maxLen + 1 && PermOf(perm[..], length)
      invariant forall n :: minLen <= n < i ==> base[n] == First(length, minLen, n) - Shorter(length, n)
      invariant forall n :: i <= n < MAX_CODE_LEN ==> base[n] == Shorter(length, n)
      invariant forall n :: minLen <= n <= maxLen ==>
        limit[n] == First(length, minLen, n) + Count(length, n, alphaSize) - 1
    {
      FirstStep(length, minLen, i - 1);
      base[i] := (limit[i - 1] + 1) * 2 - base[i];
      i := i + 1;
    }
  }

  lemma {:induction false} FirstStart(len: seq<int>, lo: nat)
    ensures First(len, lo, lo) == 0
  {
  }

  lemma {:induction false} FirstStep(len: seq<int>, lo: nat, n: nat)
    requires lo <= n
    ensures First(len, lo, n + 1) == 2 * (First(len, lo, n) + Count(len, n, |len|))
  {
  }

  lemma ShorterStep(len: seq<int>, n: nat)
    ensures Shorter(len, n + 1) == Shorter(len, n) + Count(len, n, |len|)
  {
    BelowStep(len, n, |len|);
  }

  lemma ShorterNone(len: seq<int>, n: nat)
    requires forall i :: 0 <= i < |len| ==> len[i] >= n
    ensures Shorter(len, n) == 0
  {
    BelowNone(len, n, |len|);
  }

  // ----- reading a code

  /** What a step of the parser yields: a value and the bits left, a wait for more input, or bad data. */
  datatype Parsed<T> = Done(value: T, rest: Bits) | Starved | Corrupt

  /** A parse that continues one already under way. */
  ghost function Prepend<T>(pre: seq<T>, p: Parsed<seq<T>>): Parsed<seq<T>> {
    match p
    case Done(more, rest) => Done(pre + more, rest)
    case Starved => Starved
    case Corrupt => Corrupt
  }

  lemma PrependTwice<T>(a: seq<T>, b: seq<T>, p: Parsed<seq<T>>)
    ensures Prepend(a, Prepend(b, p)) == Prepend(a + b, p)
    ensures Prepend([], p) == p
  {
    if p.Done? {
      assert a + (b + p.value) == (a + b) + p.value;
      assert [] + p.value == p.value;
    }
  }

  /** The code-reading loop of GET_MTF_VAL, over the bits themselves. */
  ghost function ReadCode(b: Bits, zn: nat, limit: seq<int>, base: seq<int>, perm: seq<int>): (p: Parsed<int>)
    requires zn <= 21 && |limit| == |base| == MAX_CODE_LEN && |perm| == MAX_ALPHA
    ensures p.Done? ==> |p.rest| + zn <= |b|
    decreases 21 - zn
  {
    if |b| < zn then Starved
    else if zn > 20 then Corrupt
    else if Val(b[..zn]) <= limit[zn] then
      var k := Val(b[..zn]) - base[zn];
      if k < 0 || k >= MAX_ALPHA then Corrupt else Done(perm[k], b[zn..])
    else ReadCode(b, zn + 1, limit, base, perm)
  }

  /** The tables read back exactly the codes that were handed out. */
  lemma {:induction false} ReadsBack(len: seq<int>, lo: nat, hi: nat, limit: seq<int>, base: seq<int>, perm: seq<int>,
                                     i: nat, zn: nat, rest: Bits)
    requires Tables(len, lo, hi, limit, base, perm) && hi <= 20 && |perm| == MAX_ALPHA
    requires Complete(len, |len|, hi) && i < |len| && lo <= zn <= len[i]
    ensures ReadCode(BitsOf(CodeOf(len, lo, i), len[i]) + rest, zn, limit, base, perm) == Done(i, rest)
    decreases len[i] - zn
  {
    hide First, Count, CodeOf, Val, BitsOf, Complete, Kraft, Shr, Shorter;
    var l, c := len[i], CodeOf(len, lo, i);
    var b := BitsOf(c, l) + rest;
    CodeFits(len, lo, i, hi);
    BitsHigh(c, zn, l - zn);
    assert b[..zn] == BitsOf(Shr(c, l - zn), zn);
    ShrBelow(c, zn, l - zn);
    ValBitsOf(Shr(c, l - zn), zn);
    if zn < l {
      PrefixTooLarge(len, lo, i, zn);
      ReadsBack(len, lo, hi, limit, base, perm, i, zn + 1, rest);
    } else {
      ShrZero(c);
      CodeOrder(len, lo, i);
      assert Val(b[..zn]) == c <= limit[zn];
      assert c - base[zn] == Slot(len, i);
      assert perm[Slot(len, i)] == i;
      assert b[zn..] == rest;
    }
  }

  lemma ShrZero(v: nat)
    ensures Shr(v, 0) == v
  {
  }

  lemma CodeOrder(len: seq<int>, lo: nat, i: nat)
    requires i < |len|
    ensures First(len, lo, len[i]) <= CodeOf(len, lo, i) < First(len, lo, len[i]) + Count(len, len[i], |len|)
    ensures CodeOf(len, lo, i) == First(len, lo, len[i]) + Count(len, len[i], i)
  {
    CountStrict(len, i, |len|);
  }
}
