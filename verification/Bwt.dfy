/** The Burrows-Wheeler transform, and its FAST and SMALL inverses. */
module Bwt {
  import opened Permutations
  import opened Counting
  import opened Rotations

  /** The position before `i`, going round the block. */
  function Prev(i: int, n: int): (r: int)
    requires 0 <= i < n
    ensures 0 <= r < n && Next(r, n) == i
  {
    if i - 1 < 0 then i - 1 + n else i - 1
  }

  /** The last column: byte `i` precedes the start of the rotation listed at `i`. */
  ghost function Column(b: seq<int>, f: seq<int>): (col: seq<int>)
    requires IsPerm(f, |b|)
    ensures |col| == |b|
    ensures IsBytes(b) ==> IsBytes(col)
  {
    seq(|b|, i requires 0 <= i < |b| => b[Prev(f[i], |b|)])
  }

  // ----- inverting the transform

  /** Where byte `i` of the column stands in the stably sorted first column. */
  ghost function Rank(col: seq<int>, i: int): int
    requires 0 <= i < |col| && IsBytes(col)
  {
    Start(col, col[i]) + Count(col, col[i], i)
  }

  lemma RankRange(col: seq<int>, i: int)
    requires 0 <= i < |col| && IsBytes(col)
    ensures 0 <= Start(col, col[i]) <= Rank(col, i) < Start(col, col[i] + 1) <= |col|
  {
    CountStrict(col, i, |col|);
    StartBound(col, col[i] + 1);
  }

  /** Ranks are ordered by byte first, then by position. */
  lemma RankOrder(col: seq<int>, i: int, j: int)
    requires 0 <= i < |col| && 0 <= j < |col| && IsBytes(col)
    requires col[i] < col[j] || (col[i] == col[j] && i < j)
    ensures Rank(col, i) < Rank(col, j)
  {
    RankRange(col, i);
    RankRange(col, j);
    if col[i] == col[j] { CountStrict(col, i, j); } else { StartMono(col, col[i] + 1, col[j]); }
  }

  lemma RankDistinct(col: seq<int>, i: int, j: int)
    requires 0 <= i < |col| && 0 <= j < |col| && i != j && IsBytes(col)
    ensures Rank(col, i) != Rank(col, j)
  {
    if col[i] < col[j] || (col[i] == col[j] && i < j) { RankOrder(col, i, j); } else { RankOrder(col, j, i); }
  }

  /** The vector T of the decoder's comments: T[i] is the rank of byte `i`. */
  ghost function Ranks(col: seq<int>): (t: seq<int>)
    requires IsBytes(col)
    ensures IsPerm(t, |col|)
    ensures forall i :: 0 <= i < |col| ==> t[i] == Rank(col, i)
  {
    forall i, j | 0 <= i < j < |col| ensures Rank(col, i) != Rank(col, j) { RankDistinct(col, i, j); }
    forall i | 0 <= i < |col| ensures 0 <= Rank(col, i) < |col| { RankRange(col, i); }
    seq(|col|, i requires 0 <= i < |col| => Rank(col, i))
  }

  /** `p` is the inverse of T. */
  ghost predicate Inverts(col: seq<int>, p: seq<int>)
    requires IsBytes(col)
  {
    && IsPerm(p, |col|)
    && forall i :: 0 <= i < |col| ==> p[Ranks(col)[i]] == i
  }

  /** The other half of being inverse. */
  lemma InvertsBack(col: seq<int>, p: seq<int>, x: int)
    requires IsBytes(col) && Inverts(col, p) && 0 <= x < |col|
    ensures Ranks(col)[p[x]] == x
  {
    var i := PermHits(Ranks(col), |col|, x);
    assert p[Ranks(col)[i]] == i;
  }

  /** The bytes delivered by `k` steps of the FAST walk from `t`. */
  ghost function Walk(col: seq<int>, p: seq<int>, t: int, k: nat): (out: seq<int>)
    requires IsPerm(p, |col|) && 0 <= t < |col|
    ensures |out| == k
    decreases k
  {
    if k == 0 then [] else [col[t]] + Walk(col, p, p[t], k - 1)
  }

  // ----- round trip

  lemma CmpOne(b: seq<int>, i: int, j: int, h: nat)
    requires 0 <= i < |b| && 0 <= j < |b| && h == 1
    ensures Cmp(b, i, j, h) == 0 <==> b[i] == b[j]
    ensures Adv(i, h, |b|) == Next(i, |b|)
  {
  }

  lemma CmpFirst(b: seq<int>, i: int, j: int, h: nat)
    requires 0 <= i < |b| && 0 <= j < |b| && h > 0
    ensures b[i] < b[j] ==> Cmp(b, i, j, h) < 0
    ensures b[i] == b[j] ==> Cmp(b, i, j, h) == Cmp(b, Next(i, |b|), Next(j, |b|), h - 1)
  {
  }

  /** Rotations equal over the whole block stay equal one place on, and agree on the byte before. */
  lemma EqualMoves(b: seq<int>, x: int, y: int)
    requires 0 <= x < |b| && 0 <= y < |b| && Cmp(b, x, y, |b|) == 0
    ensures Cmp(b, Next(x, |b|), Next(y, |b|), |b|) == 0
    ensures b[Prev(x, |b|)] == b[Prev(y, |b|)]
  {
    hide Cmp, Adv;
    var n := |b|;
    var x', y' := Next(x, n), Next(y, n);
    CmpSplit(b, x, y, 1, n - 1);
    CmpOne(b, x, y, 1);
    CmpOne(b, y, x, 1);
    CmpSplit(b, x', y', n - 1, 1);
    AdvAdd(x, 1, n - 1, n);
    AdvAdd(y, 1, n - 1, n);
    AdvValue(x, n, n);
    AdvValue(y, n, n);
    CmpSplit(b, x, y, n - 1, 1);
    AdvValue(x, n - 1, n);
    AdvValue(y, n - 1, n);
    CmpOne(b, Prev(x, n), Prev(y, n), 1);
  }

  /** The rotations one place before the ones listed at `p[0], p[1], ..` are again in sorted order. */
  lemma StepSorted(b: seq<int>, f: seq<int>, p: seq<int>, g: seq<int>)
    requires IsBytes(b) && SortedRotations(b, f) && Inverts(Column(b, f), p)
    requires |g| == |b| && forall k :: 0 <= k < |b| ==> g[k] == Prev(f[p[k]], |b|)
    ensures SortedRotations(b, g)
  {
    hide Cmp, Rank;
    var n, col := |b|, Column(b, f);
    forall j, k | 0 <= j < k < n ensures g[j] != g[k] {
      assert f[p[j]] != f[p[k]] by { assert p[j] != p[k]; }
    }
    forall j, k | 0 <= j < k < n ensures Cmp(b, g[j], g[k], n) <= 0 {
      var i, m := p[j], p[k];
      InvertsBack(col, p, j);
      InvertsBack(col, p, k);
      if col[m] < col[i] || (col[m] == col[i] && m <= i) {
        if m != i { RankOrder(col, m, i); }
      }
      assert col[i] == b[g[j]] && col[m] == b[g[k]];
      CmpFirst(b, g[j], g[k], n);
      if col[i] == col[m] {
        assert Cmp(b, f[i], f[m], n) <= 0;
        CmpSplit(b, f[i], f[m], n - 1, 1);
      }
    }
  }

  /** One step of the walk moves from a row to the row of a rotation one place on, up to ties. */
  lemma StepRow(b: seq<int>, f: seq<int>, p: seq<int>, k: int)
    requires IsBytes(b) && SortedRotations(b, f) && Inverts(Column(b, f), p) && 0 <= k < |b|
    ensures Cmp(b, f[p[k]], Next(f[k], |b|), |b|) == 0
  {
    var g := seq(|b|, i requires 0 <= i < |b| => Prev(f[p[i]], |b|));
    StepSorted(b, f, p, g);
    SortedUnique(b, g, f, |b|, k);
    EqualMoves(b, g[k], f[k]);
  }

  lemma {:induction false} WalkFrom(b: seq<int>, f: seq<int>, p: seq<int>, t: int, k: nat)
    requires IsBytes(b) && SortedRotations(b, f) && Inverts(Column(b, f), p)
    requires 0 <= t < |b| && k < |b| && Cmp(b, f[t], Next(k, |b|), |b|) == 0
    ensures Walk(Column(b, f), p, t, |b| - k) == b[k..]
    decreases |b| - k
  {
    var col := Column(b, f);
    EqualMoves(b, f[t], Next(k, |b|));
    assert col[t] == b[k];
    if k + 1 == |b| {
      assert Walk(col, p, t, 1) == [col[t]] + Walk(col, p, p[t], 0);
    } else {
      StepRow(b, f, p, t);
      var x := Next(f[t], |b|);
      CmpAnti(b, f[p[t]], x, |b|);
      CmpTrans(b, f[p[t]], x, Next(k + 1, |b|), |b|);
      WalkFrom(b, f, p, p[t], k + 1);
    }
  }

  /** Round trip: for any sorted listing of the rotations, ties in any order and periodic blocks
      included, the FAST walk from the row of rotation 0 gives back the block. */
  lemma RoundTrip(b: seq<int>, f: seq<int>, p: seq<int>, origPtr: int)
    requires IsBytes(b) && SortedRotations(b, f) && Inverts(Column(b, f), p)
    requires 0 <= origPtr < |b| && f[origPtr] == 0
    ensures Walk(Column(b, f), p, p[origPtr], |b|) == b
  {
    hide Cmp, Walk, SortedRotations;
    StepRow(b, f, p, origPtr);
    WalkFrom(b, f, p, p[origPtr], 0);
    assert b[0..] == b;
  }

  /** BZ2_blockSort's search for the row of rotation 0; assertion 1003 cannot fire. */
  method FindOrigPtr(ptr: array<int>, n: int, ghost b: seq<int>) returns (origPtr: int)
    requires 0 < n == |b| && n <= ptr.Length && IsPerm(ptr[..n], n)
    ensures 0 <= origPtr < n && ptr[origPtr] == 0
  {
    origPtr := -1;
    var i := 0;
    while i < n
      invariant 0 <= i <= n && origPtr == -1
      invariant forall k :: 0 <= k < i ==> ptr[k] != 0
    {
      if ptr[i] == 0 {
        origPtr := i;
        break;
      }
      i := i + 1;
    }
    ghost var p := PermHits(ptr[..n], n, 0);
    assert ptr[p] == 0;
  }

  // ----- the decoder's tables

  /** cftab: where each byte's bucket starts. */
  method MakeCftab(unzftab: array<int>, ghost col: seq<int>) returns (cftab: array<int>)
    requires IsBytes(col) && unzftab.Length == 256
    requires forall c :: 0 <= c < 256 ==> unzftab[c] == Count(col, c, |col|)
    ensures fresh(cftab) && cftab.Length == 257
    ensures forall c :: 0 <= c <= 256 ==> cftab[c] == Start(col, c)
  {
    hide Count, Start;
    StartSteps(col);
    cftab := new int[257];
    cftab[0] := 0;
    for i := 1 to 257
      invariant cftab[0] == 0
      invariant forall c :: 1 <= c < i ==> cftab[c] == unzftab[c - 1]
    {
      cftab[i] := unzftab[i - 1];
    }
    for i := 1 to 257
      invariant forall c :: 0 <= c < i ==> cftab[c] == Start(col, c)
      invariant forall c :: i <= c <= 256 ==> cftab[c] == unzftab[c - 1]
    {
      assert Start(col, i) == Start(col, i - 1) + Count(col, i - 1, |col|);
      cftab[i] := cftab[i] + cftab[i - 1];
    }
  }

  lemma StartSteps(col: seq<int>)
    ensures Start(col, 0) == 0
    ensures forall c: nat :: c > 0 ==> Start(col, c) == Start(col, c - 1) + Count(col, c - 1, |col|)
  {
  }

  /** What the loops over `cftab[byte]++` know after `i` bytes. */
  ghost predicate Filling(cftab: seq<int>, col: seq<int>, i: nat) {
    && |cftab| == 257 && i <= |col|
    && forall c :: 0 <= c < 256 ==> cftab[c] == Start(col, c) + Count(col, c, i)
  }

  lemma FillingStep(cftab: seq<int>, col: seq<int>, i: nat)
    requires IsBytes(col) && i < |col| && Filling(cftab, col, i)
    ensures cftab[col[i]] == Rank(col, i)
    ensures Filling(cftab[col[i] := cftab[col[i]] + 1], col, i + 1)
  {
  }

  /** The inverse of T as far as the first `i` bytes determine it; other entries are 0. */
  ghost predicate Partial(col: seq<int>, p: seq<int>, i: nat)
    requires IsBytes(col)
  {
    && |p| == |col| && i <= |col|
    && (forall k :: 0 <= k < i ==> p[Ranks(col)[k]] == k)
    && (forall q :: 0 <= q < |p| ==> 0 <= p[q] < |col| && (p[q] != 0 ==> p[q] < i && Ranks(col)[p[q]] == q))
  }

  lemma PartialStep(col: seq<int>, p: seq<int>, i: nat)
    requires IsBytes(col) && i < |col| && Partial(col, p, i)
    ensures 0 <= Rank(col, i) < |p| && p[Rank(col, i)] == 0
    ensures Partial(col, p[Rank(col, i) := i], i + 1)
  {
    var t := Ranks(col);
    assert t[i] == Rank(col, i);
  }

  lemma PartialDone(col: seq<int>, p: seq<int>)
    requires IsBytes(col) && Partial(col, p, |col|)
    ensures Inverts(col, p)
  {
    var t := Ranks(col);
    forall x, y | 0 <= x < y < |p| ensures p[x] != p[y] {
      var i := PermHits(t, |col|, x);
      var j := PermHits(t, |col|, y);
      assert p[t[i]] == i && p[t[j]] == j;
    }
  }

  /** FAST set-up: the low byte of `tt[q]` is the column, the rest is the inverse of T. */
  ghost predicate TtHolds(tt: seq<int>, col: seq<int>, p: seq<int>) {
    && |col| == |p| <= |tt|
    && forall q :: 0 <= q < |col| ==> tt[q] == 256 * p[q] + col[q]
  }

  method BuildTt(tt: array<int>, cftab: array<int>, n: int, ghost col: seq<int>) returns (ghost p: seq<int>)
    requires tt != cftab && n == |col| <= tt.Length && IsBytes(col) && cftab.Length == 257
    requires forall q :: 0 <= q < n ==> tt[q] == col[q]
    requires forall c :: 0 <= c <= 256 ==> cftab[c] == Start(col, c)
    modifies tt, cftab
    ensures Inverts(col, p) && TtHolds(tt[..], col, p)
  {
    hide Start, Count, Rank, Inverts, Partial;
    p := seq(n, _ => 0);
    var i := 0;
    assert Partial(col, p, 0) by { PartialNone(col, p); }
    assert Filling(cftab[..], col, 0) by { FillingNone(cftab[..], col); }
    while i < n
      invariant 0 <= i <= n && Filling(cftab[..], col, i) && Partial(col, p, i)
      invariant TtHolds(tt[..], col, p)
    {
      var uc := tt[i] % 256;
      assert uc == col[i];
      FillingStep(cftab[..], col, i);
      PartialStep(col, p, i);
      RankRange(col, i);
      var k := cftab[uc];
      assert tt[k] < 256;
      tt[k] := tt[k] + i * 256;  // the upper bits were clear, so this is `|= i << 8`
      p := p[k := i];
      ghost var cf := cftab[..];
      cftab[uc] := cftab[uc] + 1;
      assert cftab[..] == cf[col[i] := cf[col[i]] + 1];
      i := i + 1;
    }
    PartialDone(col, p);
  }

  lemma FillingNone(cftab: seq<int>, col: seq<int>)
    requires |cftab| == 257 && forall c :: 0 <= c <= 256 ==> cftab[c] == Start(col, c)
    ensures Filling(cftab, col, 0)
  {
  }

  lemma PartialNone(col: seq<int>, p: seq<int>)
    requires IsBytes(col) && |p| == |col| && forall q :: 0 <= q < |p| ==> p[q] == 0
    ensures Partial(col, p, 0)
  {
  }

  /** BZ_GET_FAST on a good table: the next byte of the walk. */
  method GetFast(tt: array<int>, tPos: int, ghost col: seq<int>, ghost p: seq<int>) returns (ch: int, tPos': int)
    requires IsBytes(col) && Inverts(col, p) && TtHolds(tt[..], col, p) && 0 <= tPos < |col|
    ensures ch == col[tPos] && tPos' == p[tPos]
  {
    tPos' := tt[tPos];
    assert tPos' == 256 * p[tPos] + col[tPos];
    ch := tPos' % 256;
    tPos' := tPos' / 256;
  }

  // ----- SMALL: the 20-bit values of LL kept as 16 bits and a nibble

  /** GET_LL */
  function GetLL(ll16: seq<int>, ll4: seq<int>, i: int): int
    requires 0 <= i < |ll16| && i / 2 < |ll4|
  {
    var nibble := if i % 2 == 0 then ll4[i / 2] % 16 else ll4[i / 2] / 16 % 16;
    ll16[i] + nibble * 0x1_0000
  }

  /** The packed arrays hold in-range values and stand for the sequence `ll`. */
  ghost predicate Packed(ll16: seq<int>, ll4: seq<int>, ll: seq<int>) {
    && |ll| <= |ll16| && (|ll| + 1) / 2 <= |ll4|
    && (forall i :: 0 <= i < |ll16| ==> 0 <= ll16[i] < 0x1_0000)
    && (forall i :: 0 <= i < |ll4| ==> 0 <= ll4[i] < 256)
    && (forall i :: 0 <= i < |ll| ==> GetLL(ll16, ll4, i) == ll[i])
  }

  /** SET_LL: the packed store reads back what was written, and keeps its neighbours. */
  method SetLL(ll16: array<int>, ll4: array<int>, i: int, v: int, ghost ll: seq<int>)
    requires ll16 != ll4 && Packed(ll16[..], ll4[..], ll) && 0 <= i < |ll| && 0 <= v < 0x10_0000
    modifies ll16, ll4
    ensures Packed(ll16[..], ll4[..], ll[i := v])
    ensures forall k :: 0 <= k < ll16.Length && k != i ==> ll16[k] == old(ll16[k])
  {
    var hi := v / 0x1_0000;
    ghost var s4 := ll4[..];
    ll16[i] := v % 0x1_0000;
    ll4[i / 2] := if i % 2 == 0 then ll4[i / 2] / 16 * 16 + hi else ll4[i / 2] % 16 + hi * 16;
    forall k | 0 <= k < |ll| ensures GetLL(ll16[..], ll4[..], k) == ll[i := v][k] {
      NibbleKept(s4[i / 2], hi, i % 2 == 0);
      assert GetLL(ll16[..], s4, k) == if k == i then GetLL(ll16[..], s4, i) else ll[k];
    }
  }

  lemma NibbleKept(w: int, hi: int, low: bool)
    requires 0 <= w < 256 && 0 <= hi < 16
    ensures low ==> (w / 16 * 16 + hi) % 16 == hi && (w / 16 * 16 + hi) / 16 % 16 == w / 16 % 16
    ensures !low ==> (w % 16 + hi * 16) / 16 % 16 == hi && (w % 16 + hi * 16) % 16 == w % 16
    ensures 0 <= w / 16 * 16 + hi < 256 && 0 <= w % 16 + hi * 16 < 256
  {
  }

  lemma PackedSize(ll16: seq<int>, ll4: seq<int>, ll: seq<int>)
    requires Packed(ll16, ll4, ll)
    ensures |ll| <= |ll16|
  {
  }

  lemma GetLLRange(ll16: seq<int>, ll4: seq<int>, ll: seq<int>, i: int)
    requires Packed(ll16, ll4, ll) && 0 <= i < |ll|
    ensures 0 <= i < |ll16| && i / 2 < |ll4| && GetLL(ll16, ll4, i) == ll[i]
  {
  }

  /** SMALL set-up, first half: LL becomes the vector T. */
  method BuildLL(ll16: array<int>, ll4: array<int>, cftabCopy: array<int>, n: int, ghost col: seq<int>, ghost ll0: seq<int>)
    returns (ghost ll: seq<int>)
    requires ll16 != ll4 && cftabCopy != ll16 && cftabCopy != ll4
    requires n == |col| == |ll0| <= 0x10_0000 && IsBytes(col) && cftabCopy.Length == 257
    requires Packed(ll16[..], ll4[..], ll0)
    requires forall i :: 0 <= i < n ==> ll16[i] == col[i]
    requires forall c :: 0 <= c <= 256 ==> cftabCopy[c] == Start(col, c)
    modifies ll16, ll4, cftabCopy
    ensures Packed(ll16[..], ll4[..], ll) && ll == Ranks(col)
  {
    hide Start, Count, Rank, Packed;
    ll := ll0;
    PackedSize(ll16[..], ll4[..], ll);
    var i := 0;
    assert Filling(cftabCopy[..], col, 0) by { FillingNone(cftabCopy[..], col); }
    while i < n
      invariant 0 <= i <= n == |ll| && Filling(cftabCopy[..], col, i)
      invariant Packed(ll16[..], ll4[..], ll) && |ll| <= ll16.Length
      invariant forall k :: 0 <= k < i ==> ll[k] == Rank(col, k)
      invariant forall k :: i <= k < n ==> ll16[k] == col[k]
    {
      var uc := ll16[i] % 256;
      assert uc == col[i];
      FillingStep(cftabCopy[..], col, i);
      RankRange(col, i);
      SetLL(ll16, ll4, i, cftabCopy[uc], ll);
      ll := ll[i := cftabCopy[uc]];
      ghost var cf := cftabCopy[..];
      cftabCopy[uc] := cftabCopy[uc] + 1;
      assert cftabCopy[..] == cf[col[i] := cf[col[i]] + 1];
      i := i + 1;
    }
  }

  /** `ll` is the inverse `p` on the visited rows `v` and still T elsewhere; `i` is the last visited
      row, so no visited row has it as predecessor until the cycle closes at `o`. */
  ghost predicate Reversing(col: seq<int>, p: seq<int>, ll: seq<int>, v: set<int>, i: int, o: int)
    requires IsBytes(col)
  {
    && Inverts(col, p) && |ll| == |col|
    && 0 <= o < |col| && 0 <= i < |col| && (i == o || i in v)
    && (forall x :: x in v ==> 0 <= x < |col| && ll[x] == p[x] && (p[x] in v || p[x] == o))
    && (forall x :: 0 <= x < |col| && x !in v ==> ll[x] == Ranks(col)[x])
  }

  /** The cycle is still open at `i`. */
  ghost predicate Open(p: seq<int>, v: set<int>, i: int, o: int) {
    && o !in v && (v == {} <==> i == o)
    && forall x :: x in v && 0 <= x < |p| ==> p[x] != i
  }

  /** The next row is a new one, and its predecessor is the last visited row. */
  lemma ReverseFresh(col: seq<int>, p: seq<int>, ll: seq<int>, v: set<int>, i: int, j: int, o: int)
    requires IsBytes(col) && Reversing(col, p, ll, v, i, o) && Open(p, v, i, o) && j == Ranks(col)[i]
    ensures 0 <= j < |col| && j !in v && p[j] == i && ll[j] == Ranks(col)[j]
  {
    hide Rank;
    assert p[Ranks(col)[i]] == i;
  }

  lemma ReverseStep(col: seq<int>, p: seq<int>, ll: seq<int>, v: set<int>, i: int, j: int, o: int)
    requires IsBytes(col) && Reversing(col, p, ll, v, i, o) && 0 <= j < |col| && p[j] == i
    ensures Reversing(col, p, ll[j := i], v + {j}, j, o)
    ensures j == o ==> o in v + {j} && forall x :: x in v + {j} ==> p[x] in v + {j}
  {
    hide Rank;
  }

  /** While the cycle has not closed, no visited row has the new row as predecessor. */
  lemma ReverseOpen(col: seq<int>, p: seq<int>, ll: seq<int>, v: set<int>, i: int, j: int, o: int)
    requires IsBytes(col) && Reversing(col, p, ll, v, i, o) && Open(p, v, i, o)
    requires 0 <= j < |col| && j !in v && p[j] == i && j != o
    ensures Open(p, v + {j}, j, o)
  {
    hide Rank;
    forall x | x in v + {j} && 0 <= x < |p| ensures p[x] != j {
      if x in v { assert p[x] in v || p[x] == o; }
    }
  }

  /** SMALL set-up, second half: the cycle through `origPtr` is reversed in place. */
  method Reverse(ll16: array<int>, ll4: array<int>, origPtr: int, ghost col: seq<int>, ghost p: seq<int>)
    returns (ghost ll: seq<int>, ghost v: set<int>)
    requires ll16 != ll4 && IsBytes(col) && |col| <= 0x10_0000 && 0 <= origPtr < |col|
    requires Packed(ll16[..], ll4[..], Ranks(col)) && Inverts(col, p)
    modifies ll16, ll4
    ensures Packed(ll16[..], ll4[..], ll) && Reversing(col, p, ll, v, origPtr, origPtr)
    ensures origPtr in v && forall x :: x in v ==> 0 <= x < |p| && p[x] in v
  {
    hide Packed, Reversing, Open, Inverts, Rank;
    ll, v := Ranks(col), {};
    var i := origPtr;
    GetLLRange(ll16[..], ll4[..], ll, i);
    var j := GetLL(ll16[..], ll4[..], i);
    ReversingNone(col, p, origPtr);
    while true
      invariant |ll| == |col| && Packed(ll16[..], ll4[..], ll)
      invariant 0 <= i < |col| && j == Ranks(col)[i]
      invariant Reversing(col, p, ll, v, i, origPtr) && Open(p, v, i, origPtr)
      invariant forall x :: x in v ==> 0 <= x < |col|
      decreases |col| - |v|
    {
      ReverseFresh(col, p, ll, v, i, j, origPtr);
      ReverseStep(col, p, ll, v, i, j, origPtr);
      if j != origPtr { ReverseOpen(col, p, ll, v, i, j, origPtr); }
      GetLLRange(ll16[..], ll4[..], ll, j);
      var tmp := GetLL(ll16[..], ll4[..], j);
      SetLL(ll16, ll4, j, i, ll);
      ll, v := ll[j := i], v + {j};
      i := j;
      j := tmp;
      RowsCard(v, |col|);
      if i == origPtr { break; }
    }
  }

  lemma ReversingNone(col: seq<int>, p: seq<int>, o: int)
    requires IsBytes(col) && Inverts(col, p) && 0 <= o < |col|
    ensures |p| == |col| && Reversing(col, p, Ranks(col), {}, o, o) && Open(p, {}, o, o)
  {
  }

  lemma RowsCard(v: set<int>, n: nat)
    requires forall x :: x in v ==> 0 <= x < n
    ensures |v| <= n
  {
    var all := set k | 0 <= k < n :: Iota(n)[k];
    forall x | x in v ensures x in all { assert Iota(n)[x] == x; }
    DistinctCard(Iota(n), n);
    SubsetCard(v, all);
  }

  /** BZ2_indexIntoF: the byte whose bucket contains position `indx`. */
  method IndexIntoF(indx: int, cftab: array<int>, ghost col: seq<int>) returns (nb: int)
    requires IsBytes(col) && cftab.Length == 257 && 0 <= indx < |col|
    requires forall c :: 0 <= c <= 256 ==> cftab[c] == Start(col, c)
    ensures 0 <= nb < 256 && Start(col, nb) <= indx < Start(col, nb + 1)
  {
    StartTotal(col);
    nb := 0;
    var na := 256;
    while true
      invariant 0 <= nb < na <= 256 && Start(col, nb) <= indx < Start(col, na)
      invariant na - nb >= 2
      decreases na - nb
    {
      var mid := (nb + na) / 2;
      if indx >= cftab[mid] { nb := mid; } else { na := mid; }
      if na - nb == 1 { break; }
    }
  }

  /** BZ_GET_SMALL on a reversed table: the byte of the row, and the next row of the walk. */
  method GetSmall(ll16: array<int>, ll4: array<int>, cftab: array<int>, tPos: int,
                  ghost col: seq<int>, ghost p: seq<int>, ghost ll: seq<int>, ghost v: set<int>, ghost o: int)
    returns (ch: int, tPos': int)
    requires IsBytes(col) && Packed(ll16[..], ll4[..], ll) && Reversing(col, p, ll, v, o, o)
    requires cftab.Length == 257 && forall c :: 0 <= c <= 256 ==> cftab[c] == Start(col, c)
    requires tPos in v && forall x :: x in v ==> 0 <= x < |p| && p[x] in v
    ensures ch == col[p[tPos]] && tPos' == p[tPos] && tPos' in v
  {
    ch := IndexIntoF(tPos, cftab, col);
    FirstColumn(col, p, tPos, ch);
    GetLLRange(ll16[..], ll4[..], ll, tPos);
    tPos' := GetLL(ll16[..], ll4[..], tPos);
  }

  /** The byte whose bucket contains row `t` is the byte of the column that T sends there. */
  lemma FirstColumn(col: seq<int>, p: seq<int>, t: int, c: nat)
    requires IsBytes(col) && Inverts(col, p) && 0 <= t < |col|
    requires Start(col, c) <= t < Start(col, c + 1)
    ensures c == col[p[t]]
  {
    InvertsBack(col, p, t);
    RankRange(col, p[t]);
    if c < col[p[t]] { StartMono(col, c + 1, col[p[t]]); }
    if col[p[t]] < c { StartMono(col, col[p[t]] + 1, c); }
  }

  /** `first` is the sorted first column that BZ2_indexIntoF looks bytes up in. */
  ghost predicate IsFirst(col: seq<int>, first: seq<int>) {
    && |first| == |col|
    && forall x :: 0 <= x < |col| ==> first[x] >= 0 && Start(col, first[x]) <= x < Start(col, first[x] + 1)
  }

  /** The bytes delivered by `k` calls of BZ_GET_SMALL from row `t`; `v` is the cycle walked. */
  ghost function SmallWalk(first: seq<int>, ll: seq<int>, v: set<int>, t: int, k: nat): seq<int>
    requires forall x :: x in v ==> 0 <= x < |first| && x < |ll| && ll[x] in v
    requires t in v
    decreases k
  {
    if k == 0 then [] else [first[t]] + SmallWalk(first, ll, v, ll[t], k - 1)
  }

  lemma ReversingClosed(col: seq<int>, first: seq<int>, p: seq<int>, ll: seq<int>, v: set<int>, o: int)
    requires IsBytes(col) && Reversing(col, p, ll, v, o, o) && IsFirst(col, first)
    requires forall x :: x in v ==> 0 <= x < |p| && p[x] in v
    ensures IsPerm(p, |col|)
    ensures forall x :: x in v ==> 0 <= x < |first| && x < |ll| && ll[x] == p[x] && first[x] == col[p[x]]
  {
    forall x | x in v ensures first[x] == col[p[x]] { FirstColumn(col, p, x, first[x]); }
  }

  lemma {:induction false} WalksAgree(col: seq<int>, first: seq<int>, p: seq<int>, ll: seq<int>, v: set<int>, t: int, k: nat)
    requires IsPerm(p, |col|) && t in v
    requires forall x :: x in v ==> 0 <= x < |first| && x < |ll| && x < |p| && ll[x] in v
    requires forall x :: x in v ==> ll[x] == p[x] && first[x] == col[p[x]]
    ensures SmallWalk(first, ll, v, t, k) == Walk(col, p, p[t], k)
    decreases k
  {
    if k > 0 { WalksAgree(col, first, p, ll, v, p[t], k - 1); }
  }

  /** FAST and SMALL agree: once the cycle through `o` is reversed, for any column, whatever its
      cycles, and any number of bytes, reading the first column along LL from row `o` delivers what
      the tt vector delivers from `p[o]`. */
  lemma SmallIsFast(col: seq<int>, first: seq<int>, p: seq<int>, ll: seq<int>, v: set<int>, o: int, k: nat)
    requires IsBytes(col) && Reversing(col, p, ll, v, o, o) && IsFirst(col, first)
    requires o in v && forall x :: x in v ==> 0 <= x < |p| && p[x] in v
    ensures IsPerm(p, |col|) && 0 <= p[o] < |col|
    ensures forall x :: x in v ==> 0 <= x < |first| && x < |ll| && ll[x] in v
    ensures SmallWalk(first, ll, v, o, k) == Walk(col, p, p[o], k)
  {
    hide Walk, SmallWalk, Reversing, IsFirst;
    ReversingClosed(col, first, p, ll, v, o);
    WalksAgree(col, first, p, ll, v, o, k);
  }
}
