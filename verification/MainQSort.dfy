/** mainSimpleSort and mainQSort3 of blocksort.c. */
module MainQSort {
  import opened FallbackQSort
  import opened Permutations
  import opened QuadrantCache
  import opened Rotations

  const DEPTH_THRESH := N_RADIX + N_QSORT
  const MAIN_SMALL_THRESH := 20

  // ----- rotations ordered by a number

  /** How many of the first `k` rotations are smaller than rotation `i`. */
  ghost function Smaller(b: seq<int>, i: int, k: nat): (r: nat)
    requires 0 <= i < |b| && k <= |b|
    ensures r <= k
  {
    if k == 0 then 0 else Smaller(b, i, k - 1) + if Cmp(b, k - 1, i, |b|) < 0 then 1 else 0
  }

  /** The rank of every rotation: equal rotations share it. */
  ghost function Ranks(b: seq<int>): (e: seq<int>)
    ensures |e| == |b|
  {
    seq(|b|, i requires 0 <= i < |b| => Smaller(b, i, |b|))
  }

  lemma {:induction false} SmallerMono(b: seq<int>, i: int, j: int, k: nat)
    requires 0 <= i < |b| && 0 <= j < |b| && k <= |b| && Cmp(b, i, j, |b|) <= 0
    ensures Smaller(b, i, k) <= Smaller(b, j, k)
    ensures Cmp(b, i, j, |b|) < 0 && i < k ==> Smaller(b, i, k) < Smaller(b, j, k)
    decreases k
  {
    hide Cmp;
    if k > 0 {
      SmallerMono(b, i, j, k - 1);
      if Cmp(b, k - 1, i, |b|) < 0 { CmpTrans(b, k - 1, i, j, |b|); }
      CmpAnti(b, i, i, |b|);
    }
  }

  /** Comparing rotations is comparing ranks. */
  lemma RankOrder(b: seq<int>, i: int, j: int)
    requires 0 <= i < |b| && 0 <= j < |b|
    ensures Cmp(b, i, j, |b|) <= 0 <==> Key(Ranks(b), i) <= Key(Ranks(b), j)
    ensures Cmp(b, i, j, |b|) < 0 <==> Key(Ranks(b), i) < Key(Ranks(b), j)
  {
    hide Cmp, Smaller;
    CmpAnti(b, i, j, |b|);
    if Cmp(b, i, j, |b|) <= 0 { SmallerMono(b, i, j, |b|); }
    if Cmp(b, j, i, |b|) <= 0 { SmallerMono(b, j, i, |b|); }
  }

  lemma AnswerRanks(b: seq<int>, i: int, j: int, r: bool)
    requires Answers(b, i, j, r)
    ensures 0 <= i < |b| && 0 <= j < |b|
    ensures if r then Key(Ranks(b), i) >= Key(Ranks(b), j) else Key(Ranks(b), i) <= Key(Ranks(b), j)
  {
    hide Ranks;
    RankOrder(b, i, j);
    RankOrder(b, j, i);
    CmpAnti(b, i, j, |b|);
  }

  /** Two different rotations agree as far as mainQSort3 looks before it leaves the rest to mainSimpleSort. */
  ghost predicate Agreeing(b: seq<int>, i: int, j: int) {
    0 <= i < |b| && 0 <= j < |b| && i != j && Cmp(b, i, j, DEPTH_THRESH) == 0
  }

  ghost predicate Repetitive(b: seq<int>) {
    exists i, j :: Agreeing(b, i, j)
  }

  /** Comparisons from depth `d` on leave the budget alone in any block that is not repetitive. */
  ghost predicate Charged(b: seq<int>, d: nat, budget0: int, budget: int) {
    budget <= budget0 && (budget == budget0 || d < N_RADIX || Repetitive(b))
  }

  /** The rotations listed at `lo..hi-1` are different and agree in their first `d` bytes. */
  ghost predicate TiedTo(b: seq<int>, f: seq<int>, lo: int, hi: int, d: nat) {
    && InRange(f, |b|, lo, hi)
    && (forall p, q :: lo <= p < q < hi ==> f[p] != f[q])
    && forall p, q :: lo <= p < hi && lo <= q < hi ==> Cmp(b, f[p], f[q], d) == 0
  }

  lemma TiedKept(b: seq<int>, s: seq<int>, t: seq<int>, lo: int, hi: int, d: nat)
    requires SegPerm(s, t, lo, hi) && TiedTo(b, s, lo, hi, d)
    ensures TiedTo(b, t, lo, hi, d)
  {
    InRangeKept(s, t, |b|, lo, hi);
    DifferentKept(s, t, lo, hi);
    forall p, q | lo <= p < hi && lo <= q < hi ensures Cmp(b, t[p], t[q], d) == 0 {
      var p0 := SegPermSource(s, t, lo, hi, p);
      var q0 := SegPermSource(s, t, lo, hi, q);
    }
  }

  lemma DifferentKept(s: seq<int>, t: seq<int>, lo: int, hi: int)
    requires SegPerm(s, t, lo, hi) && forall p, q :: lo <= p < q < hi ==> s[p] != s[q]
    ensures forall p, q :: lo <= p < q < hi ==> t[p] != t[q]
  {
    DistinctMultiset(s[lo..hi]);
    DistinctMultiset(t[lo..hi]);
    assert Distinct(s[lo..hi]);
    forall p, q | lo <= p < q < hi ensures t[p] != t[q] { assert t[lo..hi][p - lo] != t[lo..hi][q - lo]; }
  }

  lemma TiedPair(b: seq<int>, f: seq<int>, lo: int, hi: int, d: nat, p: int, q: int)
    requires TiedTo(b, f, lo, hi, d) && lo <= p < hi && lo <= q < hi
    ensures 0 <= p < |f| && 0 <= q < |f| && 0 <= f[p] < |b| && 0 <= f[q] < |b| && Cmp(b, f[p], f[q], d) == 0
    ensures p != q ==> f[p] != f[q]
  {
  }

  // ----- mainSimpleSort

  /** Entry `i` of `s` moved down to `k`, past entries that are not smaller, extends the ordered stretch. */
  lemma OrderedSink(s: seq<int>, t: seq<int>, e: seq<int>, lo: int, k: int, i: int)
    requires 0 <= lo <= k <= i < |s| == |t|
    requires Ordered(s, e, lo, i)
    requires forall p :: k < p <= i ==> t[p] == s[p - 1] && Key(e, s[p - 1]) >= Key(e, s[i])
    requires t[k] == s[i] && forall p :: lo <= p < k ==> t[p] == s[p]
    requires lo < k ==> Key(e, s[k - 1]) <= Key(e, s[i])
    ensures Ordered(t, e, lo, i + 1)
  {
    forall p, q | lo <= p < q < i + 1 ensures Key(e, t[p]) <= Key(e, t[q]) {
      if p < k { assert Key(e, s[p]) <= Key(e, s[k - 1]); }
    }
  }

  /** The comparison of two rotations that agree in their first `d` bytes. */
  method GtU(v: int, w: int, d: nat, block: array<int>, quadrant: array<UInt16>, nblock: nat, budget0: int)
    returns (r: bool, budget: int)
    requires Consistent(block[..], quadrant[..], nblock)
    requires 0 <= v < nblock && 0 <= w < nblock && v != w && d <= MAX_DEPTH && Cmp(block[..nblock], v, w, d) == 0
    ensures Charged(block[..nblock], d, budget0, budget)
    ensures budget == budget0 || Cmp(block[..nblock], v, w, d + N_QSORT + 8 * (budget0 - budget)) == 0
    ensures var e := Ranks(block[..nblock]); if r then Key(e, v) >= Key(e, w) else Key(e, v) <= Key(e, w)
  {
    hide Cmp, Ranks, Answers, Truthful, Repeats;
    Sizes(block[..], quadrant[..], nblock);
    r, budget := MainGtU(v + d, w + d, block, quadrant, nblock, budget0);
    ComparedAfter(block[..nblock], v, w, d, r);
    AnswerRanks(block[..nblock], v, w, r);
    if budget < budget0 { SpentOn(block[..nblock], v, w, d, budget0 - budget); }
  }

  /** What the budget is spent on. */
  lemma SpentOn(b: seq<int>, v: int, w: int, d: nat, spent: nat)
    requires |b| > N_OVERSHOOT && 0 <= v < |b| && 0 <= w < |b| && v != w && d <= MAX_DEPTH && Cmp(b, v, w, d) == 0
    requires Cmp(b, Wrap(v + d, |b|), Wrap(w + d, |b|), N_QSORT + 8 * spent) == 0
    ensures Cmp(b, v, w, d + N_QSORT + 8 * spent) == 0 && (d < N_RADIX || Repetitive(b))
  {
    hide Cmp;
    var m := N_QSORT + 8 * spent;
    AdvValue(v, d, |b|);
    AdvValue(w, d, |b|);
    CmpSplit(b, v, w, d, m);
    assert d + m == d + N_QSORT + 8 * spent;
    if d >= N_RADIX {
      CmpSplit(b, v, w, DEPTH_THRESH, d + m - DEPTH_THRESH);
      assert Agreeing(b, v, w);
    }
  }

  /** The stretch while entry `i`, now `v`, sinks to `j`: entries that are not smaller have moved up by one. */
  ghost predicate Sinking(s: seq<int>, t: seq<int>, e: seq<int>, lo: int, j: int, i: int, v: int)
    requires 0 <= lo <= j <= i < |s| == |t|
  {
    && (forall p :: j < p <= i ==> t[p] == s[p - 1] && Key(e, s[p - 1]) >= Key(e, v))
    && (forall p :: lo <= p < j ==> t[p] == s[p])
  }

  lemma SinkStart(s: seq<int>, e: seq<int>, lo: int, i: int)
    requires 0 <= lo <= i < |s|
    ensures Sinking(s, s, e, lo, i, i, s[i])
  {
  }

  lemma SinkStep(s: seq<int>, t: seq<int>, e: seq<int>, lo: int, j: int, i: int, v: int)
    requires 0 <= lo < j <= i < |s| == |t| && Sinking(s, t, e, lo, j, i, v) && Key(e, t[j - 1]) >= Key(e, v)
    ensures Sinking(s, t[j := t[j - 1]], e, lo, j - 1, i, v)
  {
    hide Key;
    assert t[j - 1] == s[j - 1];
  }

  lemma SinkEnd(s: seq<int>, t: seq<int>, e: seq<int>, lo: int, j: int, i: int, v: int)
    requires 0 <= lo <= j <= i < |s| == |t| && Sinking(s, t, e, lo, j, i, v) && v == s[i] && Ordered(s, e, lo, i)
    requires lo < j ==> Key(e, t[j - 1]) <= Key(e, v)
    ensures Ordered(t[j := v], e, lo, i + 1)
  {
    hide Key, Ordered;
    var u := t[j := v];
    assert lo < j ==> t[j - 1] == s[j - 1];
    forall p | j < p <= i ensures u[p] == s[p - 1] && Key(e, s[p - 1]) >= Key(e, s[i]) { assert u[p] == t[p]; }
    forall p | lo <= p < j ensures u[p] == s[p] { assert u[p] == t[p]; }
    OrderedSink(s, u, e, lo, j, i);
  }

  /** One insertion with gap `h`. */
  method Insert(ptr: array<int>, block: array<int>, quadrant: array<UInt16>, nblock: nat, lo: int, i: int, ghost hi: int, h: int,
                d: nat, budget0: int) returns (budget: int)
    requires ptr != block && ptr.Length >= nblock
    requires Consistent(block[..], quadrant[..], nblock) && d <= MAX_DEPTH && h >= 1
    requires 0 <= lo && lo + h <= i < hi <= ptr.Length && TiedTo(block[..nblock], ptr[..], lo, hi, d)
    modifies ptr
    ensures Charged(block[..nblock], d, budget0, budget) && SegPerm(old(ptr[..]), ptr[..], lo, hi)
    ensures h == 1 && Ordered(old(ptr[..]), Ranks(block[..nblock]), lo, i) ==> Ordered(ptr[..], Ranks(block[..nblock]), lo, i + 1)
  {
    hide SegPerm, Ordered, Ranks, Cmp, Truthful, Repeats, Key, TiedTo, Sinking, Repetitive;
    Sizes(block[..], quadrant[..], nblock);
    ghost var s, b := ptr[..], block[..nblock];
    ghost var e := Ranks(b);
    var v := ptr[i];
    var j := i;
    assert s[i := v] == s;
    SegPermRefl(s, lo, hi);
    SinkStart(s, e, lo, i);
    budget := budget0;
    var r;
    TiedPair(b, s, lo, hi, d, i - h, i);
    r, budget := GtU(ptr[j - h], v, d, block, quadrant, nblock, budget);
    while r
      invariant lo <= j <= i && ptr.Length == |s| && Charged(b, d, budget0, budget) && (r ==> lo + h <= j)
      invariant r ==> Key(e, ptr[j - h]) >= Key(e, v)
      invariant !r && lo + h <= j ==> Key(e, ptr[j - h]) <= Key(e, v)
      invariant SegPerm(s, ptr[..][j := v], lo, hi)
      invariant h == 1 ==> Sinking(s, ptr[..], e, lo, j, i, v)
      decreases j, if r then 1 else 0
    {
      SegPermHole(s, ptr[..], v, j, j - h, lo, hi);
      ghost var t := ptr[..];
      ghost var u := t[j := t[j - h]][j - h := v];
      if h == 1 { SinkStep(s, t, e, lo, j, i, v); }
      ptr[j] := ptr[j - h];
      assert ptr[..] == t[j := t[j - h]];
      j := j - h;
      assert ptr[..][j := v] == u && SegPerm(s, u, lo, hi);
      if j <= lo + h - 1 {
        r := false;
      } else {
        TiedKept(b, s, u, lo, hi, d);
        TiedPair(b, u, lo, hi, d, j - h, j);
        assert u[j - h] == ptr[j - h] && u[j] == v;
        r, budget := GtU(ptr[j - h], v, d, block, quadrant, nblock, budget);
      }
    }
    ghost var now := ptr[..];
    ghost var u := now[j := v];
    ptr[j] := v;
    assert ptr[..] == u;
    if h == 1 && Ordered(s, e, lo, i) {
      SinkEnd(s, now, e, lo, j, i, v);
    }
  }

  /** One pass with gap `h`. After every third insertion the budget is looked at. */
  method GapPass(ptr: array<int>, block: array<int>, quadrant: array<UInt16>, nblock: nat, lo: int, hi: int, h: int,
                 d: nat, budget0: int) returns (budget: int, abandoned: bool)
    requires ptr != block && ptr.Length >= nblock
    requires Consistent(block[..], quadrant[..], nblock) && d <= MAX_DEPTH && h >= 1
    requires 0 <= lo <= hi < ptr.Length && TiedTo(block[..nblock], ptr[..], lo, hi + 1, d)
    modifies ptr
    ensures Charged(block[..nblock], d, budget0, budget) && (abandoned ==> budget < 0) && SegPerm(old(ptr[..]), ptr[..], lo, hi + 1)
    ensures h == 1 && !abandoned ==> Ordered(ptr[..], Ranks(block[..nblock]), lo, hi + 1)
  {
    hide SegPerm, Ordered, Ranks, Truthful, Repeats, TiedTo, Repetitive;
    Sizes(block[..], quadrant[..], nblock);
    ghost var s, b := ptr[..], block[..nblock];
    SegPermRefl(s, lo, hi + 1);
    OrderedShort(s, Ranks(b), lo, lo + 1);
    budget, abandoned := budget0, false;
    var i, copies := lo + h, 0;
    while i <= hi
      invariant lo + h <= i && (i <= hi + 1 || i == lo + h) && Charged(b, d, budget0, budget)
      invariant SegPerm(s, ptr[..], lo, hi + 1)
      invariant h == 1 ==> Ordered(ptr[..], Ranks(b), lo, i)
      decreases hi - i
    {
      ghost var t := ptr[..];
      TiedKept(b, s, t, lo, hi + 1, d);
      budget := Insert(ptr, block, quadrant, nblock, lo, i, hi + 1, h, d, budget);
      SegPermTrans(s, t, ptr[..], lo, hi + 1);
      i, copies := i + 1, copies + 1;
      if copies == 3 {
        if budget < 0 { return budget, true; }
        copies := 0;
      }
    }
  }

  /** Knuth's increments. */
  const INCS: seq<int> := [1, 4, 13, 40, 121, 364, 1093, 3280, 9841, 29524, 88573, 265720, 797161, 2391484]

  method MainSimpleSort(ptr: array<int>, block: array<int>, quadrant: array<UInt16>, nblock: nat, lo: int, hi: int,
                        d: nat, budget0: int) returns (budget: int)
    requires ptr != block && ptr.Length >= nblock
    requires Consistent(block[..], quadrant[..], nblock) && d <= MAX_DEPTH
    requires 0 <= lo <= hi + 1 <= ptr.Length && hi - lo < 2391484 && TiedTo(block[..nblock], ptr[..], lo, hi + 1, d)
    modifies ptr
    ensures Charged(block[..nblock], d, budget0, budget) && SegPerm(old(ptr[..]), ptr[..], lo, hi + 1)
    ensures budget >= 0 ==> Ordered(ptr[..], Ranks(block[..nblock]), lo, hi + 1)
  {
    hide SegPerm, Ordered, Ranks, Truthful, Repeats, TiedTo, Repetitive;
    Sizes(block[..], quadrant[..], nblock);
    ghost var s, b := ptr[..], block[..nblock];
    SegPermRefl(s, lo, hi + 1);
    budget := budget0;
    var bigN := hi - lo + 1;
    if bigN < 2 {
      OrderedShort(s, Ranks(b), lo, hi + 1);
      return;
    }
    var hp := 0;
    while INCS[hp] < bigN
      invariant 0 <= hp < |INCS| && (hp > 0 ==> INCS[hp - 1] < bigN)
      decreases |INCS| - hp
    {
      hp := hp + 1;
    }
    hp := hp - 1;
    while hp >= 0
      invariant -1 <= hp < |INCS| && Charged(b, d, budget0, budget) && SegPerm(s, ptr[..], lo, hi + 1)
      invariant hp == -1 ==> Ordered(ptr[..], Ranks(b), lo, hi + 1)
    {
      ghost var t := ptr[..];
      TiedKept(b, s, t, lo, hi + 1, d);
      var abandoned;
      budget, abandoned := GapPass(ptr, block, quadrant, nblock, lo, hi, INCS[hp], d, budget);
      SegPermTrans(s, t, ptr[..], lo, hi + 1);
      if abandoned { return; }
      hp := hp - 1;
    }
  }

  // ----- mainQSort3

  /** The byte `d` places after a rotation's start. */
  lemma ByteThere(block: seq<int>, quadrant: seq<UInt16>, n: nat, v: int, d: nat)
    requires Consistent(block, quadrant, n) && 0 <= v < n && d <= MAX_DEPTH
    ensures |block| == n + N_OVERSHOOT && Key(block[d..], v) == block[..n][Adv(v, d, n)]
  {
    Sizes(block, quadrant, n);
    AdvValue(v, d, n);
    Cells(block, n, v + d);
  }

  /** Of two rotations that agree in their first `d` bytes, the next byte decides, or they agree in it too. */
  lemma NextByte(block: seq<int>, quadrant: seq<UInt16>, n: nat, v: int, w: int, d: nat)
    requires Consistent(block, quadrant, n) && 0 <= v < n && 0 <= w < n && d <= MAX_DEPTH && Cmp(block[..n], v, w, d) == 0
    ensures Key(block[d..], v) < Key(block[d..], w) ==> Key(Ranks(block[..n]), v) < Key(Ranks(block[..n]), w)
    ensures Key(block[d..], v) == Key(block[d..], w) ==> Cmp(block[..n], v, w, d + 1) == 0
  {
    hide Key, Ranks, Consistent;
    Sizes(block, quadrant, n);
    var b := block[..n];
    ByteThere(block, quadrant, n, v, d);
    ByteThere(block, quadrant, n, w, d);
    var x, y := Adv(v, d, n), Adv(w, d, n);
    CmpSplit(b, v, w, d, 1);
    CmpSplit(b, v, w, d, n);
    DeeperIsSame(b, v, w, d + n);
    OneByte(b, x, y);
    RankOrder(b, v, w);
  }

  lemma OneByte(b: seq<int>, x: int, y: int)
    requires 0 <= x < |b| && 0 <= y < |b|
    ensures b[x] == b[y] ==> Cmp(b, x, y, 1) == 0
    ensures b[x] < b[y] ==> Cmp(b, x, y, |b|) < 0
  {
  }

  /** After partitioning at depth `d`: smaller rotations up to `n`, greater ones from `m`, and between them rotations
      that agree in one byte more. */
  ghost predicate Spread(b: seq<int>, f: seq<int>, lo: int, n: int, m: int, hi: int, d: nat) {
    && 0 <= lo && lo - 1 <= n && n + 2 <= m <= hi + 1 <= |f|
    && (forall p, q :: lo <= p <= n < q <= hi ==> Key(Ranks(b), f[p]) <= Key(Ranks(b), f[q]))
    && (forall p, q :: lo <= p < m <= q <= hi ==> Key(Ranks(b), f[p]) <= Key(Ranks(b), f[q]))
    && TiedTo(b, f, lo, n + 1, d) && TiedTo(b, f, n + 1, m, d + 1) && TiedTo(b, f, m, hi + 1, d)
  }

  lemma PartedSpread(block: seq<int>, quadrant: seq<UInt16>, nb: nat, f: seq<int>, med: int, lo: int, n: int, m: int, hi: int, d: nat)
    requires Consistent(block, quadrant, nb) && d <= MAX_DEPTH && TiedTo(block[..nb], f, lo, hi + 1, d) && d <= |block|
    requires Parted(f, block[d..], med, lo, n, m, hi)
    ensures Spread(block[..nb], f, lo, n, m, hi, d)
  {
    hide Key, Ranks, Cmp, Consistent;
    Sizes(block, quadrant, nb);
    var b := block[..nb];
    forall p, q | lo <= p <= hi && lo <= q <= hi
      ensures Key(block[d..], f[p]) < Key(block[d..], f[q]) ==> Key(Ranks(b), f[p]) < Key(Ranks(b), f[q])
      ensures Key(block[d..], f[p]) == Key(block[d..], f[q]) ==> Cmp(b, f[p], f[q], d + 1) == 0
    {
      TiedPair(b, f, lo, hi + 1, d, p, q);
      NextByte(block, quadrant, nb, f[p], f[q], d);
    }
  }

  lemma TiedDeeper(block: seq<int>, quadrant: seq<UInt16>, nb: nat, f: seq<int>, med: int, lo: int, hi: int, d: nat)
    requires Consistent(block, quadrant, nb) && d <= MAX_DEPTH && TiedTo(block[..nb], f, lo, hi, d) && d <= |block|
    requires forall p :: lo <= p < hi ==> Key(block[d..], f[p]) == med
    ensures TiedTo(block[..nb], f, lo, hi, d + 1)
  {
    hide Key, Ranks, Cmp, Consistent;
    Sizes(block, quadrant, nb);
    forall p, q | lo <= p < hi && lo <= q < hi ensures Cmp(block[..nb], f[p], f[q], d + 1) == 0 {
      TiedPair(block[..nb], f, lo, hi, d, p, q);
      NextByte(block, quadrant, nb, f[p], f[q], d);
    }
  }

  /** mmed3: the median, always one of the three. */
  function Mmed3(x: int, y: int, z: int): (r: int)
    ensures r == x || r == y || r == z
  {
    var a, b := if x > y then y else x, if x > y then x else y;
    if b > z then (if a > z then a else z) else b
  }

  /** What becomes of a stretch taken off the stack. */
  datatype Fate = InOrder | Deeper | Parts(n: int, m: int)

  method SortStretch(ptr: array<int>, block: array<int>, quadrant: array<UInt16>, nblock: nat, lo: int, hi: int,
                     d: nat, budget0: int) returns (budget: int, fate: Fate)
    requires ptr != block && ptr.Length >= nblock
    requires Consistent(block[..], quadrant[..], nblock) && d <= MAX_DEPTH
    requires 0 <= lo <= hi + 1 <= ptr.Length && hi - lo < 2391484 && TiedTo(block[..nblock], ptr[..], lo, hi + 1, d)
    modifies ptr
    ensures Charged(block[..nblock], d, budget0, budget) && SegPerm(old(ptr[..]), ptr[..], lo, hi + 1)
    ensures !fate.InOrder? ==> budget == budget0 && hi - lo >= MAIN_SMALL_THRESH && d <= DEPTH_THRESH
    ensures fate.InOrder? && budget >= 0 ==> Ordered(ptr[..], Ranks(block[..nblock]), lo, hi + 1)
    ensures fate.Deeper? ==> TiedTo(block[..nblock], ptr[..], lo, hi + 1, d + 1)
    ensures fate.Parts? ==> Spread(block[..nblock], ptr[..], lo, fate.n, fate.m, hi, d)
  {
    hide SegPerm, Ordered, Ranks, Truthful, Repeats, TiedTo, Repetitive, Parted, Spread, Key;
    if hi - lo < MAIN_SMALL_THRESH || d > DEPTH_THRESH {
      budget := MainSimpleSort(ptr, block, quadrant, nblock, lo, hi, d, budget0);
      return budget, InOrder;
    }
    Sizes(block[..], quadrant[..], nblock);
    ghost var s, b := ptr[..], block[..nblock];
    assert block[..][..nblock] == b && block[..][d..] == block[d..];
    budget := budget0;
    var med, w := Pivot(ptr, block, quadrant, nblock, lo, hi, d);
    TiedRange(b, s, lo, hi + 1, d, block.Length - d);
    var allEqual, n, m := Partition(ptr, block, d, med, lo, hi, w);
    TiedKept(b, s, ptr[..], lo, hi + 1, d);
    if allEqual {
      TiedDeeper(block[..], quadrant[..], nblock, ptr[..], med, lo, hi + 1, d);
      fate := Deeper;
    } else {
      PartedSpread(block[..], quadrant[..], nblock, ptr[..], med, lo, n, m, hi, d);
      fate := Parts(n, m);
    }
  }

  lemma TiedRange(b: seq<int>, f: seq<int>, lo: int, hi: int, d: nat, m: int)
    requires TiedTo(b, f, lo, hi, d) && m >= |b|
    ensures InRange(f, m, lo, hi)
  {
  }

  /** The median of the bytes of the first, the last and the middle entry. */
  method Pivot(ptr: array<int>, block: array<int>, ghost quadrant: array<UInt16>, nblock: nat, lo: int, hi: int, d: nat)
    returns (med: int, ghost w: int)
    requires Consistent(block[..], quadrant[..], nblock) && d <= MAX_DEPTH
    requires 0 <= lo <= hi < ptr.Length && TiedTo(block[..nblock], ptr[..], lo, hi + 1, d)
    ensures d <= block.Length && lo <= w <= hi && Key(block[d..], ptr[w]) == med
  {
    hide Truthful, Repeats;
    Sizes(block[..], quadrant[..], nblock);
    var mid := (lo + hi) / 2;
    TiedPair(block[..nblock], ptr[..], lo, hi + 1, d, lo, hi);
    TiedPair(block[..nblock], ptr[..], lo, hi + 1, d, mid, hi);
    med := Mmed3(block[ptr[lo] + d], block[ptr[hi] + d], block[ptr[mid] + d]);
    w := if med == block[ptr[lo] + d] then lo else if med == block[ptr[hi] + d] then hi else mid;
  }

  // ----- the stack

  /** Every stacked stretch is tied to its depth. */
  ghost predicate AllTied(b: seq<int>, f: seq<int>, st: seq<Range>, ds: seq<nat>) {
    && |st| == |ds|
    && forall k :: 0 <= k < |st| ==> ds[k] <= MAX_DEPTH && TiedTo(b, f, st[k].0, st[k].1 + 1, ds[k])
  }

  lemma Apart(st: seq<Range>, x: Range, f: seq<int>, e: seq<int>, loSt: int, hiSt: int)
    requires Pending(st + [x], f, e, loSt, hiSt)
    ensures forall k :: 0 <= k < |st| ==> st[k].1 < x.0 || x.1 < st[k].0
  {
    var st1 := st + [x];
    forall k | 0 <= k < |st| ensures st[k].1 < x.0 || x.1 < st[k].0 {
      assert st1[k] == st[k] && st1[|st|] == x;
      assert st1[k].1 < st1[|st|].0 || st1[|st|].1 < st1[k].0;
    }
  }

  /** Rearranging the popped stretch leaves the others as they were. */
  lemma TiedOthers(b: seq<int>, f: seq<int>, g: seq<int>, st: seq<Range>, ds: seq<nat>, x: Range, d: nat)
    requires AllTied(b, f, st + [x], ds + [d]) && SegPerm(f, g, x.0, x.1 + 1) && |st| == |ds|
    requires forall k :: 0 <= k < |st| ==> st[k].1 < x.0 || x.1 < st[k].0
    ensures AllTied(b, g, st, ds)
  {
    hide Cmp;
    forall k | 0 <= k < |st| ensures ds[k] <= MAX_DEPTH && TiedTo(b, g, st[k].0, st[k].1 + 1, ds[k]) {
      assert (st + [x])[k] == st[k] && (ds + [d])[k] == ds[k];
      assert TiedTo(b, f, st[k].0, st[k].1 + 1, ds[k]);
      assert forall p :: st[k].0 <= p < st[k].1 + 1 ==> g[p] == f[p];
    }
  }

  lemma TiedTop(b: seq<int>, f: seq<int>, st: seq<Range>, ds: seq<nat>, x: Range, d: nat)
    requires AllTied(b, f, st + [x], ds + [d]) && |st| == |ds|
    ensures d <= MAX_DEPTH && TiedTo(b, f, x.0, x.1 + 1, d)
  {
    assert (st + [x])[|st|] == x && (ds + [d])[|ds|] == d;
  }

  lemma TiedPush(b: seq<int>, f: seq<int>, st: seq<Range>, ds: seq<nat>, x: Range, d: nat)
    requires AllTied(b, f, st, ds) && d <= MAX_DEPTH && TiedTo(b, f, x.0, x.1 + 1, d)
    ensures AllTied(b, f, st + [x], ds + [d])
  {
    hide TiedTo;
  }

  /** A rearranged stretch that stays on the stack. */
  lemma PopSame(st: seq<Range>, lo: int, hi: int, f: seq<int>, g: seq<int>, e: seq<int>, loSt: int, hiSt: int)
    requires Pending(st + [(lo, hi)], f, e, loSt, hiSt) && SegPerm(f, g, lo, hi + 1)
    ensures Pending(st + [(lo, hi)], g, e, loSt, hiSt)
  {
    hide Key;
    var st1 := st + [(lo, hi)];
    assert st1[|st|] == (lo, hi);
    forall p, q | loSt <= p < q <= hiSt ensures Key(e, g[p]) <= Key(e, g[q]) || Together(st1, p, q) {
      if lo <= p && q <= hi {
        assert st1[|st|].0 <= p && q <= st1[|st|].1;
      } else {
        PopOthers(st, lo, hi, f, g, e, loSt, hiSt, p, q);
        if Together(st, p, q) { TogetherMore(st, [(lo, hi)], p, q); }
      }
    }
  }

  lemma TogetherMore(st: seq<Range>, more: seq<Range>, p: int, q: int)
    requires Together(st, p, q)
    ensures Together(st + more, p, q)
  {
    var k :| 0 <= k < |st| && st[k].0 <= p && q <= st[k].1;
    assert (st + more)[k] == st[k];
  }

  /** Three stretches in any order. */
  ghost predicate Shuffled(x: Range, y: Range, z: Range, a: Range, b: Range, c: Range) {
    || (x == a && y == b && z == c) || (x == a && y == c && z == b) || (x == b && y == a && z == c)
    || (x == b && y == c && z == a) || (x == c && y == a && z == b) || (x == c && y == b && z == a)
  }

  /** The popped stretch is replaced by its three parts. */
  lemma PopSpread(st: seq<Range>, lo: int, hi: int, f: seq<int>, g: seq<int>, b: seq<int>, loSt: int, hiSt: int,
                  n: int, m: int, d: nat, x: Range, y: Range, z: Range)
    requires Pending(st + [(lo, hi)], f, Ranks(b), loSt, hiSt) && SegPerm(f, g, lo, hi + 1)
    requires Spread(b, g, lo, n, m, hi, d) && Shuffled(x, y, z, (lo, n), (m, hi), (n + 1, m - 1))
    ensures Pending(st + [x, y, z], g, Ranks(b), loSt, hiSt)
  {
    hide Key, Ranks, TiedTo;
    var e, st1, st2 := Ranks(b), st + [(lo, hi)], st + [x, y, z];
    Apart(st, (lo, hi), f, e, loSt, hiSt);
    assert st1[|st|] == (lo, hi);
    assert st2[|st|] == x && st2[|st| + 1] == y && st2[|st| + 2] == z;
    assert forall k :: 0 <= k < |st| ==> st[k] == st1[k] == st2[k];
    forall p, q | loSt <= p < q <= hiSt ensures Key(e, g[p]) <= Key(e, g[q]) || Together(st2, p, q) {
      if lo <= p && q <= hi {
        if !(p <= n < q) && !(p < m <= q) { InOnePart(st, lo, n, m, hi, x, y, z, p, q); }
      } else {
        PopOthers(st, lo, hi, f, g, e, loSt, hiSt, p, q);
        if Together(st, p, q) { TogetherMore(st, [x, y, z], p, q); }
      }
    }
  }

  lemma InOnePart(st: seq<Range>, lo: int, n: int, m: int, hi: int, x: Range, y: Range, z: Range, p: int, q: int)
    requires Shuffled(x, y, z, (lo, n), (m, hi), (n + 1, m - 1)) && lo <= p < q <= hi && n < m
    requires !(p <= n < q) && !(p < m <= q)
    ensures Together(st + [x, y, z], p, q)
  {
    var st2, k := st + [x, y, z], |st|;
    assert st2[k] == x && st2[k + 1] == y && st2[k + 2] == z;
    assert (x.0 <= p && q <= x.1) || (y.0 <= p && q <= y.1) || (z.0 <= p && q <= z.1);
  }

  /** What an entry's size is multiplied with at place `k` of the stack: of three parts in descending order, the second
      has at most half and the third at most a third of the elements. */
  ghost function Weight(k: nat): (w: nat)
    ensures w >= 2
  {
    if k == 0 then 2 else if k == 1 then 3 else 3 * Weight(k - 2)
  }

  lemma {:induction false} WeightSteps(k: nat)
    ensures Weight(k) <= Weight(k + 1) <= 2 * Weight(k) && Weight(k + 2) == 3 * Weight(k)
  {
    if k > 1 { WeightSteps(k - 2); }
  }

  lemma {:induction false} WeightMono(j: nat, k: nat)
    requires j <= k
    ensures Weight(j) <= Weight(k)
    decreases k
  {
    if j < k {
      WeightMono(j, k - 1);
      WeightSteps(k - 1);
    }
  }

  ghost function Size(r: Range): int { r.1 - r.0 + 1 }

  ghost predicate FitsAt(r: Range, k: nat, total: nat) { Size(r) * Weight(k) <= 2 * total }

  ghost predicate Thinning(st: seq<Range>, total: nat) {
    |st| <= 24 && forall k :: 0 <= k < |st| ==> FitsAt(st[k], k, total)
  }

  /** A long stretch never stands high on the stack. */
  lemma LongIsLow(r: Range, k: nat, total: nat)
    requires FitsAt(r, k, total) && Size(r) > MAIN_SMALL_THRESH && total <= 2391484
    ensures k <= 21
  {
    if k >= 22 {
      WeightValue();
      WeightMono(22, k);
      MulLe(MAIN_SMALL_THRESH + 1, Size(r), Weight(k));
    }
  }

  lemma WeightValue()
    ensures Weight(22) == 354294
  {
    assert Weight(4) == 18 && Weight(8) == 162 && Weight(12) == 1458 && Weight(16) == 13122 && Weight(20) == 118098;
  }

  lemma FitsParts(r: Range, x: Range, y: Range, z: Range, k: nat, total: nat)
    requires FitsAt(r, k, total) && Size(x) <= Size(r) && 2 * Size(y) <= Size(r) && 3 * Size(z) <= Size(r)
    requires 0 <= Size(y) && 0 <= Size(z)
    ensures FitsAt(x, k, total) && FitsAt(y, k + 1, total) && FitsAt(z, k + 2, total)
  {
    hide Size, Weight;
    WeightSteps(k);
    var w, u := Weight(k), Weight(k + 1);
    MulLe(Size(x), Size(r), w);
    MulLe(2 * Size(y), Size(r), w);
    MulLe(3 * Size(z), Size(r), w);
    MulLe(u, 2 * w, Size(y));
    assert Size(y) * u == u * Size(y) && (2 * w) * Size(y) == (2 * Size(y)) * w;
    assert Size(z) * (3 * w) == (3 * Size(z)) * w;
  }

  lemma ThinTop(st: seq<Range>, r: Range, total: nat)
    requires Thinning(st + [r], total)
    ensures FitsAt(r, |st|, total) && Thinning(st, total)
  {
    hide FitsAt;
    assert (st + [r])[|st|] == r && forall k :: 0 <= k < |st| ==> (st + [r])[k] == st[k];
  }

  lemma ThinPush(st: seq<Range>, x: Range, total: nat)
    requires Thinning(st, total) && |st| < 24 && FitsAt(x, |st|, total)
    ensures Thinning(st + [x], total)
  {
    hide FitsAt;
  }

  /** How many bytes deeper a stretch can go. */
  ghost function Left(d: nat): int { MAX_DEPTH + 1 - d }

  /** What is still to be done: every round either finishes a stretch, or takes at least one rotation one byte deeper. */
  ghost function Todo(st: seq<Range>, ds: seq<nat>): int
    requires |st| == |ds|
  {
    if st == [] then 0
    else Todo(st[..|st| - 1], ds[..|ds| - 1]) + Size(st[|st| - 1]) * Left(ds[|ds| - 1])
  }

  lemma {:induction false} TodoPush(st: seq<Range>, ds: seq<nat>, x: Range, d: nat)
    requires |st| == |ds|
    ensures Todo(st + [x], ds + [d]) == Todo(st, ds) + Size(x) * Left(d)
  {
    assert (st + [x])[..|st|] == st && (ds + [d])[..|ds|] == ds;
  }

  lemma {:induction false} TodoNatural(b: seq<int>, f: seq<int>, st: seq<Range>, ds: seq<nat>)
    requires AllTied(b, f, st, ds) && forall k :: 0 <= k < |st| ==> Size(st[k]) >= 0
    ensures Todo(st, ds) >= 0
    decreases |st|
  {
    hide TiedTo;
    if st != [] {
      var q, c := st[..|st| - 1], ds[..|ds| - 1];
      assert forall k :: 0 <= k < |q| ==> q[k] == st[k] && c[k] == ds[k];
      assert AllTied(b, f, q, c);
      TodoNatural(b, f, q, c);
      assert Size(st[|st| - 1]) * Left(ds[|ds| - 1]) >= 0 by { MulLe(0, Size(st[|st| - 1]), Left(ds[|ds| - 1])); }
    }
  }

  /** A stretch and its depth. */
  datatype Entry = Entry(lo: int, hi: int, d: nat) {
    function Range(): Range { (lo, hi) }

    function NextSize(): int { hi - lo }
  }

  /** Three parts, the largest first: the mnextswap sequence. */
  method LargestFirst(a: Entry, b: Entry, c: Entry) returns (x: Entry, y: Entry, z: Entry)
    ensures x.NextSize() >= y.NextSize() >= z.NextSize()
    ensures (x, y, z) == (a, b, c) || (x, y, z) == (a, c, b) || (x, y, z) == (b, a, c)
            || (x, y, z) == (b, c, a) || (x, y, z) == (c, a, b) || (x, y, z) == (c, b, a)
  {
    x, y, z := a, b, c;
    if x.NextSize() < y.NextSize() { x, y := y, x; }
    if y.NextSize() < z.NextSize() { y, z := z, y; }
    if x.NextSize() < y.NextSize() { x, y := y, x; }
  }

  /** What holds between two rounds: the listing `f` is a rearrangement of `s`, and everything out of order, tied to
      some depth, is on the stack. */
  ghost predicate Progress(b: seq<int>, s: seq<int>, f: seq<int>, st: seq<Range>, ds: seq<nat>, loSt: int, hiSt: int) {
    && SegPerm(s, f, loSt, hiSt + 1) && Pending(st, f, Ranks(b), loSt, hiSt) && AllTied(b, f, st, ds)
    && Thinning(st, hiSt - loSt + 1) && Todo(st, ds) >= 0
  }

  lemma ProgressStart(b: seq<int>, s: seq<int>, loSt: int, hiSt: int, d: nat)
    requires 0 <= loSt <= hiSt < |s| && TiedTo(b, s, loSt, hiSt + 1, d) && d <= MAX_DEPTH
    ensures Progress(b, s, s, [(loSt, hiSt)], [d], loSt, hiSt)
  {
    hide TiedTo, Ranks, Key, SegPerm, Pending, AllTied, Thinning, Todo, Size, Left;
    SegPermRefl(s, loSt, hiSt + 1);
    PendingInit(s, Ranks(b), loSt, hiSt);
    NothingStacked(b, s, (loSt, hiSt));
    TiedPush(b, s, [], [], (loSt, hiSt), d);
    assert [] + [(loSt, hiSt)] == [(loSt, hiSt)] && [] + [d] == [d];
    ThinPush([], (loSt, hiSt), hiSt - loSt + 1);
    TodoPush([], [], (loSt, hiSt), d);
    CostNatural((loSt, hiSt), d);
  }

  lemma NothingStacked(b: seq<int>, s: seq<int>, x: Range)
    requires x.0 <= x.1
    ensures AllTied(b, s, [], []) && Thinning([], x.1 - x.0 + 1) && Todo([], []) == 0 && FitsAt(x, 0, x.1 - x.0 + 1)
  {
    assert Weight(0) == 2;
  }

  lemma CostNatural(x: Range, d: nat)
    requires d <= MAX_DEPTH && x.0 <= x.1 + 1
    ensures Size(x) * Left(d) >= 0
  {
    MulLe(0, Size(x), Left(d));
  }

  lemma ProgressEnd(b: seq<int>, s: seq<int>, f: seq<int>, loSt: int, hiSt: int)
    requires Progress(b, s, f, [], [], loSt, hiSt)
    ensures SegPerm(s, f, loSt, hiSt + 1) && Ordered(f, Ranks(b), loSt, hiSt + 1)
  {
    hide Ranks, Key;
    PendingDone(f, Ranks(b), loSt, hiSt);
  }

  /** What is known of the stretch taken off. */
  lemma ProgressTop(b: seq<int>, s: seq<int>, f: seq<int>, st: seq<Range>, ds: seq<nat>, x: Range, d: nat, loSt: int, hiSt: int)
    requires Progress(b, s, f, st + [x], ds + [d], loSt, hiSt) && |st| == |ds|
    ensures 0 <= loSt <= x.0 <= x.1 + 1 && x.1 <= hiSt < |f| && d <= MAX_DEPTH && TiedTo(b, f, x.0, x.1 + 1, d)
    ensures hiSt - loSt < 2391484 && Size(x) > MAIN_SMALL_THRESH ==> |st| <= 21
  {
    hide TiedTo, Ranks, Key, SegPerm;
    assert (st + [x])[|st|] == x;
    PendingTop(st, x.0, x.1, f, Ranks(b), loSt, hiSt);
    TiedTop(b, f, st, ds, x, d);
    ThinTop(st, x, hiSt - loSt + 1);
    if hiSt - loSt < 2391484 && Size(x) > MAIN_SMALL_THRESH { LongIsLow(x, |st|, hiSt - loSt + 1); }
  }

  lemma ProgressKept(b: seq<int>, s: seq<int>, f: seq<int>, g: seq<int>, st: seq<Range>, ds: seq<nat>, x: Range, d: nat,
                     loSt: int, hiSt: int)
    requires Progress(b, s, f, st + [x], ds + [d], loSt, hiSt) && |st| == |ds| && SegPerm(f, g, x.0, x.1 + 1)
    ensures SegPerm(s, g, loSt, hiSt + 1) && AllTied(b, g, st, ds) && Thinning(st, hiSt - loSt + 1) && FitsAt(x, |st|, hiSt - loSt + 1)
    ensures Todo(st + [x], ds + [d]) == Todo(st, ds) + Size(x) * Left(d)
    ensures |st| < 24 && forall k :: 0 <= k < |st| ==> Size(st[k]) >= 0
  {
    hide TiedTo, Ranks, Key, SegPerm, FitsAt, Pending, AllTied, Todo, Size, Left;
    ProgressTop(b, s, f, st, ds, x, d, loSt, hiSt);
    SegPermWiden(f, g, x.0, x.1 + 1, loSt, hiSt + 1);
    SegPermTrans(s, f, g, loSt, hiSt + 1);
    Apart(st, x, f, Ranks(b), loSt, hiSt);
    TiedOthers(b, f, g, st, ds, x, d);
    ThinTop(st, x, hiSt - loSt + 1);
    TodoPush(st, ds, x, d);
    PendingSizes(st, x, f, Ranks(b), loSt, hiSt);
  }

  lemma PendingSizes(st: seq<Range>, x: Range, f: seq<int>, e: seq<int>, loSt: int, hiSt: int)
    requires Pending(st + [x], f, e, loSt, hiSt)
    ensures forall k :: 0 <= k < |st| ==> Size(st[k]) >= 0
  {
    assert forall k :: 0 <= k < |st| ==> st[k] == (st + [x])[k];
  }

  lemma ProgressInOrder(b: seq<int>, s: seq<int>, f: seq<int>, g: seq<int>, st: seq<Range>, ds: seq<nat>, x: Range, d: nat,
                        loSt: int, hiSt: int)
    requires Progress(b, s, f, st + [x], ds + [d], loSt, hiSt) && |st| == |ds| && SegPerm(f, g, x.0, x.1 + 1)
    requires Ordered(g, Ranks(b), x.0, x.1 + 1)
    ensures Progress(b, s, g, st, ds, loSt, hiSt) && Todo(st, ds) <= Todo(st + [x], ds + [d])
  {
    hide TiedTo, Ranks, Key, SegPerm, FitsAt, Todo, Ordered;
    ProgressKept(b, s, f, g, st, ds, x, d, loSt, hiSt);
    ProgressTop(b, s, f, st, ds, x, d, loSt, hiSt);
    PopSorted(st, x.0, x.1, f, g, Ranks(b), loSt, hiSt);
    TodoNatural(b, g, st, ds);
    MulLe(0, Size(x), Left(d));
  }

  lemma ProgressDeeper(b: seq<int>, s: seq<int>, f: seq<int>, g: seq<int>, st: seq<Range>, ds: seq<nat>, x: Range, d: nat,
                       loSt: int, hiSt: int)
    requires Progress(b, s, f, st + [x], ds + [d], loSt, hiSt) && |st| == |ds| && SegPerm(f, g, x.0, x.1 + 1)
    requires TiedTo(b, g, x.0, x.1 + 1, d + 1) && d < MAX_DEPTH && x.0 <= x.1
    ensures Progress(b, s, g, st + [x], ds + [d + 1], loSt, hiSt)
    ensures Todo(st + [x], ds + [d + 1]) < Todo(st + [x], ds + [d])
  {
    hide TiedTo, Ranks, Key, SegPerm, FitsAt, Todo, Pending, AllTied, Thinning;
    ProgressTop(b, s, f, st, ds, x, d, loSt, hiSt);
    ProgressKept(b, s, f, g, st, ds, x, d, loSt, hiSt);
    assert x == (x.0, x.1);
    PopSame(st, x.0, x.1, f, g, Ranks(b), loSt, hiSt);
    TiedPush(b, g, st, ds, x, d + 1);
    ThinPush(st, x, hiSt - loSt + 1);
    TodoPush(st, ds, x, d + 1);
    TodoNatural(b, g, st, ds);
    CostNatural(x, d + 1);
    CostDeeper(x, d);
  }

  lemma CostDeeper(x: Range, d: nat)
    requires x.0 <= x.1
    ensures Size(x) * Left(d + 1) < Size(x) * Left(d)
  {
    assert Size(x) * Left(d) == Size(x) * Left(d + 1) + Size(x) by { assert Left(d) == Left(d + 1) + 1; }
  }

  /** The three entries are the parts, in any order. */
  ghost predicate ThreeParts(x: Entry, y: Entry, z: Entry, lo: int, n: int, m: int, hi: int, d: nat) {
    var a, b, c := Entry(lo, n, d), Entry(m, hi, d), Entry(n + 1, m - 1, d + 1);
    (x, y, z) == (a, b, c) || (x, y, z) == (a, c, b) || (x, y, z) == (b, a, c)
    || (x, y, z) == (b, c, a) || (x, y, z) == (c, a, b) || (x, y, z) == (c, b, a)
  }

  ghost function Cost(x: Entry): int { Size(x.Range()) * Left(x.d) }

  lemma PartsCost(x: Entry, y: Entry, z: Entry, lo: int, n: int, m: int, hi: int, d: nat)
    requires ThreeParts(x, y, z, lo, n, m, hi, d) && lo - 1 <= n && n + 2 <= m <= hi + 1 && d < MAX_DEPTH
    ensures 0 <= Cost(x) + Cost(y) + Cost(z) < Cost(Entry(lo, hi, d))
  {
    hide Cost;
    var a, b, c := Entry(lo, n, d), Entry(m, hi, d), Entry(n + 1, m - 1, d + 1);
    assert Cost(x) + Cost(y) + Cost(z) == Cost(a) + Cost(b) + Cost(c);
    CostSum(lo, n, m, hi, d);
  }

  lemma CostSum(lo: int, n: int, m: int, hi: int, d: nat)
    requires lo - 1 <= n && n + 2 <= m <= hi + 1 && d < MAX_DEPTH
    ensures 0 <= Cost(Entry(lo, n, d)) + Cost(Entry(m, hi, d)) + Cost(Entry(n + 1, m - 1, d + 1)) < Cost(Entry(lo, hi, d))
  {
    var s, t, u, w := n - lo + 1, hi - m + 1, m - n - 1, Left(d + 1);
    MulLe(0, s, w + 1);
    MulLe(0, t, w + 1);
    MulLe(0, u, w);
    assert (s + t + u) * (w + 1) == s * (w + 1) + t * (w + 1) + u * w + u;
  }

  lemma PartsSizes(x: Entry, y: Entry, z: Entry, lo: int, n: int, m: int, hi: int, d: nat)
    requires ThreeParts(x, y, z, lo, n, m, hi, d) && lo - 1 <= n && n + 2 <= m <= hi + 1
    requires x.NextSize() >= y.NextSize() >= z.NextSize()
    ensures var r := (lo, hi);
            && Size(x.Range()) <= Size(r) && 2 * Size(y.Range()) <= Size(r) && 3 * Size(z.Range()) <= Size(r)
            && 0 <= Size(y.Range()) && 0 <= Size(z.Range())
    ensures Shuffled(x.Range(), y.Range(), z.Range(), (lo, n), (m, hi), (n + 1, m - 1))
  {
  }

  lemma PartsTied(b: seq<int>, g: seq<int>, x: Entry, y: Entry, z: Entry, lo: int, n: int, m: int, hi: int, d: nat)
    requires ThreeParts(x, y, z, lo, n, m, hi, d) && Spread(b, g, lo, n, m, hi, d) && d < MAX_DEPTH
    ensures forall v :: v == x || v == y || v == z ==> v.d <= MAX_DEPTH && TiedTo(b, g, v.lo, v.hi + 1, v.d)
  {
    hide TiedTo, Ranks, Key;
  }

  /** The stack with the three parts on top. */
  ghost function With3(st: seq<Range>, x: Entry, y: Entry, z: Entry): (r: seq<Range>)
    ensures |r| == |st| + 3
  {
    st + [x.Range(), y.Range(), z.Range()]
  }

  ghost function Depths3(ds: seq<nat>, x: Entry, y: Entry, z: Entry): seq<nat> { ds + [x.d, y.d, z.d] }

  lemma PartsPushed(b: seq<int>, g: seq<int>, st: seq<Range>, ds: seq<nat>, x: Entry, y: Entry, z: Entry, total: nat)
    requires AllTied(b, g, st, ds) && Thinning(st, total) && |st| <= 21
    requires forall v :: v == x || v == y || v == z ==> v.d <= MAX_DEPTH && TiedTo(b, g, v.lo, v.hi + 1, v.d)
    requires FitsAt(x.Range(), |st|, total) && FitsAt(y.Range(), |st| + 1, total) && FitsAt(z.Range(), |st| + 2, total)
    ensures AllTied(b, g, With3(st, x, y, z), Depths3(ds, x, y, z)) && Thinning(With3(st, x, y, z), total)
    ensures Todo(With3(st, x, y, z), Depths3(ds, x, y, z)) == Todo(st, ds) + (Cost(x) + Cost(y) + Cost(z))
  {
    hide TiedTo, FitsAt, Todo, AllTied, Thinning;
    var s1, d1 := st + [x.Range()], ds + [x.d];
    var s2, d2 := s1 + [y.Range()], d1 + [y.d];
    assert |st| == |ds| by { TiedLength(b, g, st, ds); }
    assert With3(st, x, y, z) == s2 + [z.Range()] && Depths3(ds, x, y, z) == d2 + [z.d];
    TiedPush(b, g, st, ds, x.Range(), x.d);
    TiedPush(b, g, s1, d1, y.Range(), y.d);
    TiedPush(b, g, s2, d2, z.Range(), z.d);
    ThinPush(st, x.Range(), total);
    ThinPush(s1, y.Range(), total);
    ThinPush(s2, z.Range(), total);
    TodoPush(st, ds, x.Range(), x.d);
    TodoPush(s1, d1, y.Range(), y.d);
    TodoPush(s2, d2, z.Range(), z.d);
  }

  lemma TiedLength(b: seq<int>, g: seq<int>, st: seq<Range>, ds: seq<nat>)
    requires AllTied(b, g, st, ds)
    ensures |st| == |ds|
  {
  }

  lemma ProgressParts(b: seq<int>, s: seq<int>, f: seq<int>, g: seq<int>, st: seq<Range>, ds: seq<nat>, r: Range, d: nat,
                      loSt: int, hiSt: int, n: int, m: int, x: Entry, y: Entry, z: Entry)
    requires Progress(b, s, f, st + [r], ds + [d], loSt, hiSt) && |st| == |ds| && SegPerm(f, g, r.0, r.1 + 1)
    requires Spread(b, g, r.0, n, m, r.1, d) && d < MAX_DEPTH && |st| <= 21
    requires ThreeParts(x, y, z, r.0, n, m, r.1, d) && x.NextSize() >= y.NextSize() >= z.NextSize()
    ensures Progress(b, s, g, With3(st, x, y, z), Depths3(ds, x, y, z), loSt, hiSt)
    ensures Todo(With3(st, x, y, z), Depths3(ds, x, y, z)) < Todo(st + [r], ds + [d])
  {
    hide TiedTo, Ranks, Key, SegPerm, FitsAt, Todo, Pending, Size, AllTied, Thinning, Cost, ThreeParts, Shuffled, Spread, With3,
         Depths3;
    SpreadBounds(b, g, r.0, n, m, r.1, d);
    assert r == (r.0, r.1);
    ProgressTop(b, s, f, st, ds, r, d, loSt, hiSt);
    ProgressKept(b, s, f, g, st, ds, r, d, loSt, hiSt);
    PartsSizes(x, y, z, r.0, n, m, r.1, d);
    PartsTied(b, g, x, y, z, r.0, n, m, r.1, d);
    PopSpread(st, r.0, r.1, f, g, b, loSt, hiSt, n, m, d, x.Range(), y.Range(), z.Range());
    FitsParts(r, x.Range(), y.Range(), z.Range(), |st|, hiSt - loSt + 1);
    PartsPushed(b, g, st, ds, x, y, z, hiSt - loSt + 1);
    PartsCost(x, y, z, r.0, n, m, r.1, d);
    TodoNatural(b, g, st, ds);
    CostOf(r, d);
    assert With3(st, x, y, z) == st + [x.Range(), y.Range(), z.Range()] by { With3Is(st, x, y, z); }
  }

  lemma With3Is(st: seq<Range>, x: Entry, y: Entry, z: Entry)
    ensures With3(st, x, y, z) == st + [x.Range(), y.Range(), z.Range()]
  {
  }

  lemma SpreadBounds(b: seq<int>, f: seq<int>, lo: int, n: int, m: int, hi: int, d: nat)
    requires Spread(b, f, lo, n, m, hi, d)
    ensures 0 <= lo && lo - 1 <= n && n + 2 <= m <= hi + 1 <= |f|
  {
  }

  lemma CostOf(r: Range, d: nat)
    ensures Cost(Entry(r.0, r.1, d)) == Size(r) * Left(d)
  {
  }

  /** The three stack arrays hold the entries. */
  ghost predicate Held(los: seq<int>, his: seq<int>, dps: seq<int>, st: seq<Range>, ds: seq<nat>) {
    && |los| == |his| == |dps| == STACK_SIZE && |st| == |ds| <= STACK_SIZE
    && forall k :: 0 <= k < |st| ==> (los[k], his[k]) == st[k] && dps[k] == ds[k]
  }

  /** The mpush macro. */
  method Push(stackLo: array<int>, stackHi: array<int>, stackD: array<int>, sp: nat, x: Entry, ghost st: seq<Range>, ghost ds: seq<nat>)
    requires stackLo != stackHi && stackLo != stackD && stackHi != stackD && sp == |st| < STACK_SIZE
    requires Held(stackLo[..], stackHi[..], stackD[..], st, ds)
    modifies stackLo, stackHi, stackD
    ensures Held(stackLo[..], stackHi[..], stackD[..], st + [x.Range()], ds + [x.d])
  {
    stackLo[sp], stackHi[sp], stackD[sp] := x.lo, x.hi, x.d;
  }

  method Push3(stackLo: array<int>, stackHi: array<int>, stackD: array<int>, sp: nat, x: Entry, y: Entry, z: Entry,
               ghost st: seq<Range>, ghost ds: seq<nat>)
    requires stackLo != stackHi && stackLo != stackD && stackHi != stackD && sp == |st| < STACK_SIZE - 2
    requires Held(stackLo[..], stackHi[..], stackD[..], st, ds)
    modifies stackLo, stackHi, stackD
    ensures Held(stackLo[..], stackHi[..], stackD[..], With3(st, x, y, z), Depths3(ds, x, y, z))
  {
    hide Held;
    Push(stackLo, stackHi, stackD, sp, x, st, ds);
    Push(stackLo, stackHi, stackD, sp + 1, y, st + [x.Range()], ds + [x.d]);
    Push(stackLo, stackHi, stackD, sp + 2, z, st + [x.Range()] + [y.Range()], ds + [x.d] + [y.d]);
    assert st + [x.Range()] + [y.Range()] + [z.Range()] == With3(st, x, y, z);
    assert ds + [x.d] + [y.d] + [z.d] == Depths3(ds, x, y, z);
  }

  lemma HeldTop(los: seq<int>, his: seq<int>, dps: seq<int>, st: seq<Range>, ds: seq<nat>, sp: nat)
    requires Held(los, his, dps, st, ds) && sp + 1 == |st|
    ensures |los| == |his| == |dps| == STACK_SIZE && sp < STACK_SIZE && |ds| == sp + 1 && dps[sp] >= 0
    ensures st == st[..sp] + [(los[sp], his[sp])] && ds == ds[..sp] + [ds[sp]] && ds[sp] == dps[sp]
    ensures Held(los, his, dps, st[..sp], ds[..sp])
  {
  }

  lemma HeldNone(los: seq<int>, his: seq<int>, dps: seq<int>)
    requires |los| == |his| == |dps| == STACK_SIZE
    ensures Held(los, his, dps, [], [])
  {
  }

  lemma StackLow(b: seq<int>, s: seq<int>, f: seq<int>, st: seq<Range>, ds: seq<nat>, loSt: int, hiSt: int)
    requires Progress(b, s, f, st, ds, loSt, hiSt)
    ensures |st| == |ds| && |st| <= 24 && Todo(st, ds) >= 0
  {
    hide Pending, SegPerm;
  }

  /** No stretch is tied to less than the whole was. */
  ghost predicate NoneAbove(ds: seq<nat>, d: nat) {
    forall k :: 0 <= k < |ds| ==> ds[k] >= d
  }

  lemma NoneAboveStart(d: nat)
    ensures NoneAbove([d], d)
  {
  }

  lemma NoneAboveKept(ds: seq<nat>, d0: nat, d: nat, x: Entry, y: Entry, z: Entry)
    requires NoneAbove(ds + [d], d0)
    ensures NoneAbove(ds, d0) && d >= d0 && NoneAbove(ds + [d + 1], d0)
    ensures x.d >= d && y.d >= d && z.d >= d ==> NoneAbove(Depths3(ds, x, y, z), d0)
  {
    assert (ds + [d])[|ds|] == d;
    forall k | 0 <= k < |ds| ensures ds[k] >= d0 { assert (ds + [d])[k] == ds[k]; }
  }

  /** mainQSort3: rotations that agree in their first `dSt` bytes are put in order, unless the budget runs out; either way
      they are only rearranged. */
  method MainQSort3(ptr: array<int>, block: array<int>, quadrant: array<UInt16>, nblock: nat, loSt: int, hiSt: int,
                    dSt: nat, budget0: int) returns (budget: int)
    requires ptr != block && ptr.Length >= nblock
    requires Consistent(block[..], quadrant[..], nblock) && dSt <= MAX_DEPTH
    requires 0 <= loSt <= hiSt < ptr.Length && hiSt - loSt < 2391484 && TiedTo(block[..nblock], ptr[..], loSt, hiSt + 1, dSt)
    modifies ptr
    ensures Charged(block[..nblock], dSt, budget0, budget) && SegPerm(old(ptr[..]), ptr[..], loSt, hiSt + 1)
    ensures budget >= 0 ==> Ordered(ptr[..], Ranks(block[..nblock]), loSt, hiSt + 1)
  {
    hide SegPerm, Ordered, Ranks, Truthful, Repeats, TiedTo, Repetitive, NoneAbove, Progress, Held, Spread, Todo, FitsAt, With3, Depths3;
    Sizes(block[..], quadrant[..], nblock);
    ghost var s, b := ptr[..], block[..nblock];
    var stackLo, stackHi, stackD := new int[STACK_SIZE], new int[STACK_SIZE], new int[STACK_SIZE];
    HeldNone(stackLo[..], stackHi[..], stackD[..]);
    ghost var st: seq<Range>, ds: seq<nat> := [(loSt, hiSt)], [dSt];
    assert NoneAbove(ds, dSt) by { NoneAboveStart(dSt); }
    Push(stackLo, stackHi, stackD, 0, Entry(loSt, hiSt, dSt), [], []);
    assert [] + [(loSt, hiSt)] == st && [] + [dSt] == ds;
    var sp := 1;
    budget := budget0;
    ProgressStart(b, s, loSt, hiSt, dSt);
    StackLow(b, s, s, st, ds, loSt, hiSt);
    while sp > 0
      invariant sp == |st| == |ds| && Charged(b, dSt, budget0, budget) && NoneAbove(ds, dSt)
      invariant Held(stackLo[..], stackHi[..], stackD[..], st, ds)
      invariant Progress(b, s, ptr[..], st, ds, loSt, hiSt) && Todo(st, ds) >= 0
      decreases Todo(st, ds), sp
    {
      StackLow(b, s, ptr[..], st, ds, loSt, hiSt);
      assert sp < STACK_SIZE - 2;  // assertion 1001 of the source
      sp := sp - 1;
      HeldTop(stackLo[..], stackHi[..], stackD[..], st, ds, sp);
      var lo, hi, d: nat := stackLo[sp], stackHi[sp], stackD[sp];
      ghost var st0, ds0, t := st[..sp], ds[..sp], ptr[..];
      ProgressTop(b, s, t, st0, ds0, (lo, hi), d, loSt, hiSt);
      var fate;
      NoneAboveKept(ds0, dSt, d, Entry(0, 0, d), Entry(0, 0, d), Entry(0, 0, d));
      budget, fate := SortStretch(ptr, block, quadrant, nblock, lo, hi, d, budget);
      match fate {
        case InOrder =>
          if budget < 0 {
            ProgressKept(b, s, t, ptr[..], st0, ds0, (lo, hi), d, loSt, hiSt);
            return;
          }
          ProgressInOrder(b, s, t, ptr[..], st0, ds0, (lo, hi), d, loSt, hiSt);
          st, ds := st0, ds0;
        case Deeper =>
          ProgressDeeper(b, s, t, ptr[..], st0, ds0, (lo, hi), d, loSt, hiSt);
          Push(stackLo, stackHi, stackD, sp, Entry(lo, hi, d + 1), st0, ds0);
          st, ds, sp := st0 + [(lo, hi)], ds0 + [d + 1], sp + 1;
        case Parts(n, m) =>
          var x, y, z := LargestFirst(Entry(lo, n, d), Entry(m, hi, d), Entry(n + 1, m - 1, d + 1));
          ProgressParts(b, s, t, ptr[..], st0, ds0, (lo, hi), d, loSt, hiSt, n, m, x, y, z);
          NoneAboveKept(ds0, dSt, d, x, y, z);
          Push3(stackLo, stackHi, stackD, sp, x, y, z, st0, ds0);
          st, ds, sp := With3(st0, x, y, z), Depths3(ds0, x, y, z), sp + 3;
      }
      StackLow(b, s, ptr[..], st, ds, loSt, hiSt);
    }
    assert st == [] && ds == [];
    ProgressEnd(b, s, ptr[..], loSt, hiSt);
  }
}
