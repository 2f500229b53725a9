/** mainGtU of blocksort.c and its cache. */
module QuadrantCache {
  import opened BitStream
  import opened Permutations
  import opened Powers
  import opened Rotations

  const N_OVERSHOOT := 34
  const N_RADIX := 2
  const N_QSORT := 12
  /** How deep mainQSort3 goes at most before mainSimpleSort takes over. */
  const MAX_DEPTH := N_RADIX + N_QSORT + 1

  type UInt16 = x: int | 0 <= x < 0x1_0000

  /** The cells after the block repeat its beginning. */
  ghost predicate Repeats<T>(s: seq<T>, n: nat) {
    && n > N_OVERSHOOT && |s| == n + N_OVERSHOOT
    && forall i {:trigger s[i]} :: n <= i < n + N_OVERSHOOT ==> s[i] == s[i - n]
  }

  /** The cache tells the truth: among rotations that start with the same byte, one with a smaller value does not
      come after one with a larger value. */
  ghost predicate Truthful(b: seq<int>, q: seq<int>) {
    |q| >= |b| && forall i, j :: 0 <= i < |b| && 0 <= j < |b| && b[i] == b[j] && q[i] < q[j] ==> Cmp(b, i, j, |b|) <= 0
  }

  /** The block and its cache at any time between two steps of mainSort. */
  ghost predicate Consistent(block: seq<int>, quadrant: seq<UInt16>, n: nat) {
    Repeats(block, n) && Repeats(quadrant, n) && Truthful(block[..n], quadrant)
  }

  /** The rotation a position in the block or its overshoot belongs to. */
  function Wrap(i: nat, n: nat): (r: int)
    requires i < n + n
    ensures 0 <= r < n
  {
    if i < n then i else i - n
  }

  // ----- comparing beyond the length of the block

  lemma RoundTrip(i: int, n: nat)
    requires 0 <= i < n
    ensures Adv(i, n, n) == i
  {
    AdvValue(i, n, n);
  }

  /** Rotations that agree over the whole block agree for ever. */
  lemma {:induction false} EqualForEver(b: seq<int>, i: int, j: int, h: nat)
    requires 0 <= i < |b| && 0 <= j < |b| && Cmp(b, i, j, |b|) == 0
    ensures Cmp(b, i, j, h) == 0
    decreases h
  {
    if h > |b| {
      CmpSplit(b, i, j, |b|, h - |b|);
      RoundTrip(i, |b|);
      RoundTrip(j, |b|);
      EqualForEver(b, i, j, h - |b|);
    } else {
      CmpSplit(b, i, j, h, |b| - h);
    }
  }

  /** Comparing deeper than the block is long changes nothing. */
  lemma DeeperIsSame(b: seq<int>, i: int, j: int, h: nat)
    requires 0 <= i < |b| && 0 <= j < |b| && h >= |b|
    ensures Cmp(b, i, j, h) == Cmp(b, i, j, |b|)
  {
    CmpSplit(b, i, j, |b|, h - |b|);
    if Cmp(b, i, j, |b|) == 0 { EqualForEver(b, i, j, h); }
  }

  // ----- mainGtU

  /** `i1` and `i2` stand `t` places after `p1` and `p2`, and everything before them was equal. */
  ghost predicate Tied(b: seq<int>, p1: int, p2: int, i1: nat, i2: nat, t: nat) {
    && 0 <= p1 < |b| && 0 <= p2 < |b| && i1 < 2 * |b| && i2 < 2 * |b|
    && Wrap(i1, |b|) == Adv(p1, t, |b|) && Wrap(i2, |b|) == Adv(p2, t, |b|)
    && Cmp(b, p1, p2, t) == 0
  }

  /** `r` answers whether the rotation at `p1` is the greater one; either answer will do for equal rotations. */
  ghost predicate Answers(b: seq<int>, p1: int, p2: int, r: bool) {
    && 0 <= p1 < |b| && 0 <= p2 < |b|
    && (r ==> Cmp(b, p1, p2, |b|) >= 0) && (!r ==> Cmp(b, p1, p2, |b|) <= 0)
  }

  lemma TiedFirst(b: seq<int>, i1: nat, i2: nat)
    requires i1 < 2 * |b| && i2 < 2 * |b|
    ensures Tied(b, Wrap(i1, |b|), Wrap(i2, |b|), i1, i2, 0)
  {
  }

  /** What the cells at a tied pair say. */
  lemma Cells(block: seq<int>, n: nat, i: nat)
    requires Repeats(block, n) && i < n + N_OVERSHOOT
    ensures block[i] == block[..n][Wrap(i, n)]
  {
  }

  /** Different bytes decide. */
  lemma ByBytes(b: seq<int>, p1: int, p2: int, i1: nat, i2: nat, t: nat)
    requires Tied(b, p1, p2, i1, i2, t) && b[Wrap(i1, |b|)] != b[Wrap(i2, |b|)]
    ensures Answers(b, p1, p2, b[Wrap(i1, |b|)] > b[Wrap(i2, |b|)])
  {
    var x, y := Adv(p1, t, |b|), Adv(p2, t, |b|);
    CmpSplit(b, p1, p2, t, |b|);
    assert Cmp(b, x, y, |b|) == (if b[x] < b[y] then -1 else 1);
    DeeperIsSame(b, p1, p2, t + |b|);
  }

  /** Different cached values decide. */
  lemma ByCache(b: seq<int>, q: seq<int>, p1: int, p2: int, i1: nat, i2: nat, t: nat)
    requires Tied(b, p1, p2, i1, i2, t) && Truthful(b, q) && b[Wrap(i1, |b|)] == b[Wrap(i2, |b|)]
    requires q[Wrap(i1, |b|)] != q[Wrap(i2, |b|)]
    ensures Answers(b, p1, p2, q[Wrap(i1, |b|)] > q[Wrap(i2, |b|)])
  {
    var x, y := Adv(p1, t, |b|), Adv(p2, t, |b|);
    CmpSplit(b, p1, p2, t, |b|);
    CmpAnti(b, x, y, |b|);
    if q[x] < q[y] { assert Cmp(b, x, y, |b|) <= 0; } else { assert Cmp(b, y, x, |b|) <= 0; }
    DeeperIsSame(b, p1, p2, t + |b|);
  }

  /** Equal bytes: one place further on. */
  lemma TiedNext(b: seq<int>, p1: int, p2: int, i1: nat, i2: nat, t: nat)
    requires Tied(b, p1, p2, i1, i2, t) && b[Wrap(i1, |b|)] == b[Wrap(i2, |b|)]
    requires i1 + 1 < 2 * |b| && i2 + 1 < 2 * |b|
    ensures Tied(b, p1, p2, i1 + 1, i2 + 1, t + 1)
  {
    CmpSplit(b, p1, p2, t, 1);
    var x, y := Adv(p1, t, |b|), Adv(p2, t, |b|);
    assert Cmp(b, x, y, 1) == Cmp(b, Next(x, |b|), Next(y, |b|), 0);
    AdvAdd(p1, t, 1, |b|);
    AdvAdd(p2, t, 1, |b|);
    assert Adv(x, 1, |b|) == Adv(Next(x, |b|), 0, |b|) == Next(x, |b|);
    assert Adv(y, 1, |b|) == Adv(Next(y, |b|), 0, |b|) == Next(y, |b|);
  }

  /** Going round. */
  lemma TiedRound(b: seq<int>, p1: int, p2: int, i1: nat, i2: nat, t: nat)
    requires Tied(b, p1, p2, i1, i2, t)
    ensures Tied(b, p1, p2, Wrap(i1, |b|), Wrap(i2, |b|), t)
  {
  }

  /** Once around without a difference: the rotations are equal. */
  lemma TiedAll(b: seq<int>, p1: int, p2: int, i1: nat, i2: nat, t: nat)
    requires Tied(b, p1, p2, i1, i2, t) && t >= |b|
    ensures Answers(b, p1, p2, false)
  {
    DeeperIsSame(b, p1, p2, t);
  }

  /** Which of two rotations is the greater one. Positions may lie up to the depth of mainQSort3 behind the block;
      nothing beyond the overshoot is read. The budget is charged once for every eight bytes the two have in common
      after the first twelve, and not at all if they differ in these. */
  method MainGtU(start1: nat, start2: nat, block: array<int>, quadrant: array<UInt16>, nblock: nat, budget0: int)
    returns (r: bool, budget: int)
    requires Consistent(block[..], quadrant[..], nblock)
    requires start1 < nblock + MAX_DEPTH && start2 < nblock + MAX_DEPTH
    ensures Answers(block[..nblock], Wrap(start1, nblock), Wrap(start2, nblock), r)
    ensures budget0 - (nblock + 8) / 8 - 1 <= budget <= budget0
    ensures budget == budget0 ||
      Cmp(block[..nblock], Wrap(start1, nblock), Wrap(start2, nblock), N_QSORT + 8 * (budget0 - budget)) == 0
  {
    hide Tied, Answers, Truthful, Repeats;
    Sizes(block[..], quadrant[..], nblock);
    ghost var b, p1, p2 := block[..nblock], Wrap(start1, nblock), Wrap(start2, nblock);
    assert block[..][..nblock] == b;
    TiedFirst(b, start1, start2);
    budget := budget0;
    var i1: nat, i2: nat := start1, start2;
    var decided;
    decided, r := Twelve(i1, i2, block, nblock, p1, p2);
    if decided { return r, budget; }
    i1, i2 := i1 + N_QSORT, i2 + N_QSORT;
    var k := nblock + 8;
    ghost var t := N_QSORT;
    while true
      invariant k >= 0 && t == N_QSORT + (nblock + 8 - k) && (nblock + 8 - k) % 8 == 0
      invariant i1 <= nblock + 26 && i2 <= nblock + 26 && Tied(b, p1, p2, i1, i2, t)
      invariant budget == budget0 - (nblock + 8 - k) / 8
      decreases k
    {
      TiedEqual(b, p1, p2, i1, i2, t);
      decided, r := Eight(i1, i2, block, quadrant, nblock, p1, p2, t);
      if decided { return r, budget; }
      i1, i2 := Wrap(i1 + 8, nblock), Wrap(i2 + 8, nblock);
      k := k - 8;
      t := t + 8;
      budget := budget - 1;
      if k < 0 { break; }
    }
    TiedEqual(b, p1, p2, i1, i2, t);
    TiedAll(b, p1, p2, i1, i2, t);
    r := false;
  }

  lemma TiedEqual(b: seq<int>, p1: int, p2: int, i1: nat, i2: nat, t: nat)
    requires Tied(b, p1, p2, i1, i2, t)
    ensures 0 <= p1 < |b| && 0 <= p2 < |b| && Cmp(b, p1, p2, t) == 0
  {
  }

  lemma Sizes(block: seq<int>, quadrant: seq<UInt16>, n: nat)
    requires Consistent(block, quadrant, n)
    ensures n > N_OVERSHOOT && |block| == |quadrant| == n + N_OVERSHOOT
    ensures Repeats(block, n) && Repeats(quadrant, n)
    ensures Truthful(block[..n], quadrant)
  {
  }

  /** The first twelve bytes. */
  method Twelve(start1: nat, start2: nat, block: array<int>, nblock: nat, ghost p1: int, ghost p2: int)
    returns (decided: bool, r: bool)
    requires Repeats(block[..], nblock) && start1 < nblock + MAX_DEPTH && start2 < nblock + MAX_DEPTH
    requires Tied(block[..nblock], p1, p2, start1, start2, 0)
    ensures decided ==> Answers(block[..nblock], p1, p2, r)
    ensures !decided ==> Tied(block[..nblock], p1, p2, start1 + N_QSORT, start2 + N_QSORT, N_QSORT)
  {
    hide Tied, Answers;
    ghost var b := block[..nblock];
    assert |block[..]| == block.Length && block[..][..nblock] == b;
    for step := 0 to N_QSORT
      invariant Tied(b, p1, p2, start1 + step, start2 + step, step)
    {
      var i1, i2 := start1 + step, start2 + step;
      Cells(block[..], nblock, i1);
      Cells(block[..], nblock, i2);
      var c1, c2 := block[i1], block[i2];
      if c1 != c2 {
        ByBytes(b, p1, p2, i1, i2, step);
        return true, c1 > c2;
      }
      TiedNext(b, p1, p2, i1, i2, step);
    }
    decided, r := false, false;
  }

  /** One round of the loop: eight bytes and eight cached values. */
  method Eight(start1: nat, start2: nat, block: array<int>, quadrant: array<UInt16>, nblock: nat,
               ghost p1: int, ghost p2: int, ghost t: nat)
    returns (decided: bool, r: bool)
    requires Consistent(block[..], quadrant[..], nblock) && start1 <= nblock + 26 && start2 <= nblock + 26
    requires Tied(block[..nblock], p1, p2, start1, start2, t)
    ensures decided ==> Answers(block[..nblock], p1, p2, r)
    ensures !decided ==> start1 + 8 < 2 * nblock && start2 + 8 < 2 * nblock
                         && Tied(block[..nblock], p1, p2, Wrap(start1 + 8, nblock), Wrap(start2 + 8, nblock), t + 8)
  {
    hide Tied, Answers, Truthful, Repeats;
    Sizes(block[..], quadrant[..], nblock);
    ghost var b := block[..nblock];
    assert block[..][..nblock] == b;
    for step := 0 to 8
      invariant Tied(b, p1, p2, start1 + step, start2 + step, t + step)
    {
      var i1, i2 := start1 + step, start2 + step;
      Cells(block[..], nblock, i1);
      Cells(block[..], nblock, i2);
      var c1, c2 := block[i1], block[i2];
      if c1 != c2 {
        ByBytes(b, p1, p2, i1, i2, t + step);
        return true, c1 > c2;
      }
      Cached(quadrant[..], nblock, i1);
      Cached(quadrant[..], nblock, i2);
      var s1, s2 := quadrant[i1], quadrant[i2];
      if s1 != s2 {
        ByCache(b, quadrant[..], p1, p2, i1, i2, t + step);
        return true, s1 > s2;
      }
      TiedNext(b, p1, p2, i1, i2, t + step);
    }
    TiedRound(b, p1, p2, start1 + 8, start2 + 8, t + 8);
    decided, r := false, false;
  }

  lemma Cached(quadrant: seq<UInt16>, n: nat, i: nat)
    requires Repeats(quadrant, n) && i < n + N_OVERSHOOT
    ensures quadrant[i] == quadrant[Wrap(i, n)]
  {
  }

  /** The callers compare two rotations after `d` bytes known to be equal: that decides between the rotations
      themselves. */
  lemma ComparedAfter(b: seq<int>, v: int, w: int, d: nat, r: bool)
    requires |b| > N_OVERSHOOT && 0 <= v < |b| && 0 <= w < |b| && d <= MAX_DEPTH && Cmp(b, v, w, d) == 0
    requires Answers(b, Wrap(v + d, |b|), Wrap(w + d, |b|), r)
    ensures Answers(b, v, w, r)
  {
    AdvValue(v, d, |b|);
    AdvValue(w, d, |b|);
    CmpSplit(b, v, w, d, |b|);
    DeeperIsSame(b, v, w, d + |b|);
  }

  // ----- setting up the block and the cache

  /** The overshoot is filled, and nothing is known yet. */
  method Prepare(block: array<int>, quadrant: array<UInt16>, nblock: nat)
    requires nblock > N_OVERSHOOT && block.Length == quadrant.Length == nblock + N_OVERSHOOT
    modifies block, quadrant
    ensures block[..nblock] == old(block[..nblock]) && Consistent(block[..], quadrant[..], nblock)
  {
    var i := nblock - 1;
    while i >= 0
      invariant -1 <= i < nblock && forall j :: i < j < nblock ==> quadrant[j] == 0
      invariant block[..] == old(block[..])
    {
      quadrant[i] := 0;
      i := i - 1;
    }
    for i := 0 to N_OVERSHOOT
      invariant block[..nblock] == old(block[..nblock])
      invariant forall j :: nblock <= j < nblock + i ==> block[j] == block[j - nblock]
      invariant forall j :: 0 <= j < nblock + i ==> quadrant[j] == 0
    {
      block[nblock + i] := block[i];
      quadrant[nblock + i] := 0;
    }
  }

  // ----- step 3 of mainSort

  /** `ptr[start..start + size]` lists the rotations that start with `c`, each once, in non-decreasing order. */
  ghost predicate SortedBucket(b: seq<int>, ptr: seq<int>, start: nat, size: nat, c: int) {
    && start + size <= |ptr|
    && (forall k :: start <= k < start + size ==> 0 <= ptr[k] < |b| && b[ptr[k]] == c)
    && (forall k, m :: start <= k < m < start + size ==> ptr[k] != ptr[m] && Cmp(b, ptr[k], ptr[m], |b|) <= 0)
    && (forall i :: 0 <= i < |b| && b[i] == c ==> exists k :: start <= k < start + size && ptr[k] == i)
  }

  /** The values from place `from` on are recorded. */
  ghost predicate Recorded(q: seq<UInt16>, ptr: seq<int>, n: nat, start: nat, size: nat, from: int, unit: nat)
    requires |q| == n + N_OVERSHOOT && unit >= 1 && 0 <= from <= size && start + size <= |ptr|
    requires forall k :: start <= k < start + size ==> 0 <= ptr[k] < n
  {
    forall k :: start + from <= k < start + size ==> q[ptr[k]] == (k - start) / unit
  }

  /** The values of all other rotations are untouched. */
  ghost predicate OthersKept(q0: seq<UInt16>, q: seq<UInt16>, b: seq<int>, c: int)
    requires |q0| == |q| >= |b|
  {
    forall i :: 0 <= i < |b| && b[i] != c ==> q[i] == q0[i]
  }

  /** Recording a sorted bucket keeps the cache truthful, however coarsely the places are scaled. */
  lemma StaysTruthful(b: seq<int>, q0: seq<UInt16>, q: seq<UInt16>, ptr: seq<int>, start: nat, size: nat, c: int, unit: nat)
    requires |q0| == |q| == |b| + N_OVERSHOOT && unit >= 1 && SortedBucket(b, ptr, start, size, c) && Truthful(b, q0)
    requires Recorded(q, ptr, |b|, start, size, 0, unit) && OthersKept(q0, q, b, c)
    ensures Truthful(b, q)
  {
    forall i, j | 0 <= i < |b| && 0 <= j < |b| && b[i] == b[j] && q[i] < q[j] ensures Cmp(b, i, j, |b|) <= 0 {
      if b[i] == c {
        var k :| start <= k < start + size && ptr[k] == i;
        var m :| start <= m < start + size && ptr[m] == j;
        if m <= k { QuotientMono(m - start, k - start, unit); }
      } else {
        assert q[i] == q0[i] && q[j] == q0[j];
      }
    }
  }

  lemma QuotientMono(x: nat, y: nat, d: nat)
    requires x <= y && d >= 1
    ensures x / d <= y / d
  {
    Divide(x, d);
    Divide(y, d);
    var p, q := x / d, y / d;
    assert (q + 1) * d == q * d + d;
    if p > q { ProductMono(q + 1, p, d); }
  }

  lemma ShrNext(v: nat, s: nat)
    ensures Shr(v, s + 1) == Shr(v, s) / 2
  {
    var d, q := Pow2(s), v / Pow2(s);
    Divide(v, d);
    var r := v % d + (q % 2) * d;
    assert q == 2 * (q / 2) + q % 2;
    assert v == (q / 2) * (2 * d) + r by {
      assert q * d == (2 * (q / 2) + q % 2) * d == (q / 2) * (2 * d) + (q % 2) * d;
    }
    assert 0 <= r < 2 * d;
    DivUnique(v, 2 * d, q / 2, r);
  }

  /** The scale: the fewest shifts that bring the size of a bucket down to 65534. */
  method Scale(bbSize: nat) returns (shifts: nat)
    ensures Shr(bbSize, shifts) <= 65534
    ensures forall s :: 0 <= s < shifts ==> Shr(bbSize, s) > 65534
  {
    hide Shr;
    shifts := 0;
    while Shr(bbSize, shifts) > 65534
      invariant forall s :: 0 <= s < shifts ==> Shr(bbSize, s) > 65534
      decreases Shr(bbSize, shifts)
    {
      ShrNext(bbSize, shifts);
      shifts := shifts + 1;
    }
  }

  /** After bucket `c` has been sorted, its order is recorded, scaled to 16 bits, in the overshoot too. The cache stays
      consistent, no value is cut off by the 16 bits, and assertion 1002 holds. */
  method RecordBucket(block: array<int>, quadrant: array<UInt16>, ptr: array<int>, nblock: nat, bbStart: nat, bbSize: nat,
                      ghost c: int) returns (shifts: nat)
    requires Consistent(block[..], quadrant[..], nblock)
    requires SortedBucket(block[..nblock], ptr[..], bbStart, bbSize, c)
    modifies quadrant
    ensures Consistent(block[..], quadrant[..], nblock) && OthersKept(old(quadrant[..]), quadrant[..], block[..nblock], c)
    ensures forall k :: bbStart <= k < bbStart + bbSize ==>
      0 <= ptr[k] < nblock && quadrant[ptr[k]] == Shr(k - bbStart, shifts)
    ensures forall s :: 0 <= s < shifts ==> Shr(bbSize, s) > 65534
    ensures bbSize > 0 ==> Shr(bbSize - 1, shifts) <= 65535
  {
    hide Truthful;
    ghost var b, q0 := block[..nblock], quadrant[..];
    assert b == block[..][..nblock];
    assert Recorded(q0, ptr[..], nblock, bbStart, bbSize, bbSize, 1);
    shifts := Scale(bbSize);
    var j := bbSize - 1;
    while j >= 0
      invariant -1 <= j < bbSize && Repeats(quadrant[..], nblock)
      invariant Recorded(quadrant[..], ptr[..], nblock, bbStart, bbSize, j + 1, Pow2(shifts))
      invariant OthersKept(q0, quadrant[..], b, c)
    {
      QuotientMono(j, bbSize, Pow2(shifts));
      RecordOne(block, quadrant, ptr, nblock, bbStart, bbSize, c, j, Shr(j, shifts) % 0x1_0000, Pow2(shifts));
      j := j - 1;
    }
    if bbSize > 0 { QuotientMono(bbSize - 1, bbSize, Pow2(shifts)); }
    StaysTruthful(b, q0, quadrant[..], ptr[..], bbStart, bbSize, c, Pow2(shifts));
  }

  /** One place. */
  method RecordOne(block: array<int>, quadrant: array<UInt16>, ptr: array<int>, nblock: nat, bbStart: nat, bbSize: nat,
                   ghost c: int, j: nat, qVal: UInt16, ghost unit: nat)
    requires Repeats(block[..], nblock) && Repeats(quadrant[..], nblock)
    requires SortedBucket(block[..nblock], ptr[..], bbStart, bbSize, c)
    requires j < bbSize && unit >= 1 && qVal == j / unit
    requires Recorded(quadrant[..], ptr[..], nblock, bbStart, bbSize, j + 1, unit)
    modifies quadrant
    ensures Repeats(quadrant[..], nblock) && Recorded(quadrant[..], ptr[..], nblock, bbStart, bbSize, j, unit)
    ensures OthersKept(old(quadrant[..]), quadrant[..], block[..nblock], c)
  {
    ghost var b := block[..nblock];
    assert |block[..]| == block.Length && |quadrant[..]| == quadrant.Length;
    assert ptr[..][bbStart + j] == ptr[bbStart + j];
    var a2update := ptr[bbStart + j];
    assert b[a2update] == c;
    quadrant[a2update] := qVal;
    if a2update < N_OVERSHOOT { quadrant[a2update + nblock] := qVal; }
  }
}
