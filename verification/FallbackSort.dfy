/** fallbackSort of deps/bzip2/blocksort.c. */
module FallbackSort {
  import opened Permutations
  import opened Counting
  import opened Rotations
  import opened BitTable
  import opened FallbackQSort
  import opened WordMemory

  // ----- the initial radix sort on one byte

  /** The free end of bucket `c` once `i` rotations are placed: buckets are filled from their ends. */
  ghost function Free(b: seq<int>, c: nat, i: nat): int
    requires i <= |b|
  {
    Start(b, c + 1) - Count(b, c, i)
  }

  lemma FreeStep(b: seq<int>, i: nat)
    requires i < |b|
    ensures forall c: nat :: Free(b, c, i + 1) == Free(b, c, i) - (if b[i] == c then 1 else 0)
  {
  }

  /** Slot given to rotation `i`. */
  ghost function Slot(b: seq<int>, i: int): int
    requires 0 <= i < |b| && IsBytes(b)
  {
    Free(b, b[i], i) - 1
  }

  lemma FreeEnds(b: seq<int>)
    ensures forall c: nat :: Free(b, c, 0) == Start(b, c + 1) && Free(b, c, |b|) == Start(b, c)
  {
  }

  lemma SlotRange(b: seq<int>, i: int)
    requires 0 <= i < |b| && IsBytes(b)
    ensures 0 <= Start(b, b[i]) <= Slot(b, i) < Start(b, b[i] + 1) <= |b|
  {
    CountStrict(b, i, |b|);
    StartBound(b, b[i] + 1);
  }

  lemma SlotDistinct(b: seq<int>, i: int, j: int)
    requires 0 <= i < j < |b| && IsBytes(b)
    ensures Slot(b, i) != Slot(b, j)
  {
    SlotRange(b, i);
    SlotRange(b, j);
    if b[i] == b[j] { CountStrict(b, i, j); }
    if b[i] < b[j] { StartMono(b, b[i] + 1, b[j]); }
    if b[j] < b[i] { StartMono(b, b[j] + 1, b[i]); }
  }

  /** The slot of rotation `i` is the free end of its bucket, inside the block, and not yet used. */
  lemma SlotNew(b: seq<int>, i: int)
    requires 0 <= i < |b| && IsBytes(b)
    ensures 0 <= Slot(b, i) == Free(b, b[i], i) - 1 < |b|
    ensures forall m :: 0 <= m < i ==> Slot(b, m) != Slot(b, i)
  {
    SlotRange(b, i);
    forall m | 0 <= m < i ensures Slot(b, m) != Slot(b, i) { SlotDistinct(b, m, i); }
  }

  /** Every rotation stands in the bucket of its first byte. */
  ghost predicate InBuckets(b: seq<int>, f: seq<int>)
    requires IsBytes(b)
  {
    && IsPerm(f, |b|)
    && forall p :: 0 <= p < |b| ==> Start(b, b[f[p]]) <= p < Start(b, b[f[p]] + 1)
  }

  lemma RadixResult(b: seq<int>, f: seq<int>)
    requires IsBytes(b) && |f| == |b|
    requires forall i :: 0 <= i < |b| ==> 0 <= Slot(b, i) < |b| && f[Slot(b, i)] == i
    ensures InBuckets(b, f)
  {
    var slots := seq(|b|, i requires 0 <= i < |b| => Slot(b, i));
    forall i, j | 0 <= i < j < |b| ensures slots[i] != slots[j] { SlotDistinct(b, i, j); }
    assert IsPerm(slots, |b|);
    forall p | 0 <= p < |b|
      ensures 0 <= f[p] < |b| && Slot(b, f[p]) == p && Start(b, b[f[p]]) <= p < Start(b, b[f[p]] + 1)
    {
      var i := PermHits(slots, |b|, p);
      assert slots[i] == Slot(b, i);
      SlotRange(b, i);
    }
  }

  /** The bucket table, and the copy of the counts kept for restoring the block. */
  method CountBytes(eclass: array<int>, n: int, ghost b: seq<int>) returns (ftab: array<int>, ftabCopy: array<int>)
    requires 0 < n <= eclass.Length && b == Bytes(eclass[..], n)
    ensures fresh(ftab) && fresh(ftabCopy) && ftab != ftabCopy
    ensures ftab.Length == 257 && ftabCopy.Length == 256
    ensures forall c :: 0 <= c < 256 ==> ftab[c] == Start(b, c + 1) && ftabCopy[c] == Count(b, c, n)
  {
    hide Bytes;
    ftab := new int[257](_ => 0);
    ftabCopy := new int[256];
    var i := 0;
    while i < n
      invariant 0 <= i <= n
      invariant forall c :: 0 <= c < 256 ==> ftab[c] == Count(b, c, i)
      invariant ftab[256] == 0
      modifies ftab
    {
      var v := GetByte(eclass, i, b);
      ftab[v] := ftab[v] + 1;
      i := i + 1;
    }
    i := 0;
    while i < 256
      invariant 0 <= i <= 256
      invariant forall c :: 0 <= c < i ==> ftabCopy[c] == ftab[c]
      modifies ftabCopy
    {
      ftabCopy[i] := ftab[i];
      i := i + 1;
    }
    AddUp(ftab, b);
  }

  /** Counts become bucket ends. */
  method AddUp(ftab: array<int>, ghost b: seq<int>)
    requires ftab.Length == 257 && ftab[256] == 0 && forall c :: 0 <= c < 256 ==> ftab[c] == Count(b, c, |b|)
    modifies ftab
    ensures forall c :: 0 <= c < 256 ==> ftab[c] == Start(b, c + 1)
  {
    assert Start(b, 1) == Start(b, 0) + Count(b, 0, |b|);
    var i := 1;
    while i < 257
      invariant 1 <= i <= 257
      invariant forall c :: 0 <= c < i && c < 256 ==> ftab[c] == Start(b, c + 1)
      invariant forall c :: i <= c < 256 ==> ftab[c] == Count(b, c, |b|)
    {
      ftab[i] := ftab[i] + ftab[i - 1];
      i := i + 1;
    }
  }

  method RadixSort(fmap: array<int>, eclass: array<int>, ftab: array<int>, n: int, ghost b: seq<int>)
    requires fmap != eclass && ftab != fmap && ftab != eclass
    requires 0 < n <= fmap.Length && n <= eclass.Length && b == Bytes(eclass[..], n) && ftab.Length == 257
    requires forall c :: 0 <= c < 256 ==> ftab[c] == Start(b, c + 1)
    modifies fmap, ftab
    ensures InBuckets(b, fmap[..n])
    ensures forall c :: 0 <= c < 256 ==> ftab[c] == Start(b, c)
  {
    hide Start, Count, Slot, Free, Bytes;
    var i := 0;
    assert forall c: nat :: Free(b, c, 0) == Start(b, c + 1) && Free(b, c, n) == Start(b, c) by { FreeEnds(b); }
    while i < n
      invariant 0 <= i <= n
      invariant forall c :: 0 <= c < 256 ==> ftab[c] == Free(b, c, i)
      invariant forall k :: 0 <= k < i ==> 0 <= Slot(b, k) < n && fmap[Slot(b, k)] == k
    {
      var j := GetByte(eclass, i, b);
      var k := ftab[j] - 1;
      SlotNew(b, i);
      FreeStep(b, i);
      ftab[j] := k;
      fmap[k] := i;
      i := i + 1;
    }
    RadixResult(b, fmap[..n]);
  }

  // ----- bucket headers

  /** On `lo..hi-1`, exactly the positions that start a bucket of rotations equal to depth `h` are set. */
  ghost predicate Headers(t: seq<Word>, b: seq<int>, f: seq<int>, h: nat, lo: int, hi: int)
    requires IsPerm(f, |b|)
  {
    && 0 <= lo && hi <= |b| && |b| <= 32 * |t|
    && forall p {:trigger IsSet(t, p)} :: lo <= p < hi ==> IsSet(t, p) == (p == 0 || Cmp(b, f[p - 1], f[p], h) != 0)
  }

  /** The bits just after the block: a header that ends the last bucket, and a clear bit. */
  ghost predicate Sentinels(t: seq<Word>, n: nat) {
    n + 1 < 32 * |t| && IsSet(t, n) && !IsSet(t, n + 1)
  }

  lemma InitialOrder(b: seq<int>, f: seq<int>)
    requires IsBytes(b) && InBuckets(b, f)
    ensures SortedTo(b, f, 1)
  {
    forall p, q | 0 <= p < q < |f| ensures Cmp(b, f[p], f[q], 1) <= 0 {
      assert Start(b, b[f[p]]) <= p && q < Start(b, b[f[q]] + 1);
      if b[f[q]] < b[f[p]] { StartMono(b, b[f[q]] + 1, b[f[p]]); }
    }
  }

  /** Some bucket among the first `i` starts at `k`. */
  ghost predicate Begins(b: seq<int>, i: nat, k: int) {
    exists c: nat :: c < i && Start(b, c) == k
  }

  lemma BeginsStep(b: seq<int>, i: nat, k: int)
    ensures Begins(b, i + 1, k) == (Start(b, i) == k || Begins(b, i, k))
  {
    if Start(b, i) == k { assert i < i + 1; }
    if Begins(b, i, k) {
      var c: nat :| c < i && Start(b, c) == k;
      assert c < i + 1;
    }
  }

  /** In the bucket of `c`, only its first position is where a bucket starts. */
  lemma BeginsInside(b: seq<int>, c: nat, p: int)
    requires c < 256 && Start(b, c) <= p < Start(b, c + 1)
    ensures Begins(b, 256, p) == (Start(b, c) == p)
  {
    hide Start;
    if Begins(b, 256, p) {
      var d: nat :| d < 256 && Start(b, d) == p;
      if d < c { StartMono(b, d, c); }
      if c < d { StartMono(b, c + 1, d); }
    }
  }

  lemma InitialHeaders(b: seq<int>, f: seq<int>, t: seq<Word>, h: nat)
    requires h == 1
    requires IsBytes(b) && InBuckets(b, f) && |b| <= 32 * |t|
    requires forall k :: 0 <= k < |b| ==> IsSet(t, k) == Begins(b, 256, k)
    ensures Headers(t, b, f, h, 0, |b|)
  {
    hide IsSet, Begins;
    forall p {:trigger IsSet(t, p)} | 0 <= p < |b| ensures IsSet(t, p) == (p == 0 || Cmp(b, f[p - 1], f[p], h) != 0) {
      InitialHeader(b, f, p);
    }
  }

  lemma InitialHeader(b: seq<int>, f: seq<int>, p: int)
    requires IsBytes(b) && InBuckets(b, f) && 0 <= p < |b|
    ensures Begins(b, 256, p) == (p == 0 || Cmp(b, f[p - 1], f[p], 1) != 0)
  {
    hide Begins, Start;
    var c := b[f[p]];
    BeginsInside(b, c, p);
    if p == 0 {
      StartMono(b, 0, c);
      StartZero(b);
    } else {
      var c' := b[f[p - 1]];
      assert Start(b, c') <= p - 1 < Start(b, c' + 1);
      if c < c' { StartMono(b, c + 1, c'); }
      if c' < c { StartMono(b, c' + 1, c); }
      assert (Cmp(b, f[p - 1], f[p], 1) != 0) == (c != c') by { FirstByte(b, f[p - 1], f[p]); }
    }
  }

  lemma StartZero(b: seq<int>)
    ensures Start(b, 0) == 0
  {
  }

  lemma FirstByte(b: seq<int>, i: int, j: int)
    requires 0 <= i < |b| && 0 <= j < |b|
    ensures (Cmp(b, i, j, 1) != 0) == (b[i] != b[j])
  {
  }

  /** The header table before refinement: bucket starts, and sentinel bits after the block. */
  method InitTable(bhtab: array<Word>, ftab: array<int>, n: int, ghost b: seq<int>)
    requires 0 < n == |b| && IsBytes(b) && bhtab.Length >= n / 32 + 3 && ftab.Length == 257
    requires forall c :: 0 <= c < 256 ==> ftab[c] == Start(b, c)
    modifies bhtab
    ensures forall k :: 0 <= k < n ==> IsSet(bhtab[..], k) == Begins(b, 256, k)
    ensures Sentinels(bhtab[..], n)
  {
    hide IsSet, Start, Begins;
    var nBhtab := 2 + n / 32;
    var i := 0;
    while i < nBhtab
      invariant 0 <= i <= nBhtab
      invariant forall k :: 0 <= k < 32 * i ==> !IsSet(bhtab[..], k)
    {
      ZeroWord(bhtab, i);
      i := i + 1;
    }
    forall k | 0 <= k < n ensures !IsSet(bhtab[..], k) && !Begins(b, 0, k) { BeginsNone(b, k); }
    i := 0;
    while i < 256
      invariant 0 <= i <= 256
      invariant forall k :: 0 <= k < n ==> IsSet(bhtab[..], k) == Begins(b, i, k)
    {
      StartBound(b, i);
      SetBh(bhtab, ftab[i]);
      forall k | 0 <= k < n ensures IsSet(bhtab[..], k) == Begins(b, i + 1, k) { BeginsStep(b, i, k); }
      i := i + 1;
    }
    i := 0;
    while i < 32
      invariant 0 <= i <= 32
      invariant forall k :: 0 <= k < n ==> IsSet(bhtab[..], k) == Begins(b, 256, k)
      invariant i > 0 ==> Sentinels(bhtab[..], n)
    {
      SetBh(bhtab, n + 2 * i);
      ClearBh(bhtab, n + 2 * i + 1);
      i := i + 1;
    }
  }

  lemma BeginsNone(b: seq<int>, k: int)
    ensures !Begins(b, 0, k)
  {
  }

  method ZeroWord(bhtab: array<Word>, i: nat)
    requires i < bhtab.Length && forall k :: 0 <= k < 32 * i ==> !IsSet(bhtab[..], k)
    modifies bhtab
    ensures forall k :: 0 <= k < 32 * (i + 1) ==> !IsSet(bhtab[..], k)
  {
    ghost var t := bhtab[..];
    bhtab[i] := Zero();
    assert forall k :: 0 <= k < 32 * i ==> IsSet(bhtab[..], k) == IsSet(t, k);
  }

  // ----- one refinement pass

  /** The header governing position `i`. */
  ghost function Head(t: seq<Word>, i: nat): (j: nat)
    requires i < 32 * |t|
    ensures j <= i
  {
    if i == 0 || IsSet(t, i) then i else Head(t, i - 1)
  }

  lemma {:induction false} HeadEqual(t: seq<Word>, b: seq<int>, f: seq<int>, h: nat, i: nat)
    requires IsPerm(f, |b|) && Headers(t, b, f, h, 0, |b|) && i < |b|
    ensures Cmp(b, f[Head(t, i)], f[i], h) == 0
  {
    if i == 0 || IsSet(t, i) {
      CmpAnti(b, f[i], f[i], h);
    } else {
      HeadEqual(t, b, f, h, i - 1);
      CmpTrans(b, f[Head(t, i)], f[i - 1], f[i], h);
    }
  }

  lemma {:induction false} HeadMono(t: seq<Word>, i: nat, j: nat)
    requires i <= j < 32 * |t|
    ensures Head(t, i) == Head(t, j) || (i < Head(t, j) && IsSet(t, Head(t, j)))
  {
    if i < j && !IsSet(t, j) { HeadMono(t, i, j - 1); }
  }

  /** A bucket boundary between two positions separates their rotations strictly. */
  lemma StrictAcross(b: seq<int>, f: seq<int>, h: nat, p: int, w: int, q: int)
    requires IsPerm(f, |b|) && SortedTo(b, f, h)
    requires 0 <= p < w <= q < |b| && Cmp(b, f[w - 1], f[w], h) != 0
    ensures Cmp(b, f[p], f[q], h) < 0
  {
    assert Cmp(b, f[w - 1], f[w], h) <= 0;
    CmpAnti(b, f[p], f[p], h);
    CmpAnti(b, f[q], f[q], h);
    CmpTrans(b, f[p], f[w - 1], f[w], h);
    CmpTrans(b, f[p], f[w], f[q], h);
  }

  /** Comparing headers is comparing rotations to depth `h`. */
  lemma HeadOrder(t: seq<Word>, b: seq<int>, f: seq<int>, h: nat, i: int, j: int)
    requires IsPerm(f, |b|) && Headers(t, b, f, h, 0, |b|) && SortedTo(b, f, h)
    requires 0 <= i <= j < |b|
    ensures Head(t, i) <= Head(t, j)
    ensures Head(t, i) == Head(t, j) <==> Cmp(b, f[i], f[j], h) == 0
    ensures Cmp(b, f[i], f[j], h) <= 0
  {
    hide Cmp, Head;
    CmpAnti(b, f[i], f[i], h);
    HeadMono(t, i, j);
    HeadEqual(t, b, f, h, i);
    HeadEqual(t, b, f, h, j);
    var k := Head(t, j);
    if Head(t, i) == k {
      CmpEqual(b, f[k], f[i], f[j], h);
    } else {
      StrictAcross(b, f, h, i, k, j);
    }
  }

  /** `eclass[x]` orders rotations by what follows their first `h` bytes. */
  ghost predicate Classes(e: seq<int>, b: seq<int>, h: nat) {
    && |b| <= |e|
    && forall x, y :: 0 <= x < |b| && 0 <= y < |b| ==>
         && (e[x] < e[y] <==> Cmp(b, Adv(x, h, |b|), Adv(y, h, |b|), h) < 0)
         && (e[x] == e[y] <==> Cmp(b, Adv(x, h, |b|), Adv(y, h, |b|), h) == 0)
  }

  /** The rotation `h` places before `x`. */
  ghost function Back(x: int, h: int, n: int): int {
    if x - h < 0 then x - h + n else x - h
  }

  lemma BackAdv(x: int, h: nat, n: int)
    requires 0 <= x < n && h <= n
    ensures 0 <= Back(x, h, n) < n && Adv(Back(x, h, n), h, n) == x
    ensures Back(Adv(x, h, n), h, n) == x
  {
    AdvValue(Back(x, h, n), h, n);
    AdvValue(x, h, n);
  }

  lemma ClassesFromHeads(e: seq<int>, t: seq<Word>, b: seq<int>, f: seq<int>, h: nat)
    requires IsPerm(f, |b|) && Headers(t, b, f, h, 0, |b|) && SortedTo(b, f, h) && h <= |b| <= |e|
    requires forall i :: 0 <= i < |b| ==> 0 <= Back(f[i], h, |b|) < |b| && e[Back(f[i], h, |b|)] == Head(t, i)
    ensures Classes(e, b, h)
  {
    forall x, y | 0 <= x < |b| && 0 <= y < |b|
      ensures (e[x] < e[y] <==> Cmp(b, Adv(x, h, |b|), Adv(y, h, |b|), h) < 0)
      ensures (e[x] == e[y] <==> Cmp(b, Adv(x, h, |b|), Adv(y, h, |b|), h) == 0)
    {
      BackAdv(x, h, |b|);
      BackAdv(y, h, |b|);
      var i := PermHits(f, |b|, Adv(x, h, |b|));
      var j := PermHits(f, |b|, Adv(y, h, |b|));
      assert e[x] == Head(t, i) && e[y] == Head(t, j);
      CmpAnti(b, f[i], f[j], h);
      if i <= j { HeadOrder(t, b, f, h, i, j); } else { HeadOrder(t, b, f, h, j, i); }
    }
  }

  lemma HeadStep(t: seq<Word>, i: nat)
    requires i < 32 * |t|
    ensures Head(t, i) == if i == 0 || IsSet(t, i) then i else Head(t, i - 1)
  {
  }

  lemma BackNew(f: seq<int>, h: nat, n: nat, i: int)
    requires IsPerm(f, n) && 0 <= i < n && h <= n
    ensures Back(f[i], h, n) == (if f[i] - h < 0 then f[i] - h + n else f[i] - h)
    ensures 0 <= Back(f[i], h, n) < n
    ensures forall m :: 0 <= m < i ==> Back(f[m], h, n) != Back(f[i], h, n)
  {
    BackAdv(f[i], h, n);
    forall m | 0 <= m < i ensures Back(f[m], h, n) != Back(f[i], h, n) { BackAdv(f[m], h, n); }
  }

  /** The loop at the start of a pass that writes `eclass` from the headers. */
  method AssignClasses(fmap: array<int>, eclass: array<int>, bhtab: array<Word>, n: int, H: int, ghost b: seq<int>)
    requires fmap != eclass && 0 < n == |b| && 0 < H <= n
    requires n <= fmap.Length && n <= eclass.Length && n <= 32 * bhtab.Length
    requires IsPerm(fmap[..n], n) && SortedTo(b, fmap[..n], H) && Headers(bhtab[..], b, fmap[..n], H, 0, n)
    modifies eclass
    ensures Classes(eclass[..], b, H)
    ensures forall x :: 0 <= x < n ==> eclass[x] >= 0
  {
    hide Headers, SortedTo, Head, Back, Classes;
    ghost var f, t := fmap[..n], bhtab[..];
    var i, j := 0, 0;
    while i < n
      invariant 0 <= i <= n
      invariant j == if i > 0 then Head(t, i - 1) else 0
      invariant forall k :: 0 <= k < i ==> 0 <= Back(f[k], H, n) < n && eclass[Back(f[k], H, n)] == Head(t, k)
    {
      assert bhtab[..] == t;
      if IsSet(bhtab[..], i) { j := i; }
      var k := fmap[i] - H;
      if k < 0 { k := k + n; }
      HeadStep(t, i);
      BackNew(f, H, n, i);
      eclass[k] := j;
      i := i + 1;
    }
    ClassesFromHeads(eclass[..], t, b, f, H);
    forall x | 0 <= x < n ensures eclass[x] >= 0 {
      BackAdv(x, H, n);
      var m := PermHits(f, n, Adv(x, H, n));
    }
  }

  // ----- refining the buckets one after the other

  /** Buckets before position `k` are refined to depth `2h`; the rest is still at depth `h`. */
  ghost predicate Refined(b: seq<int>, f: seq<int>, t: seq<Word>, h: nat, d: nat, k: int) {
    && 0 <= k <= |b|
    && IsPerm(f, |b|) && SortedTo(b, f, h) && Sentinels(t, |b|)
    && Headers(t, b, f, d, 0, k) && Headers(t, b, f, h, k, |b|)
    && (k < |b| ==> IsSet(t, k))
    && (forall p, q :: 0 <= p < q < k ==> Cmp(b, f[p], f[q], d) <= 0)
  }

  /** Comparison to depth `2h` refines comparison to depth `h`. */
  lemma Deepen(b: seq<int>, i: int, j: int, h: nat, d: nat)
    requires d == 2 * h
    requires 0 <= i < |b| && 0 <= j < |b|
    ensures Cmp(b, i, j, h) != 0 ==> Cmp(b, i, j, d) == Cmp(b, i, j, h)
    ensures Cmp(b, i, j, h) == 0 ==> Cmp(b, i, j, d) == Cmp(b, Adv(i, h, |b|), Adv(j, h, |b|), h)
  {
    CmpSplit(b, i, j, h, h);
    assert h + h == d;
  }

  /** Buckets of one rotation need no work. */
  lemma SkipSingles(b: seq<int>, f: seq<int>, t: seq<Word>, h: nat, d: nat, k: int, l: int)
    requires d == 2 * h
    requires Refined(b, f, t, h, d, k) && k <= l <= |b|
    requires AllBits(t, k, l, true) && IsSet(t, l)
    ensures Refined(b, f, t, h, d, l)
  {
    forall p, q | 0 <= p < q < l ensures Cmp(b, f[p], f[q], d) <= 0 {
      if q >= k {
        assert IsSet(t, q) && Cmp(b, f[q - 1], f[q], h) != 0;
        StrictAcross(b, f, h, p, q, q);
        Deepen(b, f[p], f[q], h, d);
      }
    }
    forall p {:trigger IsSet(t, p)} | k <= p < l ensures IsSet(t, p) == (p == 0 || Cmp(b, f[p - 1], f[p], d) != 0) {
      if p > 0 { Deepen(b, f[p - 1], f[p], h, d); }
    }
  }

  /** All rotations of one bucket agree to depth `h`. */
  lemma {:induction false} BucketEqual(b: seq<int>, f: seq<int>, t: seq<Word>, h: nat, l: int, p: int)
    requires IsPerm(f, |b|) && Headers(t, b, f, h, l, |b|)
    requires 0 <= l <= p < |b| && AllBits(t, l + 1, p + 1, false)
    ensures Cmp(b, f[l], f[p], h) == 0
    decreases p
  {
    if p == l {
      CmpAnti(b, f[l], f[l], h);
    } else {
      BucketEqual(b, f, t, h, l, p - 1);
      assert !IsSet(t, p);
      CmpTrans(b, f[l], f[p - 1], f[p], h);
    }
  }

  /** Sorting one bucket changes no comparison to depth `h`. */
  lemma SameToDepth(b: seq<int>, f: seq<int>, g: seq<int>, t: seq<Word>, h: nat, d: nat, l: int, r: int)
    requires Refined(b, f, t, h, d, l) && l <= r < |b| && AllBits(t, l + 1, r + 1, false)
    requires SegPerm(f, g, l, r + 1)
    ensures IsPerm(g, |b|)
    ensures forall p, q :: 0 <= p < |b| && 0 <= q < |b| ==> Cmp(b, g[p], g[q], h) == Cmp(b, f[p], f[q], h)
    ensures forall p, q :: l <= p <= r && l <= q <= r ==> Cmp(b, g[p], g[q], h) == 0
  {
    IsPermKept(f, g, l, r + 1, |b|);
    forall p | l <= p <= r ensures Cmp(b, f[l], g[p], h) == 0 && Cmp(b, f[l], f[p], h) == 0 {
      var p0 := SegPermSource(f, g, l, r + 1, p);
      BucketEqual(b, f, t, h, l, p0);
      BucketEqual(b, f, t, h, l, p);
    }
    forall p | 0 <= p < |b| ensures Cmp(b, f[p], g[p], h) == 0 {
      if l <= p <= r {
        CmpEqual(b, f[l], f[p], g[p], h);
      } else {
        CmpAnti(b, f[p], f[p], h);
      }
    }
    forall p, q | 0 <= p < |b| && 0 <= q < |b| ensures Cmp(b, g[p], g[q], h) == Cmp(b, f[p], f[q], h) {
      CmpEqual(b, f[p], g[p], f[q], h);
      CmpEqual(b, f[q], g[q], g[p], h);
    }
    forall p, q | l <= p <= r && l <= q <= r ensures Cmp(b, g[p], g[q], h) == 0 {
      CmpEqual(b, f[l], g[p], g[q], h);
    }
  }

  /** Within the sorted bucket, classes decide the comparison to depth `2h`. */
  lemma BucketDeep(b: seq<int>, g: seq<int>, e: seq<int>, h: nat, d: nat, l: int, r: int, p: int, q: int)
    requires d == 2 * h
    requires IsPerm(g, |b|) && Classes(e, b, h) && Ordered(g, e, l, r + 1)
    requires 0 <= l <= p < q <= r < |b| && Cmp(b, g[p], g[q], h) == 0
    ensures Cmp(b, g[p], g[q], d) <= 0
    ensures Cmp(b, g[p], g[q], d) == 0 <==> e[g[p]] == e[g[q]]
  {
    Deepen(b, g[p], g[q], h, d);
    assert Key(e, g[p]) <= Key(e, g[q]);
  }

  lemma RefineOrder(b: seq<int>, f: seq<int>, g: seq<int>, e: seq<int>, t: seq<Word>, h: nat, d: nat, l: int, r: int, p: int, q: int)
    requires d == 2 * h
    requires Refined(b, f, t, h, d, l) && IsSet(t, l) && l <= r < |b|
    requires AllBits(t, l + 1, r + 1, false)
    requires SegPerm(f, g, l, r + 1) && Ordered(g, e, l, r + 1) && Classes(e, b, h)
    requires IsPerm(g, |b|) && SortedTo(b, g, h)
    requires 0 <= p < q <= r
    ensures Cmp(b, g[p], g[q], d) <= 0
  {
    hide Cmp, Adv;
    SameToDepth(b, f, g, t, h, d, l, r);
    if l <= p {
      BucketDeep(b, g, e, h, d, l, r, p, q);
    } else if l <= q {
      assert Cmp(b, f[l - 1], f[l], h) != 0;
      StrictAcross(b, g, h, p, l, q);
      Deepen(b, g[p], g[q], h, d);
    }
  }

  lemma RefineHeader(b: seq<int>, f: seq<int>, g: seq<int>, e: seq<int>, t: seq<Word>, t': seq<Word>, h: nat, d: nat, l: int, r: int, p: int)
    requires d == 2 * h
    requires Refined(b, f, t, h, d, l) && IsSet(t, l) && l <= r < |b|
    requires AllBits(t, l + 1, r + 1, false)
    requires SegPerm(f, g, l, r + 1) && Ordered(g, e, l, r + 1) && Classes(e, b, h)
    requires |t'| == |t| && 0 <= p <= r && IsPerm(g, |b|)
    requires !(l < p <= r) ==> IsSet(t', p) == IsSet(t, p)
    requires l < p <= r ==> IsSet(t', p) == (Key(e, g[p - 1]) != Key(e, g[p]))
    ensures IsSet(t', p) == (p == 0 || Cmp(b, g[p - 1], g[p], d) != 0)
  {
    hide Cmp, Adv;
    SameToDepth(b, f, g, t, h, d, l, r);
    if l < p {
      BucketDeep(b, g, e, h, d, l, r, p - 1, p);
    } else if p == l && l > 0 {
      assert Cmp(b, f[l - 1], f[l], h) != 0;
      Deepen(b, g[p - 1], g[p], h, d);
    } else if p < l {
      assert IsSet(t, p) == (p == 0 || Cmp(b, f[p - 1], f[p], d) != 0);
    }
  }

  lemma RefineBucket(b: seq<int>, f: seq<int>, g: seq<int>, e: seq<int>, t: seq<Word>, t': seq<Word>, h: nat, d: nat, l: int, r: int)
    requires d == 2 * h
    requires Refined(b, f, t, h, d, l) && IsSet(t, l) && l <= r < |b|
    requires AllBits(t, l + 1, r + 1, false) && IsSet(t, r + 1)
    requires SegPerm(f, g, l, r + 1) && Ordered(g, e, l, r + 1) && Classes(e, b, h)
    requires |t'| == |t|
    requires forall p :: 0 <= p < 32 * |t| && !(l < p <= r) ==> IsSet(t', p) == IsSet(t, p)
    requires forall p :: l < p <= r ==> IsSet(t', p) == (Key(e, g[p - 1]) != Key(e, g[p]))
    ensures Refined(b, g, t', h, d, r + 1)
  {
    hide Cmp, Adv, SegPerm, Ordered, Classes, Key, AllBits;
    SameToDepth(b, f, g, t, h, d, l, r);
    forall p, q | 0 <= p < q < |b| ensures Cmp(b, g[p], g[q], h) <= 0 {
      assert Cmp(b, f[p], f[q], h) <= 0;
    }
    forall p, q | 0 <= p < q < r + 1 ensures Cmp(b, g[p], g[q], d) <= 0 {
      RefineOrder(b, f, g, e, t, h, d, l, r, p, q);
    }
    forall p {:trigger IsSet(t', p)} | 0 <= p < r + 1 ensures IsSet(t', p) == (p == 0 || Cmp(b, g[p - 1], g[p], d) != 0) {
      RefineHeader(b, f, g, e, t, t', h, d, l, r, p);
    }
    forall p {:trigger IsSet(t', p)} | r + 1 <= p < |b| ensures IsSet(t', p) == (p == 0 || Cmp(b, g[p - 1], g[p], h) != 0) {
      assert IsSet(t, p) == (p == 0 || Cmp(b, f[p - 1], f[p], h) != 0);
    }
  }

  /** The scan that sets a header wherever the class changes inside the sorted bucket. */
  method MarkBucket(fmap: array<int>, eclass: array<int>, bhtab: array<Word>, l: int, r: int)
    requires fmap != eclass && 0 <= l <= r < fmap.Length && r < 32 * bhtab.Length
    requires InRange(fmap[..], eclass.Length, l, r + 1)
    requires forall p :: l <= p <= r ==> Key(eclass[..], fmap[p]) >= 0
    requires IsSet(bhtab[..], l) && AllBits(bhtab[..], l + 1, r + 1, false)
    modifies bhtab
    ensures forall p :: 0 <= p < 32 * bhtab.Length && !(l < p <= r) ==> IsSet(bhtab[..], p) == IsSet(old(bhtab[..]), p)
    ensures forall p :: l < p <= r ==> IsSet(bhtab[..], p) == (Key(eclass[..], fmap[p - 1]) != Key(eclass[..], fmap[p]))
  {
    ghost var t, f, e := bhtab[..], fmap[..], eclass[..];
    var cc := -1;
    var i := l;
    while i <= r
      invariant l <= i <= r + 1
      invariant cc == if i == l then -1 else Key(e, f[i - 1])
      invariant forall p :: 0 <= p < 32 * bhtab.Length && !(l < p < i) ==> IsSet(bhtab[..], p) == IsSet(t, p)
      invariant forall p :: l < p < i ==> IsSet(bhtab[..], p) == (Key(e, f[p - 1]) != Key(e, f[p]))
    {
      var cc1 := eclass[fmap[i]];
      assert cc1 == Key(e, f[i]);
      if cc != cc1 {
        SetBh(bhtab, i);
        cc := cc1;
      }
      i := i + 1;
    }
  }

  /** Finding the next bucket of more than one rotation: `[l, r]`, or none. */
  method NextBucket(bhtab: array<Word>, from: int, n: int) returns (l: int, r: int, found: bool)
    requires 0 <= from <= n && Sentinels(bhtab[..], n)
    requires IsSet(bhtab[..], from)
    ensures found ==> from <= l < r < n && AllBits(bhtab[..], from, l + 1, true)
                      && AllBits(bhtab[..], l + 1, r + 1, false) && IsSet(bhtab[..], r + 1)
    ensures !found ==> AllBits(bhtab[..], from, n + 1, true)
  {
    r, found := 0, false;
    var k := SkipBits(bhtab, from, true, n + 1);
    l := k - 1;
    if l >= n { return; }
    k := SkipBits(bhtab, k, false, n);
    r := k - 1;
    if r >= n { return; }
    found := true;
  }

  /** Sorting and marking one bucket `[l, r]` of rotations that agree to depth `H`. */
  method RefineOne(fmap: array<int>, eclass: array<int>, bhtab: array<Word>, n: int, ghost H: nat, ghost d: nat, l: int, r: int, ghost b: seq<int>)
    requires fmap != eclass && n == |b| <= 0x8000_0000 && d == 2 * H
    requires n <= fmap.Length && n <= eclass.Length
    requires Refined(b, fmap[..n], bhtab[..], H, d, l) && Classes(eclass[..], b, H)
    requires forall x :: 0 <= x < n ==> eclass[x] >= 0
    requires l < r < n && IsSet(bhtab[..], l) && AllBits(bhtab[..], l + 1, r + 1, false) && IsSet(bhtab[..], r + 1)
    modifies fmap, bhtab
    ensures Refined(b, fmap[..n], bhtab[..], H, d, r + 1)
  {
    hide Headers, SortedTo, Classes, Ordered, SegPerm, Cmp, Refined, Sentinels, AllBits, Distinct;
    ghost var f0, f, e, t := fmap[..], fmap[..n], eclass[..], bhtab[..];
    RefinedBounds(b, f, t, H, d, l);
    FallbackQSort3(fmap, eclass, l, r);
    ghost var g := fmap[..n];
    PrefixPerm(f0, fmap[..], l, r + 1, n);
    IsPermKept(f, g, l, r + 1, n);
    assert bhtab[..] == t && eclass[..] == e;
    OrderedPrefix(fmap[..], e, l, r + 1, n);
    MarkBucket(fmap, eclass, bhtab, l, r);
    assert fmap[..n] == g;
    forall p | l < p <= r ensures IsSet(bhtab[..], p) == (Key(e, g[p - 1]) != Key(e, g[p])) {}
    RefineBucket(b, f, g, e, t, bhtab[..], H, d, l, r);
  }

  lemma RefinedBounds(b: seq<int>, f: seq<int>, t: seq<Word>, h: nat, d: nat, k: int)
    requires Refined(b, f, t, h, d, k)
    ensures 0 <= k <= |b| && IsPerm(f, |b|) && Sentinels(t, |b|) && |b| + 1 < 32 * |t|
    ensures IsSet(t, k)
  {
  }

  lemma PrefixPerm(f: seq<int>, g: seq<int>, lo: int, hi: int, n: int)
    requires SegPerm(f, g, lo, hi) && hi <= n <= |f|
    ensures n <= |g| && SegPerm(f[..n], g[..n], lo, hi)
  {
    assert f[..n][lo..hi] == f[lo..hi] && g[..n][lo..hi] == g[lo..hi];
  }

  lemma OrderedPrefix(f: seq<int>, e: seq<int>, lo: int, hi: int, n: int)
    requires 0 <= n && Ordered(f, e, lo, hi) && hi <= n <= |f|
    ensures Ordered(f[..n], e, lo, hi)
  {
  }

  lemma RefinedInit(b: seq<int>, f: seq<int>, t: seq<Word>, h: nat, d: nat)
    requires b != [] && IsPerm(f, |b|) && SortedTo(b, f, h) && Headers(t, b, f, h, 0, |b|) && Sentinels(t, |b|)
    ensures Refined(b, f, t, h, d, 0)
  {
    assert IsSet(t, 0);
  }

  lemma RefinedDone(b: seq<int>, f: seq<int>, t: seq<Word>, h: nat, d: nat)
    requires Refined(b, f, t, h, d, |b|)
    ensures IsPerm(f, |b|) && SortedTo(b, f, d) && Headers(t, b, f, d, 0, |b|) && Sentinels(t, |b|)
  {
  }

  /** A pass that found nothing to sort found every rotation distinct to depth `h`. */
  lemma AllSingles(b: seq<int>, f: seq<int>, t: seq<Word>, h: nat, d: nat)
    requires Refined(b, f, t, h, d, 0) && AllBits(t, 0, |b|, true) && h <= |b|
    ensures SortedRotations(b, f)
  {
    forall p, q | 0 <= p < q < |f| ensures Cmp(b, f[p], f[q], h) < 0 {
      assert IsSet(t, q);
      StrictAcross(b, f, h, p, q, q);
    }
    SortedStrict(b, f, h);
  }

  /** One pass of the log(N) loop, from depth `H` to depth `2H`. */
  method Pass(fmap: array<int>, eclass: array<int>, bhtab: array<Word>, n: int, H: int, ghost b: seq<int>)
    returns (nNotDone: int)
    requires fmap != eclass && 0 < n == |b| && 0 < H <= n && n <= 0x8000_0000
    requires n <= fmap.Length && n <= eclass.Length && bhtab.Length >= n / 32 + 3
    requires IsPerm(fmap[..n], n) && SortedTo(b, fmap[..n], H)
    requires Headers(bhtab[..], b, fmap[..n], H, 0, n) && Sentinels(bhtab[..], n)
    modifies fmap, eclass, bhtab
    ensures IsPerm(fmap[..n], n) && SortedTo(b, fmap[..n], 2 * H)
    ensures Headers(bhtab[..], b, fmap[..n], 2 * H, 0, n) && Sentinels(bhtab[..], n)
    ensures nNotDone == 0 ==> SortedRotations(b, fmap[..n])
  {
    hide Headers, SortedTo, SortedRotations, AllBits, Classes, Refined, Cmp;
    AssignClasses(fmap, eclass, bhtab, n, H, b);
    ghost var d := 2 * H;
    RefinedInit(b, fmap[..n], bhtab[..], H, d);
    nNotDone := 0;
    var r := -1;
    while true
      invariant -1 <= r < n && nNotDone >= 0
      invariant Refined(b, fmap[..n], bhtab[..], H, d, r + 1)
      invariant Classes(eclass[..], b, H) && forall x :: 0 <= x < n ==> eclass[x] >= 0
      invariant nNotDone == 0 ==> r == -1
      decreases n - r
    {
      RefinedBounds(b, fmap[..n], bhtab[..], H, d, r + 1);
      var l, r', found := NextBucket(bhtab, r + 1, n);
      if !found {
        AllBitsShorter(bhtab[..], r + 1, n + 1, n);
        if nNotDone == 0 { AllSingles(b, fmap[..n], bhtab[..], H, d); }
        SkipSingles(b, fmap[..n], bhtab[..], H, d, r + 1, n);
        break;
      }
      AllBitsShorter(bhtab[..], r + 1, l + 1, l);
      SkipSingles(b, fmap[..n], bhtab[..], H, d, r + 1, l);
      r := r';
      if r > l {
        nNotDone := nNotDone + (r - l + 1);
        RefineOne(fmap, eclass, bhtab, n, H, d, l, r, b);
      }
    }
    RefinedDone(b, fmap[..n], bhtab[..], H, d);
  }

  lemma AllBitsShorter(t: seq<Word>, lo: int, hi: int, hi': int)
    requires 0 <= lo <= hi' < hi <= 32 * |t| && AllBits(t, lo, hi, true)
    ensures AllBits(t, lo, hi', true) && IsSet(t, hi')
  {
  }

  // ----- the whole sort

  /** Occurrences of byte `c` among the sorted positions from `i` on. */
  ghost function Left(b: seq<int>, c: nat, i: int): int {
    if i <= Start(b, c) then Count(b, c, |b|)
    else if i >= Start(b, c + 1) then 0
    else Start(b, c + 1) - i
  }

  lemma LeftStep(b: seq<int>, i: int, v: nat, c: nat)
    requires Start(b, v) <= i < Start(b, v + 1)
    ensures Left(b, c, i + 1) == Left(b, c, i) - (if c == v then 1 else 0)
    ensures c < v ==> Left(b, c, i) == 0
    ensures c == v ==> Left(b, c, i) > 0
  {
    if c < v { StartMono(b, c + 1, v); }
    if v < c { StartMono(b, v + 1, c); }
  }

  /** The last phase: the bytes of the block are written back, in sorted order of their rotations. */
  method RestoreBlock(fmap: array<int>, eclass: array<int>, ftabCopy: array<int>, n: int, ghost b: seq<int>)
    requires fmap != eclass && ftabCopy != eclass && ftabCopy != fmap
    requires 0 < n == |b| && IsBytes(b) && n <= fmap.Length && n <= eclass.Length
    requires InBuckets(b, fmap[..n])
    requires ftabCopy.Length == 256 && forall c :: 0 <= c < 256 ==> ftabCopy[c] == Count(b, c, n)
    modifies eclass, ftabCopy
    ensures Bytes(eclass[..], n) == b
  {
    hide Start, Count, ByteAt;
    ghost var f := fmap[..n];
    var i, j := 0, 0;
    while i < n
      invariant 0 <= i <= n && 0 <= j
      invariant i < n ==> j <= b[f[i]]
      invariant forall c :: 0 <= c < 256 ==> ftabCopy[c] == Left(b, c, i)
      invariant forall k :: 0 <= k < i ==> ByteAt(eclass[..], f[k]) == b[f[k]]
    {
      ghost var v := b[f[i]];
      forall c: nat | c < 256
        ensures Left(b, c, i + 1) == Left(b, c, i) - (if c == v then 1 else 0)
        ensures c < v ==> Left(b, c, i) == 0
        ensures c == v ==> Left(b, c, i) > 0
      {
        LeftStep(b, i, v, c);
      }
      while ftabCopy[j] == 0
        invariant 0 <= j <= v
        decreases v - j
      {
        j := j + 1;
      }
      assert j == v && j < 256;  // assertion 1005 of the source
      ftabCopy[j] := ftabCopy[j] - 1;
      ghost var e := eclass[..];
      PutByte(eclass, fmap[i], j);
      forall k | 0 <= k < i + 1 ensures ByteAt(eclass[..], f[k]) == b[f[k]] {
        assert f[k] / 4 < |e|;
      }
      if i + 1 < n { BucketsGrow(b, f, i); }
      i := i + 1;
    }
    forall k | 0 <= k < n ensures Bytes(eclass[..], n)[k] == b[k] {
      var p := PermHits(f, n, k);
    }
  }

  lemma BucketsGrow(b: seq<int>, f: seq<int>, i: int)
    requires IsBytes(b) && InBuckets(b, f) && 0 <= i && i + 1 < |b|
    ensures b[f[i]] <= b[f[i + 1]]
  {
    var c, d := b[f[i]], b[f[i + 1]];
    assert Start(b, c) <= i && i + 1 < Start(b, d + 1);
    if d < c { StartMono(b, d + 1, c); }
  }

  /** The sorted order puts every rotation in the bucket of its first byte. */
  lemma SortedInBuckets(b: seq<int>, f0: seq<int>, f: seq<int>)
    requires IsBytes(b) && b != [] && InBuckets(b, f0) && SortedRotations(b, f)
    ensures InBuckets(b, f)
  {
    InitialOrder(b, f0);
    forall p, q | 0 <= p < q < |f| ensures Cmp(b, f[p], f[q], 1) <= 0 {
      CmpSplit(b, f[p], f[q], 1, |b| - 1);
      assert Cmp(b, f[p], f[q], |b|) <= 0;
    }
    forall p | 0 <= p < |b| ensures b[f[p]] == b[f0[p]] {
      SortedUnique(b, f, f0, 1, p);
    }
  }

  /** fallbackSort: for every non-empty block, `fmap` ends up listing all rotations in
      non-decreasing order, and the block bytes are back in place. */
  method FallbackSort(fmap: array<int>, eclass: array<int>, bhtab: array<Word>, n: int)
    requires fmap != eclass && 0 < n <= 0x8000_0000
    requires n <= fmap.Length && n <= eclass.Length && bhtab.Length >= n / 32 + 3
    modifies fmap, eclass, bhtab
    ensures SortedRotations(Bytes(old(eclass[..]), n), fmap[..n])
    ensures Bytes(eclass[..], n) == Bytes(old(eclass[..]), n)
  {
    hide Headers, SortedTo, SortedRotations, InBuckets, Sentinels;
    ghost var b := Bytes(eclass[..], n);
    var ftab, ftabCopy := CountBytes(eclass, n, b);
    RadixSort(fmap, eclass, ftab, n, b);
    InitTable(bhtab, ftab, n, b);
    ghost var f0 := fmap[..n];
    InitialPerm(b, f0);
    InitialOrder(b, f0);
    InitialHeaders(b, f0, bhtab[..], 1);
    var H := 1;
    while true
      invariant 0 < H <= n
      invariant IsPerm(fmap[..n], n) && SortedTo(b, fmap[..n], H)
      invariant Headers(bhtab[..], b, fmap[..n], H, 0, n) && Sentinels(bhtab[..], n)
      invariant forall c :: 0 <= c < 256 ==> ftabCopy[c] == Count(b, c, n)
      decreases n - H
    {
      var nNotDone := Pass(fmap, eclass, bhtab, n, H, b);
      H := H * 2;
      if H > n || nNotDone == 0 {
        if nNotDone != 0 { SortedDeep(b, fmap[..n], H); }
        break;
      }
    }
    SortedInBuckets(b, f0, fmap[..n]);
    RestoreBlock(fmap, eclass, ftabCopy, n, b);
  }

  lemma InitialPerm(b: seq<int>, f: seq<int>)
    requires IsBytes(b) && InBuckets(b, f)
    ensures IsPerm(f, |b|)
  {
  }
}
