/** fallbackSimpleSort and fallbackQSort3 of deps/bzip2/blocksort.c: they order a stretch of
    `fmap` by the equivalence class of its entries. */
module FallbackQSort {
  import opened Permutations
  import opened Powers

  const SMALL_THRESH := 10
  const STACK_SIZE := 100

  /** The class of entry `x`; total, so that orderings can be stated without side conditions. */
  function Key(e: seq<int>, x: int): int {
    if 0 <= x < |e| then e[x] else 0
  }

  /** The entries at `lo..hi-1` stand in non-decreasing order of class. */
  ghost predicate Ordered(f: seq<int>, e: seq<int>, lo: int, hi: int) {
    && hi <= |f|
    && forall p, q :: 0 <= lo <= p < q < hi ==> Key(e, f[p]) <= Key(e, f[q])
  }

  ghost predicate InRange(f: seq<int>, m: int, lo: int, hi: int) {
    && 0 <= lo && hi <= |f|
    && forall p :: lo <= p < hi ==> 0 <= f[p] < m
  }

  lemma OrderedShort(f: seq<int>, e: seq<int>, lo: int, hi: int)
    requires hi <= lo + 1 && hi <= |f|
    ensures Ordered(f, e, lo, hi)
  {
  }

  /** Entry `i` of `s` moved up to `k`, past exactly the smaller ones, extends the ordered stretch. */
  lemma OrderedInsert(s: seq<int>, t: seq<int>, e: seq<int>, i: int, k: int, hi: int)
    requires 0 <= i <= k < hi <= |s| == |t|
    requires Ordered(s, e, i + 1, hi)
    requires forall p :: i <= p < k ==> t[p] == s[p + 1] && Key(e, s[p + 1]) < Key(e, s[i])
    requires t[k] == s[i] && forall p :: k < p < hi ==> t[p] == s[p]
    requires k + 1 < hi ==> Key(e, s[i]) <= Key(e, s[k + 1])
    ensures Ordered(t, e, i, hi)
  {
    forall p, q | i <= p < q < hi ensures Key(e, t[p]) <= Key(e, t[q]) {
      if k < q { assert Key(e, s[k + 1]) <= Key(e, s[q]); }
    }
  }

  lemma InRangeKept(s: seq<int>, t: seq<int>, m: int, lo: int, hi: int)
    requires SegPerm(s, t, lo, hi) && InRange(s, m, lo, hi)
    ensures InRange(t, m, lo, hi)
  {
    SegPermForall(s, t, lo, hi, x => 0 <= x < m);
  }

  lemma InRangeNarrow(f: seq<int>, m: int, lo: int, hi: int, i: int)
    requires InRange(f, m, lo, hi) && lo <= i
    ensures InRange(f, m, i, hi)
  {
  }

  lemma InRangeAt(f: seq<int>, e: seq<int>, lo: int, hi: int, i: int)
    requires InRange(f, |e|, lo, hi) && lo <= i < hi
    ensures 0 <= i < |f| && 0 <= f[i] < |e| && Key(e, f[i]) == e[f[i]]
  {
  }

  /** One insertion of the gap-4 or the gap-1 pass: entry `i` moves up in steps of `gap`. */
  method GapInsert(fmap: array<int>, eclass: array<int>, i: int, hi: int, gap: int)
    requires fmap != eclass && gap >= 1
    requires 0 <= i <= hi < fmap.Length
    requires InRange(fmap[..], eclass.Length, i, hi + 1)
    modifies fmap
    ensures SegPerm(old(fmap[..]), fmap[..], i, hi + 1)
    ensures gap == 1 && Ordered(old(fmap[..]), eclass[..], i + 1, hi + 1)
            ==> Ordered(fmap[..], eclass[..], i, hi + 1)
  {
    hide SegPerm, Ordered;
    ghost var s, e := fmap[..], eclass[..];
    var tmp := fmap[i];
    var ecTmp := eclass[tmp];
    var j := i + gap;
    assert s[i := tmp] == s;
    SegPermRefl(s, i, hi + 1);
    while j <= hi && ecTmp > eclass[fmap[j]]
      invariant i + gap <= j <= hi + gap
      invariant fmap.Length == |s|
      invariant SegPerm(s, fmap[..][j - gap := tmp], i, hi + 1)
      invariant InRange(fmap[..], |e|, i, hi + 1)
      invariant gap == 1 ==> forall p :: i <= p < j - 1 ==> fmap[p] == s[p + 1] && Key(e, s[p + 1]) < ecTmp
      invariant gap == 1 ==> forall p :: j - 1 <= p <= hi ==> fmap[p] == s[p]
    {
      assert Key(e, fmap[j]) < ecTmp;
      SegPermHole(s, fmap[..], tmp, j - gap, j, i, hi + 1);
      ghost var t := fmap[..];
      fmap[j - gap] := fmap[j];
      assert fmap[..] == t[j - gap := t[j]];
      j := j + gap;
    }
    ghost var u := fmap[..][j - gap := tmp];
    fmap[j - gap] := tmp;
    assert fmap[..] == u;
    if gap == 1 && Ordered(s, e, i + 1, hi + 1) {
      assert Key(e, s[i]) == ecTmp;
      forall p | i <= p < j - 1 ensures u[p] == s[p + 1] && Key(e, s[p + 1]) < Key(e, s[i]) {
        assert fmap[p] == u[p];
      }
      OrderedInsert(s, u, e, i, j - 1, hi + 1);
    }
  }

  /** One pass of insertions, from entry `start` down to `lo`. */
  method GapPass(fmap: array<int>, eclass: array<int>, start: int, lo: int, hi: int, gap: int)
    requires fmap != eclass && gap >= 1
    requires 0 <= lo <= hi < fmap.Length && lo - 1 <= start <= hi
    requires InRange(fmap[..], eclass.Length, lo, hi + 1)
    modifies fmap
    ensures SegPerm(old(fmap[..]), fmap[..], lo, hi + 1)
    ensures gap == 1 && Ordered(old(fmap[..]), eclass[..], start + 1, hi + 1)
            ==> Ordered(fmap[..], eclass[..], lo, hi + 1)
  {
    hide SegPerm, Ordered, InRange;
    ghost var s, e := fmap[..], eclass[..];
    SegPermRefl(s, lo, hi + 1);
    var i := start;
    while i >= lo
      invariant lo - 1 <= i <= hi
      invariant SegPerm(s, fmap[..], lo, hi + 1)
      invariant InRange(fmap[..], |e|, lo, hi + 1)
      invariant gap == 1 && Ordered(s, e, start + 1, hi + 1) ==> Ordered(fmap[..], e, i + 1, hi + 1)
    {
      ghost var t := fmap[..];
      InRangeNarrow(t, |e|, lo, hi + 1, i);
      GapInsert(fmap, eclass, i, hi, gap);
      assert eclass[..] == e;
      SegPermWiden(t, fmap[..], i, hi + 1, lo, hi + 1);
      SegPermTrans(s, t, fmap[..], lo, hi + 1);
      InRangeKept(s, fmap[..], |e|, lo, hi + 1);
      i := i - 1;
    }
  }

  method FallbackSimpleSort(fmap: array<int>, eclass: array<int>, lo: int, hi: int)
    requires fmap != eclass
    requires 0 <= lo <= hi + 1 <= fmap.Length
    requires InRange(fmap[..], eclass.Length, lo, hi + 1)
    modifies fmap
    ensures SegPerm(old(fmap[..]), fmap[..], lo, hi + 1)
    ensures Ordered(fmap[..], eclass[..], lo, hi + 1)
  {
    hide SegPerm, Ordered, InRange;
    ghost var s := fmap[..];
    SegPermRefl(s, lo, hi + 1);
    if lo >= hi {
      OrderedShort(s, eclass[..], lo, hi + 1);
      return;
    }
    if hi - lo > 3 {
      GapPass(fmap, eclass, hi - 4, lo, hi, 4);
      InRangeKept(s, fmap[..], eclass.Length, lo, hi + 1);
    }
    OrderedShort(fmap[..], eclass[..], hi, hi + 1);
    ghost var t := fmap[..];
    GapPass(fmap, eclass, hi - 1, lo, hi, 1);
    SegPermTrans(s, t, fmap[..], lo, hi + 1);
  }

  method Swap(fmap: array<int>, i: int, j: int, ghost lo: int, ghost hi: int)
    requires 0 <= lo <= i < hi <= fmap.Length && lo <= j < hi
    modifies fmap
    ensures fmap[..] == old(fmap[..])[i := old(fmap[j])][j := old(fmap[i])]
    ensures SegPerm(old(fmap[..]), fmap[..], lo, hi)
  {
    hide SegPerm;
    SegPermSwap(fmap[..], i, j, lo, hi);
    fmap[i], fmap[j] := fmap[j], fmap[i];
    assert fmap[..] == old(fmap[..])[i := old(fmap[j])][j := old(fmap[i])];
  }

  /** `t` is `s` with the `n` entries at `a` and the `n` entries at `b` exchanged. */
  ghost predicate VSwapped(s: seq<int>, t: seq<int>, a: int, b: int, n: int, lo: int, hi: int) {
    && |s| == |t| && 0 <= n && 0 <= lo <= a && a + n <= b && b + n <= hi <= |s|
    && (forall p :: a <= p < a + n ==> t[p] == s[p + (b - a)])
    && (forall p :: b <= p < b + n ==> t[p] == s[p - (b - a)])
    && (forall p :: lo <= p < hi && !(a <= p < a + n) && !(b <= p < b + n) ==> t[p] == s[p])
  }

  /** The `fvswap` macro: exchange the `n` entries at `a` with the `n` entries at `b`. */
  method VSwap(fmap: array<int>, a: int, b: int, n: int, ghost lo: int, ghost hi: int)
    requires 0 <= n && 0 <= lo <= a && a + n <= b && b + n <= hi <= fmap.Length
    modifies fmap
    ensures SegPerm(old(fmap[..]), fmap[..], lo, hi)
    ensures VSwapped(old(fmap[..]), fmap[..], a, b, n, lo, hi)
  {
    hide SegPerm;
    ghost var s := fmap[..];
    SegPermRefl(s, lo, hi);
    var yyp1, yyp2, yyn := a, b, n;
    while yyn > 0
      invariant 0 <= yyn <= n && yyp1 == a + (n - yyn) && yyp2 == b + (n - yyn)
      invariant SegPerm(s, fmap[..], lo, hi)
      invariant forall p :: a <= p < yyp1 ==> fmap[p] == s[p + (b - a)]
      invariant forall p :: b <= p < yyp2 ==> fmap[p] == s[p - (b - a)]
      invariant forall p :: lo <= p < hi && !(a <= p < yyp1) && !(b <= p < yyp2) ==> fmap[p] == s[p]
    {
      ghost var t := fmap[..];
      Swap(fmap, yyp1, yyp2, lo, hi);
      assert forall p :: 0 <= p < fmap.Length && p != yyp1 && p != yyp2 ==> fmap[p] == t[p];
      SegPermTrans(s, t, fmap[..], lo, hi);
      yyp1, yyp2, yyn := yyp1 + 1, yyp2 + 1, yyn - 1;
    }
  }

  /** The four-way split kept while scanning: equal, smaller, not yet seen, greater, equal. */
  ghost predicate Split(f: seq<int>, e: seq<int>, med: int,
                        lo: int, ltLo: int, unLo: int, unHi: int, gtHi: int, hi: int) {
    && 0 <= lo <= ltLo <= unLo <= unHi + 1 && unHi <= gtHi <= hi < |f|
    && (forall p :: lo <= p < ltLo || gtHi < p <= hi ==> Key(e, f[p]) == med)
    && (forall p :: ltLo <= p < unLo ==> Key(e, f[p]) < med)
    && (forall p :: unHi < p <= gtHi ==> Key(e, f[p]) > med)
  }

  lemma SplitUp(f: seq<int>, e: seq<int>, med: int, lo: int, ltLo: int, unLo: int, unHi: int, gtHi: int, hi: int)
    requires Split(f, e, med, lo, ltLo, unLo, unHi, gtHi, hi) && unLo <= unHi
    ensures Key(e, f[unLo]) < med ==> Split(f, e, med, lo, ltLo, unLo + 1, unHi, gtHi, hi)
    ensures Key(e, f[unLo]) == med ==>
              Split(f[unLo := f[ltLo]][ltLo := f[unLo]], e, med, lo, ltLo + 1, unLo + 1, unHi, gtHi, hi)
  {
  }

  lemma SplitDown(f: seq<int>, e: seq<int>, med: int, lo: int, ltLo: int, unLo: int, unHi: int, gtHi: int, hi: int)
    requires Split(f, e, med, lo, ltLo, unLo, unHi, gtHi, hi) && unLo <= unHi
    ensures Key(e, f[unHi]) > med ==> Split(f, e, med, lo, ltLo, unLo, unHi - 1, gtHi, hi)
    ensures Key(e, f[unHi]) == med ==>
              Split(f[unHi := f[gtHi]][gtHi := f[unHi]], e, med, lo, ltLo, unLo, unHi - 1, gtHi - 1, hi)
  {
  }

  lemma SplitCross(f: seq<int>, e: seq<int>, med: int, lo: int, ltLo: int, unLo: int, unHi: int, gtHi: int, hi: int)
    requires Split(f, e, med, lo, ltLo, unLo, unHi, gtHi, hi) && unLo < unHi
    requires Key(e, f[unLo]) > med > Key(e, f[unHi])
    ensures Split(f[unLo := f[unHi]][unHi := f[unLo]], e, med, lo, ltLo, unLo + 1, unHi - 1, gtHi, hi)
  {
  }

  lemma SplitBounds(f: seq<int>, e: seq<int>, med: int, lo: int, ltLo: int, unLo: int, unHi: int, gtHi: int, hi: int)
    requires Split(f, e, med, lo, ltLo, unLo, unHi, gtHi, hi)
    ensures 0 <= lo <= ltLo <= unLo <= unHi + 1 && unHi <= gtHi <= hi < |f|
  {
  }

  lemma SplitInit(f: seq<int>, e: seq<int>, med: int, lo: int, hi: int)
    requires 0 <= lo <= hi < |f|
    ensures Split(f, e, med, lo, lo, lo, hi, hi, hi)
  {
  }

  lemma SplitAllEqual(f: seq<int>, e: seq<int>, med: int, lo: int, ltLo: int, unLo: int, unHi: int, gtHi: int, hi: int)
    requires Split(f, e, med, lo, ltLo, unLo, unHi, gtHi, hi) && unHi == unLo - 1 && gtHi < ltLo
    ensures forall p :: lo <= p <= hi ==> Key(e, f[p]) == med
  {
  }

  /** Smaller entries up to `n`, then at least one equal entry, then the greater ones from `m`. */
  ghost predicate Parted(f: seq<int>, e: seq<int>, med: int, lo: int, n: int, m: int, hi: int) {
    && 0 <= lo && lo - 1 <= n && n + 2 <= m <= hi + 1 <= |f|
    && (forall p :: lo <= p <= n ==> Key(e, f[p]) < med)
    && (forall p :: n < p < m ==> Key(e, f[p]) == med)
    && (forall p :: m <= p <= hi ==> Key(e, f[p]) > med)
  }

  /** The two block swaps bring the equal entries from both ends to the middle. */
  lemma PartedByVSwaps(t: seq<int>, u: seq<int>, v: seq<int>, e: seq<int>, med: int,
                       lo: int, ltLo: int, unLo: int, gtHi: int, hi: int, n: int, m: int)
    requires Split(t, e, med, lo, ltLo, unLo, unLo - 1, gtHi, hi) && |t| == |u| == |v|
    requires n == (if ltLo - lo < unLo - ltLo then ltLo - lo else unLo - ltLo)
    requires m == (if hi - gtHi < gtHi - (unLo - 1) then hi - gtHi else gtHi - (unLo - 1))
    requires VSwapped(t, u, lo, unLo - n, n, lo, hi + 1)
    requires VSwapped(u, v, unLo, hi - m + 1, m, lo, hi + 1)
    ensures forall p :: lo <= p < lo + (unLo - ltLo) ==> Key(e, v[p]) < med
    ensures forall p :: lo + (unLo - ltLo) <= p <= hi - (gtHi - unLo + 1) ==> Key(e, v[p]) == med
    ensures forall p :: hi - (gtHi - unLo + 1) < p <= hi ==> Key(e, v[p]) > med
  {
    hide SegPerm, Key;
  }

  /** The partitioning class occurs, so the middle part is not empty. */
  lemma PartedGap(s: seq<int>, f: seq<int>, e: seq<int>, med: int, lo: int, n: int, m: int, hi: int, w: int)
    requires SegPerm(s, f, lo, hi + 1) && lo <= w <= hi && Key(e, s[w]) == med
    requires lo - 1 <= n && n < m <= hi + 1
    requires forall p :: lo <= p <= n ==> Key(e, f[p]) < med
    requires forall p :: n < p < m ==> Key(e, f[p]) == med
    requires forall p :: m <= p <= hi ==> Key(e, f[p]) > med
    ensures Parted(f, e, med, lo, n, m, hi)
  {
    var q := SegPermSource(f, s, lo, hi + 1, w);
    assert Key(e, f[q]) == med;
  }

  /** Look at entry `unLo`; an equal one is swapped to the left end. */
  method StepUp(fmap: array<int>, eclass: array<int>, d: nat, med: int, ghost lo: int, ltLo: int, unLo: int, ghost unHi: int, ghost gtHi: int, ghost hi: int)
    returns (n: int)
    requires fmap != eclass && d <= eclass.Length && unLo <= unHi
    requires Split(fmap[..], eclass[d..], med, lo, ltLo, unLo, unHi, gtHi, hi)
    requires InRange(fmap[..], eclass.Length - d, lo, hi + 1)
    modifies fmap
    ensures SegPerm(old(fmap[..]), fmap[..], lo, hi + 1)
    ensures n < 0 ==> Split(fmap[..], eclass[d..], med, lo, ltLo, unLo + 1, unHi, gtHi, hi)
    ensures n == 0 ==> Split(fmap[..], eclass[d..], med, lo, ltLo + 1, unLo + 1, unHi, gtHi, hi)
    ensures n > 0 ==> Split(fmap[..], eclass[d..], med, lo, ltLo, unLo, unHi, gtHi, hi) && Key(eclass[d..], fmap[unLo]) > med
  {
    hide SegPerm, Split, InRange;
    ghost var s, e := fmap[..], eclass[d..];
    SplitBounds(s, e, med, lo, ltLo, unLo, unHi, gtHi, hi);
    InRangeAt(s, e, lo, hi + 1, unLo);
    SplitUp(s, e, med, lo, ltLo, unLo, unHi, gtHi, hi);
    SegPermRefl(s, lo, hi + 1);
    n := eclass[fmap[unLo] + d] - med;
    if n == 0 {
      Swap(fmap, unLo, ltLo, lo, hi + 1);
    }
  }

  /** Look at entry `unHi`; an equal one is swapped to the right end. */
  method StepDown(fmap: array<int>, eclass: array<int>, d: nat, med: int, ghost lo: int, ghost ltLo: int, ghost unLo: int, unHi: int, gtHi: int, ghost hi: int)
    returns (n: int)
    requires fmap != eclass && d <= eclass.Length && unLo <= unHi
    requires Split(fmap[..], eclass[d..], med, lo, ltLo, unLo, unHi, gtHi, hi)
    requires InRange(fmap[..], eclass.Length - d, lo, hi + 1)
    modifies fmap
    ensures SegPerm(old(fmap[..]), fmap[..], lo, hi + 1)
    ensures n > 0 ==> Split(fmap[..], eclass[d..], med, lo, ltLo, unLo, unHi - 1, gtHi, hi)
    ensures n == 0 ==> Split(fmap[..], eclass[d..], med, lo, ltLo, unLo, unHi - 1, gtHi - 1, hi)
    ensures n < 0 ==> Split(fmap[..], eclass[d..], med, lo, ltLo, unLo, unHi, gtHi, hi) && Key(eclass[d..], fmap[unHi]) < med
    ensures fmap[unLo] == old(fmap[unLo]) || (unLo == unHi && n == 0)
  {
    hide SegPerm, Split, InRange;
    ghost var s, e := fmap[..], eclass[d..];
    SplitBounds(s, e, med, lo, ltLo, unLo, unHi, gtHi, hi);
    InRangeAt(s, e, lo, hi + 1, unHi);
    SplitDown(s, e, med, lo, ltLo, unLo, unHi, gtHi, hi);
    SegPermRefl(s, lo, hi + 1);
    n := eclass[fmap[unHi] + d] - med;
    if n == 0 {
      Swap(fmap, unHi, gtHi, lo, hi + 1);
    }
  }

  method ScanUp(fmap: array<int>, eclass: array<int>, d: nat, med: int, lo: int, lt: int, un: int, unHi: int, ghost gtHi: int, hi: int)
    returns (ltLo: int, unLo: int)
    requires fmap != eclass && d <= eclass.Length
    requires Split(fmap[..], eclass[d..], med, lo, lt, un, unHi, gtHi, hi)
    requires InRange(fmap[..], eclass.Length - d, lo, hi + 1)
    modifies fmap
    ensures SegPerm(old(fmap[..]), fmap[..], lo, hi + 1)
    ensures un <= unLo && Split(fmap[..], eclass[d..], med, lo, ltLo, unLo, unHi, gtHi, hi)
    ensures unLo <= unHi ==> Key(eclass[d..], fmap[unLo]) > med
  {
    hide SegPerm, Split, InRange;
    ghost var s, e := fmap[..], eclass[d..];
    SplitBounds(s, e, med, lo, lt, un, unHi, gtHi, hi);
    SegPermRefl(s, lo, hi + 1);
    ltLo, unLo := lt, un;
    while true
      invariant un <= unLo
      invariant SegPerm(s, fmap[..], lo, hi + 1)
      invariant Split(fmap[..], e, med, lo, ltLo, unLo, unHi, gtHi, hi)
      decreases unHi - unLo
    {
      if unLo > unHi { break; }
      ghost var t := fmap[..];
      InRangeKept(s, t, |e|, lo, hi + 1);
      var n := StepUp(fmap, eclass, d, med, lo, ltLo, unLo, unHi, gtHi, hi);
      SegPermTrans(s, t, fmap[..], lo, hi + 1);
      if n == 0 {
        ltLo, unLo := ltLo + 1, unLo + 1;
        continue;
      }
      if n > 0 { break; }
      unLo := unLo + 1;
    }
  }

  method ScanDown(fmap: array<int>, eclass: array<int>, d: nat, med: int, lo: int, ghost ltLo: int, unLo: int, un: int, gt: int, hi: int)
    returns (unHi: int, gtHi: int)
    requires fmap != eclass && d <= eclass.Length
    requires Split(fmap[..], eclass[d..], med, lo, ltLo, unLo, un, gt, hi)
    requires InRange(fmap[..], eclass.Length - d, lo, hi + 1)
    requires unLo <= un ==> Key(eclass[d..], fmap[unLo]) > med
    modifies fmap
    ensures SegPerm(old(fmap[..]), fmap[..], lo, hi + 1)
    ensures unHi <= un && Split(fmap[..], eclass[d..], med, lo, ltLo, unLo, unHi, gtHi, hi)
    ensures unLo <= unHi ==> unLo < unHi && Key(eclass[d..], fmap[unLo]) > med > Key(eclass[d..], fmap[unHi])
  {
    hide SegPerm, Split, InRange;
    ghost var s, e := fmap[..], eclass[d..];
    SplitBounds(s, e, med, lo, ltLo, unLo, un, gt, hi);
    SegPermRefl(s, lo, hi + 1);
    unHi, gtHi := un, gt;
    while true
      invariant unHi <= un
      invariant SegPerm(s, fmap[..], lo, hi + 1)
      invariant Split(fmap[..], e, med, lo, ltLo, unLo, unHi, gtHi, hi)
      invariant unLo <= unHi ==> Key(e, fmap[unLo]) > med
      decreases unHi - unLo
    {
      if unLo > unHi { break; }
      ghost var t := fmap[..];
      InRangeKept(s, t, |e|, lo, hi + 1);
      var n := StepDown(fmap, eclass, d, med, lo, ltLo, unLo, unHi, gtHi, hi);
      SegPermTrans(s, t, fmap[..], lo, hi + 1);
      if n == 0 {
        gtHi, unHi := gtHi - 1, unHi - 1;
        continue;
      }
      if n < 0 { break; }
      unHi := unHi - 1;
    }
  }

  /** The exchange that ends a round of scanning. */
  method Cross(fmap: array<int>, ghost e: seq<int>, ghost med: int, ghost lo: int, ghost ltLo: int,
               unLo: int, unHi: int, ghost gtHi: int, ghost hi: int)
    requires Split(fmap[..], e, med, lo, ltLo, unLo, unHi, gtHi, hi) && unLo < unHi
    requires Key(e, fmap[unLo]) > med > Key(e, fmap[unHi])
    modifies fmap
    ensures SegPerm(old(fmap[..]), fmap[..], lo, hi + 1)
    ensures Split(fmap[..], e, med, lo, ltLo, unLo + 1, unHi - 1, gtHi, hi)
  {
    hide SegPerm, Split, Key;
    SplitBounds(fmap[..], e, med, lo, ltLo, unLo, unHi, gtHi, hi);
    SplitCross(fmap[..], e, med, lo, ltLo, unLo, unHi, gtHi, hi);
    Swap(fmap, unLo, unHi, lo, hi + 1);
  }

  /** One scan from the left and one from the right, up to a pair of entries in each other's place. */
  method ScanBoth(fmap: array<int>, eclass: array<int>, d: nat, med: int, lo: int, lt: int, un: int, unH: int, gt: int, hi: int)
    returns (ltLo: int, unLo: int, unHi: int, gtHi: int)
    requires fmap != eclass && d <= eclass.Length
    requires Split(fmap[..], eclass[d..], med, lo, lt, un, unH, gt, hi)
    requires InRange(fmap[..], eclass.Length - d, lo, hi + 1)
    modifies fmap
    ensures SegPerm(old(fmap[..]), fmap[..], lo, hi + 1)
    ensures un <= unLo && unHi <= unH && Split(fmap[..], eclass[d..], med, lo, ltLo, unLo, unHi, gtHi, hi)
    ensures unLo <= unHi ==> unLo < unHi && Key(eclass[d..], fmap[unLo]) > med > Key(eclass[d..], fmap[unHi])
  {
    hide SegPerm, Split, InRange, Key;
    ghost var s := fmap[..];
    ltLo, unLo := ScanUp(fmap, eclass, d, med, lo, lt, un, unH, gt, hi);
    ghost var t := fmap[..];
    InRangeKept(s, t, |eclass[d..]|, lo, hi + 1);
    unHi, gtHi := ScanDown(fmap, eclass, d, med, lo, ltLo, unLo, unH, gt, hi);
    SegPermTrans(s, t, fmap[..], lo, hi + 1);
  }

  /** The scanning part of the partitioning. */
  method Scan(fmap: array<int>, eclass: array<int>, d: nat, med: int, lo: int, hi: int)
    returns (ltLo: int, unLo: int, gtHi: int)
    requires fmap != eclass && d <= eclass.Length && 0 <= lo <= hi < fmap.Length
    requires InRange(fmap[..], eclass.Length - d, lo, hi + 1)
    modifies fmap
    ensures SegPerm(old(fmap[..]), fmap[..], lo, hi + 1)
    ensures Split(fmap[..], eclass[d..], med, lo, ltLo, unLo, unLo - 1, gtHi, hi)
  {
    hide SegPerm, Split, InRange, Key;
    ghost var s, e := fmap[..], eclass[d..];
    SegPermRefl(s, lo, hi + 1);
    SplitInit(s, e, med, lo, hi);
    var unHi;
    ltLo, unLo, unHi, gtHi := lo, lo, hi, hi;
    while true
      invariant SegPerm(s, fmap[..], lo, hi + 1)
      invariant Split(fmap[..], e, med, lo, ltLo, unLo, unHi, gtHi, hi)
      decreases unHi - unLo
    {
      ghost var t := fmap[..];
      InRangeKept(s, t, |e|, lo, hi + 1);
      ltLo, unLo, unHi, gtHi := ScanBoth(fmap, eclass, d, med, lo, ltLo, unLo, unHi, gtHi, hi);
      SegPermTrans(s, t, fmap[..], lo, hi + 1);
      t := fmap[..];
      SplitBounds(t, e, med, lo, ltLo, unLo, unHi, gtHi, hi);
      if unLo > unHi { break; }
      Cross(fmap, e, med, lo, ltLo, unLo, unHi, gtHi, hi);
      SegPermTrans(s, t, fmap[..], lo, hi + 1);
      unLo, unHi := unLo + 1, unHi - 1;
    }
  }

  /** The partitioning of both quicksorts, round a class `med` that occurs in the stretch: smaller entries end at `n`,
      greater ones start at `m`, and what is between equals `med`. The class of entry `x` is read at `x + d`. */
  method Partition(fmap: array<int>, eclass: array<int>, d: nat, med: int, lo: int, hi: int, ghost w: int)
    returns (allEqual: bool, n: int, m: int)
    requires fmap != eclass && d <= eclass.Length && 0 <= lo <= w <= hi < fmap.Length
    requires InRange(fmap[..], eclass.Length - d, lo, hi + 1)
    requires Key(eclass[d..], fmap[w]) == med
    modifies fmap
    ensures SegPerm(old(fmap[..]), fmap[..], lo, hi + 1)
    ensures allEqual ==> forall p :: lo <= p <= hi ==> Key(eclass[d..], fmap[p]) == med
    ensures !allEqual ==> Parted(fmap[..], eclass[d..], med, lo, n, m, hi)
  {
    hide SegPerm, Split, InRange, Parted, VSwapped, Key;
    ghost var s, e := fmap[..], eclass[d..];
    var ltLo, unLo, gtHi := Scan(fmap, eclass, d, med, lo, hi);
    var unHi := unLo - 1;
    ghost var t := fmap[..];
    SplitBounds(t, e, med, lo, ltLo, unLo, unHi, gtHi, hi);
    if gtHi < ltLo {
      SplitAllEqual(t, e, med, lo, ltLo, unLo, unHi, gtHi, hi);
      return true, 0, 0;
    }
    n := if ltLo - lo < unLo - ltLo then ltLo - lo else unLo - ltLo;
    VSwap(fmap, lo, unLo - n, n, lo, hi + 1);
    ghost var u := fmap[..];
    SegPermTrans(s, t, u, lo, hi + 1);
    m := if hi - gtHi < gtHi - unHi then hi - gtHi else gtHi - unHi;
    VSwap(fmap, unLo, hi - m + 1, m, lo, hi + 1);
    SegPermTrans(s, u, fmap[..], lo, hi + 1);
    PartedByVSwaps(t, u, fmap[..], e, med, lo, ltLo, unLo, gtHi, hi, n, m);
    n := lo + unLo - ltLo - 1;
    m := hi - (gtHi - unHi) + 1;
    allEqual := false;
    PartedGap(s, fmap[..], e, med, lo, n, m, hi, w);
  }

  // ----- the explicit stack of stretches still to be sorted

  type Range = (int, int)

  /** Stacked stretches lie inside `loSt..hiSt`, do not overlap, and two positions that are not in
      order are inside one of them. */
  ghost predicate Pending(st: seq<Range>, f: seq<int>, e: seq<int>, loSt: int, hiSt: int) {
    && 0 <= loSt && hiSt < |f|
    && (forall k :: 0 <= k < |st| ==> loSt <= st[k].0 <= st[k].1 + 1 && st[k].1 <= hiSt)
    && (forall k, l :: 0 <= k < l < |st| ==> st[k].1 < st[l].0 || st[l].1 < st[k].0)
    && (forall p, q :: loSt <= p < q <= hiSt ==> Key(e, f[p]) <= Key(e, f[q]) || Together(st, p, q))
  }

  ghost predicate Together(st: seq<Range>, p: int, q: int) {
    exists k :: 0 <= k < |st| && st[k].0 <= p && q <= st[k].1
  }

  /** Rearranging the popped stretch `lo..hi` disturbs no pair that is not inside it. */
  lemma PopOthers(st: seq<Range>, lo: int, hi: int, f: seq<int>, g: seq<int>, e: seq<int>, loSt: int, hiSt: int, p: int, q: int)
    requires Pending(st + [(lo, hi)], f, e, loSt, hiSt) && SegPerm(f, g, lo, hi + 1)
    requires loSt <= p < q <= hiSt && !(lo <= p && q <= hi)
    ensures Key(e, g[p]) <= Key(e, g[q]) || Together(st, p, q)
  {
    hide Key, Together;
    var st1 := st + [(lo, hi)];
    assert st1[|st|] == (lo, hi);
    var p0, q0 := p, q;
    if lo <= p <= hi { p0 := SegPermSource(f, g, lo, hi + 1, p); }
    if lo <= q <= hi { q0 := SegPermSource(f, g, lo, hi + 1, q); }
    assert g[p] == f[p0] && g[q] == f[q0];
    forall k | 0 <= k < |st| ensures st[k].1 < lo || hi < st[k].0 {
      assert st[k] == st1[k];
      assert st1[k].1 < st1[|st|].0 || st1[|st|].1 < st1[k].0;
    }
    if Together(st1, p0, q0) { TogetherElsewhere(st, lo, hi, p0, q0, p, q); }
  }

  /** A pair in a stretch that lies apart from `lo..hi` has not been touched. */
  lemma TogetherElsewhere(st: seq<Range>, lo: int, hi: int, p0: int, q0: int, p: int, q: int)
    requires Together(st + [(lo, hi)], p0, q0) && p0 < q0
    requires forall k :: 0 <= k < |st| ==> st[k].1 < lo || hi < st[k].0
    requires p == p0 || (lo <= p <= hi && lo <= p0 <= hi)
    requires q == q0 || (lo <= q <= hi && lo <= q0 <= hi)
    requires p < q && !(lo <= p && q <= hi)
    ensures Together(st, p, q)
  {
    var st1 := st + [(lo, hi)];
    var k :| 0 <= k < |st1| && st1[k].0 <= p0 && q0 <= st1[k].1;
    assert k < |st| ==> st1[k] == st[k];
  }

  lemma PopSorted(st: seq<Range>, lo: int, hi: int, f: seq<int>, g: seq<int>, e: seq<int>, loSt: int, hiSt: int)
    requires Pending(st + [(lo, hi)], f, e, loSt, hiSt) && SegPerm(f, g, lo, hi + 1)
    requires Ordered(g, e, lo, hi + 1)
    ensures Pending(st, g, e, loSt, hiSt)
  {
    var st1 := st + [(lo, hi)];
    assert forall k :: 0 <= k < |st| ==> st[k] == st1[k];
    forall p, q | loSt <= p < q <= hiSt ensures Key(e, g[p]) <= Key(e, g[q]) || Together(st, p, q) {
      if !(lo <= p && q <= hi) { PopOthers(st, lo, hi, f, g, e, loSt, hiSt, p, q); }
    }
  }

  lemma PopParted(st: seq<Range>, lo: int, hi: int, f: seq<int>, g: seq<int>, e: seq<int>, loSt: int, hiSt: int,
                  med: int, n: int, m: int, a: Range, b: Range)
    requires Pending(st + [(lo, hi)], f, e, loSt, hiSt) && SegPerm(f, g, lo, hi + 1)
    requires Parted(g, e, med, lo, n, m, hi)
    requires (a == (lo, n) && b == (m, hi)) || (a == (m, hi) && b == (lo, n))
    ensures Pending(st + [a, b], g, e, loSt, hiSt)
  {
    var st1, st2 := st + [(lo, hi)], st + [a, b];
    assert st1[|st|] == (lo, hi) && st2[|st|] == a && st2[|st| + 1] == b;
    assert forall k :: 0 <= k < |st| ==> st[k] == st1[k] == st2[k];
    forall p, q | loSt <= p < q <= hiSt ensures Key(e, g[p]) <= Key(e, g[q]) || Together(st2, p, q) {
      if !(lo <= p && q <= hi) {
        PopOthers(st, lo, hi, f, g, e, loSt, hiSt, p, q);
        if Together(st, p, q) {
          var k :| 0 <= k < |st| && st[k].0 <= p && q <= st[k].1;
          assert st2[k].0 <= p && q <= st2[k].1;
        }
      }
    }
  }

  /** Entry `k` of the stack has at most `total / 2^k` elements, and the stretch partitioned to
      get it was a long one. */
  ghost predicate Fits(r: Range, k: nat, total: int) {
    && (r.1 - r.0 + 1) * Pow2(k) <= total
    && (k >= 1 ==> (SMALL_THRESH + 1) * Pow2(k - 1) <= total)
  }

  ghost predicate Halving(st: seq<Range>, total: int) {
    forall k :: 0 <= k < |st| ==> Fits(st[k], k, total)
  }

  lemma FitsDepth(r: Range, k: nat, total: int)
    requires Fits(r, k, total) && total <= 0x8000_0000
    ensures k <= 28
  {
    if k >= 29 {
      Pow2Value();
      Pow2Mono(28, k - 1);
    }
  }

  /** For any 32-bit stretch the stack holds at most 29 entries, so assertion 1004 cannot fire. */
  lemma StackDepth(st: seq<Range>, total: int)
    requires Halving(st, total) && total <= 0x8000_0000
    ensures |st| <= 29
  {
    if |st| > 0 { FitsDepth(st[|st| - 1], |st| - 1, total); }
  }

  lemma Pow2Value()
    ensures Pow2(28) == 0x1000_0000
  {
    assert Pow2(4) == 16;
    assert Pow2(8) == 256;
    assert Pow2(12) == 0x1000;
    assert Pow2(16) == 0x1_0000;
    assert Pow2(20) == 0x10_0000;
    assert Pow2(24) == 0x100_0000;
  }

  lemma FitsPush(lo: int, hi: int, a: Range, b: Range, k: nat, total: int)
    requires Fits((lo, hi), k, total) && hi - lo >= SMALL_THRESH
    requires a.1 - a.0 + 1 <= hi - lo + 1 && 2 * (b.1 - b.0 + 1) <= hi - lo + 1
    ensures Fits(a, k, total) && Fits(b, k + 1, total)
  {
    var P := Pow2(k);
    assert Pow2(k + 1) == 2 * P;
    MulLe(a.1 - a.0 + 1, hi - lo + 1, P);
    MulLe(2 * (b.1 - b.0 + 1), hi - lo + 1, P);
    MulLe(SMALL_THRESH + 1, hi - lo + 1, P);
    assert (b.1 - b.0 + 1) * (2 * P) == 2 * (b.1 - b.0 + 1) * P;
  }

  lemma HalvingPush(st: seq<Range>, lo: int, hi: int, a: Range, b: Range, total: int)
    requires Halving(st + [(lo, hi)], total) && hi - lo >= SMALL_THRESH
    requires a.1 - a.0 + 1 <= hi - lo + 1 && 2 * (b.1 - b.0 + 1) <= hi - lo + 1
    ensures Halving(st + [a, b], total)
  {
    hide Fits;
    var st1, st2 := st + [(lo, hi)], st + [a, b];
    assert st1[|st|] == (lo, hi);
    FitsPush(lo, hi, a, b, |st|, total);
    forall k | 0 <= k < |st2| ensures Fits(st2[k], k, total) {
      if k < |st| { assert st2[k] == st1[k]; }
    }
  }

  lemma MulLe(x: int, y: int, p: nat)
    requires x <= y
    ensures x * p <= y * p
  {
  }

  ghost function Work(st: seq<Range>): nat {
    if st == [] then 0
    else
      var z := st[|st| - 1].1 - st[|st| - 1].0 + 1;
      Work(st[..|st| - 1]) + (if z < 0 then 1 else 2 * z + 1)
  }

  lemma WorkPop(st: seq<Range>, lo: int, hi: int)
    requires lo <= hi + 1
    ensures Work(st + [(lo, hi)]) == Work(st) + 2 * (hi - lo + 1) + 1
  {
    assert (st + [(lo, hi)])[..|st|] == st;
  }

  lemma WorkPush(st: seq<Range>, a: Range, b: Range)
    requires a.0 <= a.1 + 1 && b.0 <= b.1 + 1
    ensures Work(st + [a, b]) == Work(st) + 2 * (a.1 - a.0 + 1) + 1 + 2 * (b.1 - b.0 + 1) + 1
  {
    assert st + [a, b] == (st + [a]) + [b];
    WorkPop(st, a.0, a.1);
    WorkPop(st + [a], b.0, b.1);
  }

  lemma PendingInit(f: seq<int>, e: seq<int>, loSt: int, hiSt: int)
    requires 0 <= loSt <= hiSt < |f|
    ensures Pending([(loSt, hiSt)], f, e, loSt, hiSt)
    ensures Halving([(loSt, hiSt)], hiSt - loSt + 1)
  {
    var st: seq<Range> := [(loSt, hiSt)];
    assert st[0] == (loSt, hiSt) && Pow2(0) == 1;
    forall p, q | loSt <= p < q <= hiSt ensures Together(st, p, q) {
      assert st[0].0 <= p && q <= st[0].1;
    }
  }

  lemma PendingTop(st: seq<Range>, lo: int, hi: int, f: seq<int>, e: seq<int>, loSt: int, hiSt: int)
    requires Pending(st + [(lo, hi)], f, e, loSt, hiSt)
    ensures 0 <= loSt <= lo <= hi + 1 && hi <= hiSt < |f|
  {
    assert (st + [(lo, hi)])[|st|] == (lo, hi);
  }

  lemma PendingDone(f: seq<int>, e: seq<int>, loSt: int, hiSt: int)
    requires Pending([], f, e, loSt, hiSt)
    ensures Ordered(f, e, loSt, hiSt + 1)
  {
  }

  lemma HalvingPop(st: seq<Range>, x: Range, total: int)
    requires Halving(st + [x], total)
    ensures Halving(st, total)
  {
    assert forall k :: 0 <= k < |st| ==> st[k] == (st + [x])[k];
  }

  /** One stretch is taken off the stack: it is either put in order, or partitioned into the two
      stretches `a` and `b`, the larger one first. */
  method SortOne(fmap: array<int>, eclass: array<int>, r: int, lo: int, hi: int)
    returns (r': int, split: bool, a: Range, b: Range, ghost med: int, ghost n: int, ghost m: int)
    requires fmap != eclass && 0 <= r < 32768
    requires 0 <= lo <= hi + 1 <= fmap.Length
    requires InRange(fmap[..], eclass.Length, lo, hi + 1)
    modifies fmap
    ensures 0 <= r' < 32768
    ensures SegPerm(old(fmap[..]), fmap[..], lo, hi + 1)
    ensures !split ==> Ordered(fmap[..], eclass[..], lo, hi + 1)
    ensures split ==> hi - lo >= SMALL_THRESH && Parted(fmap[..], eclass[..], med, lo, n, m, hi)
    ensures split ==> (a == (lo, n) && b == (m, hi)) || (a == (m, hi) && b == (lo, n))
    ensures split ==> a.1 - a.0 >= b.1 - b.0
  {
    hide SegPerm, InRange, Parted;
    r', split, a, b, med, n, m := r, false, (0, 0), (0, 0), 0, 0, 0;
    if hi - lo < SMALL_THRESH {
      FallbackSimpleSort(fmap, eclass, lo, hi);
      return;
    }
    r' := ((r * 7621) + 1) % 32768;
    var r3 := r' % 3;
    var w := if r3 == 0 then lo else if r3 == 1 then (lo + hi) / 2 else hi;
    InRangeAt(fmap[..], eclass[..], lo, hi + 1, w);
    var pivot := eclass[fmap[w]];
    assert eclass[0..] == eclass[..];
    var allEqual, lt, gt := Partition(fmap, eclass, 0, pivot, lo, hi, w);
    if allEqual {
      return;
    }
    split, med, n, m := true, pivot, lt, gt;
    if lt - lo > hi - gt {
      a, b := (lo, lt), (gt, hi);
    } else {
      a, b := (gt, hi), (lo, lt);
    }
  }

  /** fallbackQSort3: the stretch ends up ordered by class, and only rearranged. */
  method FallbackQSort3(fmap: array<int>, eclass: array<int>, loSt: int, hiSt: int)
    requires fmap != eclass
    requires 0 <= loSt <= hiSt < fmap.Length && hiSt - loSt + 1 <= 0x8000_0000
    requires InRange(fmap[..], eclass.Length, loSt, hiSt + 1)
    modifies fmap
    ensures SegPerm(old(fmap[..]), fmap[..], loSt, hiSt + 1)
    ensures Ordered(fmap[..], eclass[..], loSt, hiSt + 1)
  {
    hide SegPerm, InRange, Ordered, Parted, Pending, Halving, Work, Stacked;
    ghost var s, e, total := fmap[..], eclass[..], hiSt - loSt + 1;
    var stackLo, stackHi := new int[STACK_SIZE], new int[STACK_SIZE];
    assert Stacked(stackLo[..], stackHi[..], []) by { StackedNone(stackLo[..], stackHi[..]); }
    ghost var st: seq<Range> := [(loSt, hiSt)];
    var r := 0;
    var sp := 0;
    Push(stackLo, stackHi, sp, (loSt, hiSt), []);
    assert [] + [(loSt, hiSt)] == st;
    sp := sp + 1;
    SegPermRefl(s, loSt, hiSt + 1);
    PendingInit(s, e, loSt, hiSt);
    while sp > 0
      invariant sp == |st| && 0 <= r < 32768
      invariant Stacked(stackLo[..], stackHi[..], st)
      invariant SegPerm(s, fmap[..], loSt, hiSt + 1)
      invariant Pending(st, fmap[..], e, loSt, hiSt) && Halving(st, total)
      decreases Work(st)
    {
      StackDepth(st, total);
      assert sp < STACK_SIZE - 1;  // assertion 1004 of the source
      sp := sp - 1;
      var lo, hi := stackLo[sp], stackHi[sp];
      ghost var st0, t := st[..sp], fmap[..];
      StackedTop(stackLo[..], stackHi[..], st);
      assert st == st0 + [(lo, hi)];
      PendingTop(st0, lo, hi, t, e, loSt, hiSt);
      InRangeKept(s, t, |e|, loSt, hiSt + 1);
      InRangeSub(t, |e|, loSt, hiSt + 1, lo, hi + 1);
      WorkPop(st0, lo, hi);
      var split, a, b;
      ghost var med, n, m;
      r, split, a, b, med, n, m := SortOne(fmap, eclass, r, lo, hi);
      SegPermWiden(t, fmap[..], lo, hi + 1, loSt, hiSt + 1);
      SegPermTrans(s, t, fmap[..], loSt, hiSt + 1);
      if split {
        PopParted(st0, lo, hi, t, fmap[..], e, loSt, hiSt, med, n, m, a, b);
        PartedSizes(fmap[..], e, med, lo, n, m, hi, a, b);
        HalvingPush(st0, lo, hi, a, b, total);
        WorkPush(st0, a, b);
        st := st0 + [a, b];
        PushBoth(stackLo, stackHi, sp, a, b, st0);
        sp := sp + 2;
      } else {
        PopSorted(st0, lo, hi, t, fmap[..], e, loSt, hiSt);
        HalvingPop(st0, (lo, hi), total);
        st := st0;
      }
    }
    PendingDone(fmap[..], e, loSt, hiSt);
  }

  ghost predicate Stacked(los: seq<int>, his: seq<int>, st: seq<Range>) {
    && |st| <= |los| == |his|
    && forall k :: 0 <= k < |st| ==> los[k] == st[k].0 && his[k] == st[k].1
  }

  lemma StackedNone(los: seq<int>, his: seq<int>)
    requires |los| == |his|
    ensures Stacked(los, his, [])
  {
  }

  lemma StackedTop(los: seq<int>, his: seq<int>, st: seq<Range>)
    requires Stacked(los, his, st) && st != []
    ensures |los| == |his| && |st| <= |los|
    ensures st[|st| - 1] == (los[|st| - 1], his[|st| - 1])
    ensures Stacked(los, his, st[..|st| - 1])
  {
  }

  /** The `fpush` macro. */
  method Push(stackLo: array<int>, stackHi: array<int>, sp: int, x: Range, ghost st: seq<Range>)
    requires stackLo != stackHi && stackLo.Length == stackHi.Length
    requires sp == |st| < stackLo.Length && Stacked(stackLo[..], stackHi[..], st)
    modifies stackLo, stackHi
    ensures Stacked(stackLo[..], stackHi[..], st + [x])
  {
    stackLo[sp], stackHi[sp] := x.0, x.1;
  }

  method PushBoth(stackLo: array<int>, stackHi: array<int>, sp: int, a: Range, b: Range, ghost st: seq<Range>)
    requires stackLo != stackHi && stackLo.Length == stackHi.Length
    requires sp == |st| < stackLo.Length - 1 && Stacked(stackLo[..], stackHi[..], st)
    modifies stackLo, stackHi
    ensures Stacked(stackLo[..], stackHi[..], st + [a, b])
  {
    hide Stacked;
    Push(stackLo, stackHi, sp, a, st);
    Push(stackLo, stackHi, sp + 1, b, st + [a]);
    assert st + [a, b] == st + [a] + [b];
  }

  lemma InRangeSub(f: seq<int>, m: int, lo: int, hi: int, lo': int, hi': int)
    requires InRange(f, m, lo, hi) && lo <= lo' && hi' <= hi
    ensures InRange(f, m, lo', hi')
  {
  }

  lemma PartedSizes(f: seq<int>, e: seq<int>, med: int, lo: int, n: int, m: int, hi: int, a: Range, b: Range)
    requires Parted(f, e, med, lo, n, m, hi)
    requires (a == (lo, n) && b == (m, hi)) || (a == (m, hi) && b == (lo, n))
    requires a.1 - a.0 >= b.1 - b.0
    ensures a.0 <= a.1 + 1 && b.0 <= b.1 + 1
    ensures (a.1 - a.0 + 1) + (b.1 - b.0 + 1) <= hi - lo
    ensures 2 * (b.1 - b.0 + 1) <= hi - lo + 1
  {
  }
}
