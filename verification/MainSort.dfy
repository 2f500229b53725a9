/** mainSort of blocksort.c. */
module MainSort {
  import opened Counting
  import opened FallbackQSort
  import opened MainQSort
  import opened Permutations
  import opened PointerScan
  import opened QuadrantCache
  import opened Rotations
  import opened SmallBuckets

  // ----- the radix sort on two bytes

  /** `(j >> 8) | (c << 8)` */
  function Shifted(j: nat, c: nat): nat { j / 256 + c * 256 }

  /** Going down through the block, the shifted word is the key of the rotation that starts there. */
  lemma ShiftedKey(b: seq<int>, i: int, j: nat)
    requires IsBytes(b) && 0 <= i < |b| && j / 256 == b[Next(i, |b|)]
    ensures Shifted(j, b[i]) == Keys(b)[i] < 65536 && Shifted(j, b[i]) / 256 == b[i]
  {
  }

  /** The frequencies of pairs of bytes. */
  method CountPairs(block: array<int>, ftab: array<int>, nblock: nat, ghost b: seq<int>)
    requires ftab != block && ftab.Length == 65537 && 0 < nblock <= block.Length && b == block[..nblock] && IsBytes(b)
    modifies ftab
    ensures forall sb: nat {:trigger ftab[sb]} :: sb < 65537 ==> ftab[sb] == Count(Keys(b), sb, nblock)
  {
    hide Keys;
    ghost var k := Keys(b);
    var i := 65536;
    while i >= 0
      invariant -1 <= i <= 65536 && forall sb: nat {:trigger ftab[sb]} :: i < sb < 65537 ==> ftab[sb] == 0
    {
      ftab[i] := 0;
      i := i - 1;
    }
    var j: nat := block[0] * 256;
    i := nblock - 1;
    while i >= 0
      invariant -1 <= i < nblock && j / 256 == b[if i + 1 == nblock then 0 else i + 1]
      invariant forall sb: nat {:trigger ftab[sb]} :: sb < 65537 ==> ftab[sb] == Count(k, sb, nblock) - Count(k, sb, i + 1)
    {
      ShiftedKey(b, i, j);
      j := Shifted(j, block[i]);
      ftab[j] := ftab[j] + 1;
      i := i - 1;
    }
  }

  /** Frequencies become bucket ends. */
  method AddUp(ftab: array<int>, ghost k: seq<int>)
    requires ftab.Length == 65537 && forall sb: nat {:trigger ftab[sb]} :: sb < 65537 ==> ftab[sb] == Count(k, sb, |k|)
    modifies ftab
    ensures forall sb: nat {:trigger ftab[sb]} :: sb < 65537 ==> ftab[sb] == Start(k, sb + 1)
  {
    assert Start(k, 1) == Start(k, 0) + Count(k, 0, |k|);
    var i := 1;
    while i <= 65536
      invariant 1 <= i <= 65537
      invariant forall sb: nat {:trigger ftab[sb]} :: sb < i ==> ftab[sb] == Start(k, sb + 1)
      invariant forall sb: nat {:trigger ftab[sb]} :: i <= sb < 65537 ==> ftab[sb] == Count(k, sb, |k|)
    {
      ftab[i] := ftab[i] + ftab[i - 1];
      i := i + 1;
    }
  }

  /** The place of rotation `i`: those with its key stand in the order of their positions. */
  ghost function Home(k: seq<int>, i: int): int
    requires 0 <= i < |k| && Naturals(k)
  {
    Start(k, k[i]) + Count(k, k[i], i)
  }

  lemma HomeInside(k: seq<int>, i: int)
    requires 0 <= i < |k| && Naturals(k)
    ensures 0 <= Start(k, k[i]) <= Home(k, i) < Start(k, k[i] + 1) <= |k|
  {
    CountStrict(k, i, |k|);
    StartInside(k, k[i] + 1);
  }

  lemma HomesDiffer(k: seq<int>, i: int, j: int)
    requires 0 <= i < j < |k| && Naturals(k)
    ensures Home(k, i) != Home(k, j)
  {
    HomeInside(k, i);
    HomeInside(k, j);
    if k[i] == k[j] { CountStrict(k, i, j); }
    if k[i] < k[j] { StartMono(k, k[i] + 1, k[j]); }
    if k[j] < k[i] { StartMono(k, k[j] + 1, k[i]); }
  }

  lemma HomesClassed(k: seq<int>, f: seq<int>)
    requires Naturals(k) && |f| == |k| && forall i :: 0 <= i < |k| ==> 0 <= Home(k, i) < |k| && f[Home(k, i)] == i
    ensures Classed(k, f)
  {
    hide Start, Count;
    var homes := seq(|k|, i requires 0 <= i < |k| => Home(k, i));
    forall i, j | 0 <= i < j < |k| ensures homes[i] != homes[j] { HomesDiffer(k, i, j); }
    assert IsPerm(homes, |k|);
    forall p | 0 <= p < |k|
      ensures 0 <= f[p] < |k| && Home(k, f[p]) == p && Start(k, k[f[p]]) <= p < Start(k, k[f[p]] + 1)
    {
      var i := PermHits(homes, |k|, p);
      assert homes[i] == Home(k, i);
      HomeInside(k, i);
    }
  }

  /** Rotations go to their buckets, which are filled from their ends. */
  method FillBuckets(ptr: array<int>, block: array<int>, ftab: array<int>, nblock: nat, ghost b: seq<int>)
    requires ftab != block && ftab != ptr && ptr != block && ftab.Length == 65537 && nblock <= ptr.Length
    requires 0 < nblock <= block.Length && b == block[..nblock] && IsBytes(b)
    requires forall sb: nat {:trigger ftab[sb]} :: sb < 65537 ==> ftab[sb] == Start(Keys(b), sb + 1)
    modifies ptr, ftab
    ensures Classed(Keys(b), ptr[..nblock])
    ensures forall sb: nat {:trigger ftab[sb]} :: sb < 65537 ==> ftab[sb] == Start(Keys(b), sb)
  {
    hide Keys, Start, Home;
    ghost var k := Keys(b);
    KeysNatural(b);
    EndsMeet(k);
    var s: nat := block[0] * 256;
    var i := nblock - 1;
    while i >= 0
      invariant -1 <= i < nblock && s / 256 == b[if i + 1 == nblock then 0 else i + 1]
      invariant forall sb: nat {:trigger ftab[sb]} :: sb < 65537 ==> ftab[sb] == Start(k, sb) + Count(k, sb, i + 1)
      invariant forall m :: i < m < nblock ==> 0 <= Home(k, m) < nblock && ptr[Home(k, m)] == m
    {
      ShiftedKey(b, i, s);
      s := Shifted(s, block[i]);
      var j := ftab[s] - 1;
      HomeThere(k, i);
      ftab[s] := j;
      ptr[j] := i;
      i := i - 1;
    }
    HomesClassed(k, ptr[..nblock]);
  }

  lemma HomeThere(k: seq<int>, i: int)
    requires 0 <= i < |k| && Naturals(k)
    ensures 0 <= Home(k, i) == Start(k, k[i]) + Count(k, k[i], i) < |k| && Count(k, k[i], i + 1) == Count(k, k[i], i) + 1
    ensures forall m :: i < m < |k| ==> Home(k, m) != Home(k, i)
    ensures forall sb: nat :: sb != k[i] ==> Count(k, sb, i + 1) == Count(k, sb, i)
  {
    HomeInside(k, i);
    forall m | i < m < |k| ensures Home(k, m) != Home(k, i) { HomesDiffer(k, i, m); }
  }

  lemma EndsMeet(k: seq<int>)
    ensures forall sb: nat :: Start(k, sb + 1) == Start(k, sb) + Count(k, sb, |k|)
  {
  }

  // ----- the running order

  /** BIGFREQ, from the table before any bucket is marked. */
  ghost function BigFreqs(ftab: seq<int>): (e: seq<int>)
    requires |ftab| == 65537
    ensures |e| == 256
  {
    seq(256, c requires 0 <= c < 256 => ftab[(c + 1) * 256] - ftab[c * 256])
  }

  method BigFreq(ftab: array<int>, c: int) returns (r: int)
    requires ftab.Length == 65537 && 0 <= c < 256
    ensures r == Key(BigFreqs(ftab[..]), c)
  {
    r := ftab[(c + 1) * 256] - ftab[c * 256];
  }

  /** One insertion of the Shell sort. */
  method InsertBucket(runningOrder: array<int>, ftab: array<int>, i: int, h: int)
    requires runningOrder != ftab && runningOrder.Length == 256 && ftab.Length == 65537 && 1 <= h <= i < 256
    requires InRange(runningOrder[..], 256, 0, 256)
    modifies runningOrder
    ensures SegPerm(old(runningOrder[..]), runningOrder[..], 0, 256)
    ensures h == 1 && Ordered(old(runningOrder[..]), BigFreqs(ftab[..]), 0, i) ==> Ordered(runningOrder[..], BigFreqs(ftab[..]), 0, i + 1)
  {
    hide SegPerm, Ordered, Key, BigFreqs, Sinking;
    ghost var s, e := runningOrder[..], BigFreqs(ftab[..]);
    var vv := runningOrder[i];
    var j := i;
    assert s[i := vv] == s;
    SegPermRefl(s, 0, 256);
    SinkStart(s, e, 0, i);
    var weight := BigFreq(ftab, vv);
    var other := BigFreq(ftab, runningOrder[j - h]);
    while other > weight
      invariant 0 <= j <= i && runningOrder.Length == 256 && (other > weight ==> h <= j)
      invariant h <= j ==> 0 <= runningOrder[j - h] < 256 && other == Key(e, runningOrder[j - h])
      invariant SegPerm(s, runningOrder[..][j := vv], 0, 256) && InRange(runningOrder[..], 256, 0, 256)
      invariant h == 1 ==> Sinking(s, runningOrder[..], e, 0, j, i, vv)
      decreases j, if other > weight then 1 else 0
    {
      SegPermHole(s, runningOrder[..], vv, j, j - h, 0, 256);
      ghost var t := runningOrder[..];
      if h == 1 { SinkStep(s, t, e, 0, j, i, vv); }
      runningOrder[j] := runningOrder[j - h];
      assert runningOrder[..] == t[j := t[j - h]];
      j := j - h;
      if j <= h - 1 {
        other := weight;
      } else {
        other := BigFreq(ftab, runningOrder[j - h]);
      }
    }
    ghost var now := runningOrder[..];
    ghost var u := now[j := vv];
    runningOrder[j] := vv;
    assert runningOrder[..] == u;
    if h == 1 && Ordered(s, e, 0, i) {
      SinkEnd(s, now, e, 0, j, i, vv);
    }
  }

  /** The big buckets, each once, the smallest first. */
  method RunningOrder(ftab: array<int>) returns (runningOrder: array<int>)
    requires ftab.Length == 65537
    ensures fresh(runningOrder) && IsPerm(runningOrder[..], 256) && Ordered(runningOrder[..], BigFreqs(ftab[..]), 0, 256)
  {
    hide SegPerm, Ordered, Key, BigFreqs;
    runningOrder := new int[256](i => i);
    ghost var s, e := runningOrder[..], BigFreqs(ftab[..]);
    SegPermRefl(s, 0, 256);
    var h := 4;
    while h <= 256
      invariant h == 4 || h == 13 || h == 40 || h == 121 || h == 364
      decreases 364 - h
    {
      h := 3 * h + 1;
    }
    while h != 1
      invariant h == 364 || h == 121 || h == 40 || h == 13 || h == 4 || h == 1
      invariant runningOrder.Length == 256 && SegPerm(s, runningOrder[..], 0, 256) && InRange(runningOrder[..], 256, 0, 256)
      invariant h == 1 ==> Ordered(runningOrder[..], e, 0, 256)
      decreases h
    {
      h := h / 3;
      OrderedShort(runningOrder[..], e, 0, 1);
      var i := h;
      while i <= 255
        invariant h <= i <= 256 && runningOrder.Length == 256 && SegPerm(s, runningOrder[..], 0, 256)
        invariant InRange(runningOrder[..], 256, 0, 256)
        invariant h == 1 ==> Ordered(runningOrder[..], e, 0, i)
      {
        ghost var t := runningOrder[..];
        InsertBucket(runningOrder, ftab, i, h);
        SegPermTrans(s, t, runningOrder[..], 0, 256);
        InRangeKept(t, runningOrder[..], 256, 0, 256);
        i := i + 1;
      }
    }
    IsPermKept(s, runningOrder[..], 0, 256, 256);
  }

  // ----- marks

  /** `v & SETMASK` */
  function Marked(v: nat): bool { v / SETMASK % 2 == 1 }

  /** `v | SETMASK` */
  function WithMark(v: nat): nat { if Marked(v) then v else v + SETMASK }

  lemma MarkFacts(v: nat)
    ensures Marked(WithMark(v)) && WithMark(v) % SETMASK == v % SETMASK
  {
  }

  /** `ftab[sb] |= SETMASK` */
  method SetMark(ftab: array<int>, sb: nat, ghost k: seq<int>)
    requires Table(ftab[..], k) && sb < 65536
    modifies ftab
    ensures Table(ftab[..], k) && Marked(ftab[sb])
    ensures forall v: nat {:trigger ftab[v]} :: v < 65536 && v != sb ==> Marked(ftab[v]) == Marked(old(ftab[v]))
  {
    hide Start, Marked, WithMark;
    ghost var t := ftab[..];
    assert t[sb] == ftab[sb];
    MarkFacts(ftab[sb]);
    ftab[sb] := WithMark(ftab[sb]);
    forall v: nat {:trigger ftab[v]} | v < 65537 ensures 0 <= ftab[v] && ftab[v] % SETMASK == Start(k, v) { assert t[v] % SETMASK == Start(k, v); }
  }

  /** Small bucket `sb` is in order. */
  ghost predicate InOrderAt(b: seq<int>, f: seq<int>, sb: nat) {
    Ordered(f, Ranks(b), Start(Keys(b), sb), Start(Keys(b), sb + 1))
  }

  /** The table, its marks, and the listing. */
  ghost predicate Sound(b: seq<int>, f: seq<int>, ftab: seq<int>) {
    && IsBytes(b) && Classed(Keys(b), f) && Table(ftab, Keys(b))
    && forall sb: nat {:trigger ftab[sb]} :: sb < 65536 && Marked(ftab[sb]) ==> InOrderAt(b, f, sb)
  }

  lemma PrefixPerm(s: seq<int>, t: seq<int>, lo: int, hi: int, n: int)
    requires SegPerm(s, t, lo, hi) && hi <= n <= |s|
    ensures |s| == |t| && SegPerm(s[..n], t[..n], lo, hi)
  {
    assert s[..n][lo..hi] == s[lo..hi] && t[..n][lo..hi] == t[lo..hi];
  }

  /** Rearranging one small bucket leaves the others in order. */
  lemma OrderElsewhere(b: seq<int>, f: seq<int>, g: seq<int>, c: nat, d: nat)
    requires IsBytes(b) && Classed(Keys(b), f) && SegPerm(f, g, Start(Keys(b), c), Start(Keys(b), c + 1)) && c != d && InOrderAt(b, f, d)
    ensures InOrderAt(b, g, d)
  {
    hide Keys, Ranks, Key, Start;
    var k := Keys(b);
    ClassBounds(k, f, d, d + 1);
    if c < d { ClassBounds(k, f, c + 1, d); } else { ClassBounds(k, f, d + 1, c); }
  }

  /** Rotations with the same key agree in two bytes. */
  lemma SameKeyTied(b: seq<int>, f: seq<int>, g: seq<int>, sb: nat)
    requires IsBytes(b) && Classed(Keys(b), f) && |f| <= |g| && f == g[..|f|] && Start(Keys(b), sb) >= 0
    ensures TiedTo(b, g, Start(Keys(b), sb), Start(Keys(b), sb + 1), 2)
  {
    hide Keys, Ranks, Key, Start, Cmp;
    var k := Keys(b);
    ClassBounds(k, f, sb, sb + 1);
    var lo, hi := Start(k, sb), Start(k, sb + 1);
    forall p | lo <= p < hi ensures 0 <= g[p] < |b| && k[g[p]] == sb && g[p] == f[p] {
      assert g[p] == f[p];
      ClassAt(k, f, p, sb);
    }
    forall p, q | lo <= p < q < hi ensures g[p] != g[q] { assert f[p] != f[q]; }
    forall p, q | lo <= p < hi && lo <= q < hi ensures Cmp(b, g[p], g[q], 2) == 0 {
      KeyParts(b, g[p]);
      KeyParts(b, g[q]);
      TwoBytes(b, g[p], g[q]);
    }
  }

  // ----- step 1

  /** One small bucket, unless it is in order already. */
  method SortSmall(ptr: array<int>, block: array<int>, quadrant: array<UInt16>, ftab: array<int>, nblock: nat, sb: nat, budget0: int)
    returns (budget: int)
    requires ptr != block && ptr != ftab && nblock <= ptr.Length && nblock <= 2391484 && sb < 65536
    requires Consistent(block[..], quadrant[..], nblock) && Sound(block[..nblock], ptr[..nblock], ftab[..])
    modifies ptr
    ensures Charged(block[..nblock], N_RADIX, budget0, budget) && Sound(block[..nblock], ptr[..nblock], ftab[..])
    ensures Marked(ftab[sb]) || budget < 0 || InOrderAt(block[..nblock], ptr[..nblock], sb)
    ensures budget < 0 ==> budget < budget0 || budget0 < 0
  {
    hide Keys, Ranks, Key, Start, SegPerm, Ordered, Marked, Classed, Truthful, Repeats, TiedTo, Repetitive;
    budget := budget0;
    Sizes(block[..], quadrant[..], nblock);
    ghost var b, f, k := block[..nblock], ptr[..nblock], Keys(block[..nblock]);
    TableAt(ftab[..], k, sb);
    TableAt(ftab[..], k, sb + 1);
    ClassBounds(k, f, sb, sb + 1);
    if !Marked(ftab[sb]) {
      var lo, hi := Cleared(ftab[sb]), Cleared(ftab[sb + 1]) - 1;
      if hi > lo {
        ghost var s := ptr[..];
        SameKeyTied(b, f, s, sb);
        budget := MainQSort3(ptr, block, quadrant, nblock, lo, hi, N_RADIX, budget);
        PrefixPerm(s, ptr[..], lo, hi + 1, nblock);
        SoundKept(b, f, ptr[..nblock], ftab[..], sb);
        if budget >= 0 { OrderedPrefix(ptr[..], Ranks(b), lo, hi + 1, nblock); }
      } else {
        OrderedShort(f, Ranks(b), lo, hi + 1);
      }
    }
  }

  lemma OrderedPrefix(f: seq<int>, e: seq<int>, lo: int, hi: int, n: int)
    requires Ordered(f, e, lo, hi) && 0 <= n && hi <= n <= |f|
    ensures Ordered(f[..n], e, lo, hi)
  {
  }

  lemma SoundKept(b: seq<int>, f: seq<int>, g: seq<int>, ftab: seq<int>, sb: nat)
    requires Sound(b, f, ftab) && sb < 65536 && SegPerm(f, g, Start(Keys(b), sb), Start(Keys(b), sb + 1)) && !Marked(ftab[sb])
    ensures Sound(b, g, ftab)
  {
    hide Keys, Ranks, Key, Start, SegPerm, Ordered, Marked, Classed, InOrderAt;
    ClassedKept(Keys(b), f, g, sb);
    forall d: nat {:trigger ftab[d]} | d < 65536 && Marked(ftab[d]) ensures InOrderAt(b, g, d) { OrderElsewhere(b, f, g, sb, d); }
  }

  /** The first `j` small buckets of big bucket `t` are marked, the middle one perhaps not. */
  ghost predicate RowUpTo(ftab: seq<int>, t: nat, j: nat)
    requires |ftab| == 65537 && t < 256 && j <= 256 && forall sb: nat {:trigger ftab[sb]} :: sb < 65537 ==> ftab[sb] >= 0
  {
    forall sb: nat {:trigger ftab[sb]} :: t * 256 <= sb < t * 256 + j && sb != t * 256 + t ==> Marked(ftab[sb])
  }

  /** All of them are. */
  ghost predicate RowMarked(ftab: seq<int>, t: nat)
    requires |ftab| == 65537 && t < 256 && forall sb: nat {:trigger ftab[sb]} :: sb < 65537 ==> ftab[sb] >= 0
  {
    forall sb: nat {:trigger ftab[sb]} :: t * 256 <= sb < (t + 1) * 256 ==> Marked(ftab[sb])
  }

  /** Marks only come. */
  ghost predicate MarksGrow(t0: seq<int>, t1: seq<int>, k: seq<int>)
    requires Table(t0, k) && Table(t1, k)
  {
    forall sb: nat {:trigger t1[sb]} :: sb < 65536 && Marked(t0[sb]) ==> Marked(t1[sb])
  }

  /** Marking a bucket that is in order. */
  method MarkSorted(ftab: array<int>, sb: nat, ghost b: seq<int>, ghost f: seq<int>)
    requires Sound(b, f, ftab[..]) && sb < 65536 && (Marked(ftab[sb]) || InOrderAt(b, f, sb))
    modifies ftab
    ensures Sound(b, f, ftab[..]) && Marked(ftab[sb])
    ensures forall v: nat {:trigger ftab[v]} :: v < 65536 && v != sb ==> Marked(ftab[v]) == Marked(old(ftab[v]))
  {
    hide Keys, Start, Marked, Classed, InOrderAt;
    ghost var t := ftab[..];
    if Marked(ftab[sb]) { assert Marked(t[sb]); }
    assert InOrderAt(b, f, sb);
    SetMark(ftab, sb, Keys(b));
    forall v: nat {:trigger ftab[v]} | v < 65536 && Marked(ftab[v]) ensures InOrderAt(b, f, v) {
      if v != sb { assert Marked(t[v]); }
    }
  }

  /** Step 1: the small buckets of big bucket `ss`, all but the middle one. */
  method SortRow(ptr: array<int>, block: array<int>, quadrant: array<UInt16>, ftab: array<int>, nblock: nat, ss: nat, budget0: int)
    returns (budget: int)
    requires ptr != block && ptr != ftab && ftab != block && nblock <= ptr.Length && nblock <= 2391484 && ss < 256 && budget0 >= 0
    requires Consistent(block[..], quadrant[..], nblock) && Sound(block[..nblock], ptr[..nblock], ftab[..])
    modifies ptr, ftab
    ensures Charged(block[..nblock], N_RADIX, budget0, budget) && Sound(block[..nblock], ptr[..nblock], ftab[..])
    ensures MarksGrow(old(ftab[..]), ftab[..], Keys(block[..nblock]))
    ensures budget >= 0 ==> RowUpTo(ftab[..], ss, 256)
  {
    hide Keys, Start, Marked, Classed, InOrderAt, Truthful, Repeats, Repetitive;
    Sizes(block[..], quadrant[..], nblock);
    budget := budget0;
    ghost var t0, k := ftab[..], Keys(block[..nblock]);
    var j := 0;
    while j <= 255
      invariant 0 <= j <= 256 && 0 <= budget && Charged(block[..nblock], N_RADIX, budget0, budget) && Sound(block[..nblock], ptr[..nblock], ftab[..])
      invariant Table(t0, k) && MarksGrow(t0, ftab[..], k)
      invariant RowUpTo(ftab[..], ss, j)
    {
      ghost var t := ftab[..];
      if j != ss {
        var sb := ss * 256 + j;
        budget := SortSmall(ptr, block, quadrant, ftab, nblock, sb, budget);
        if budget < 0 { return; }
        MarkSorted(ftab, sb, block[..nblock], ptr[..nblock]);
        forall v: nat {:trigger ftab[v]} | v < 65536 && Marked(t[v]) ensures Marked(ftab[v]) { assert v == sb || Marked(ftab[v]) == Marked(t[v]); }
      }
      MarksMore(t0, t, ftab[..], k, ss, j);
      j := j + 1;
    }
  }

  lemma MarksMore(t0: seq<int>, t: seq<int>, t1: seq<int>, k: seq<int>, ss: nat, j: nat)
    requires Table(t0, k) && Table(t, k) && Table(t1, k) && MarksGrow(t0, t, k) && MarksGrow(t, t1, k) && ss < 256 && j < 256
    requires RowUpTo(t, ss, j) && (j != ss ==> Marked(t1[ss * 256 + j]))
    ensures MarksGrow(t0, t1, k) && RowUpTo(t1, ss, j + 1)
  {
    hide Marked, Start;
    forall sb: nat {:trigger t1[sb]} | sb < 65536 && Marked(t0[sb]) ensures Marked(t1[sb]) { assert Marked(t[sb]); }
    forall sb: nat {:trigger t1[sb]} | ss * 256 <= sb < ss * 256 + j + 1 && sb != ss * 256 + ss ensures Marked(t1[sb]) {
      if sb < ss * 256 + j { assert Marked(t[sb]); }
    }
  }

  // ----- step 2

  /** What the scan needs, and what it has made. */
  lemma ScanReady(b: seq<int>, f: seq<int>, ftab: seq<int>, ss: nat, done: seq<bool>)
    requires Sound(b, f, ftab) && ss < 256 && RowUpTo(ftab, ss, 256) && |done| == 256 && !done[ss] && |b| >= 2
    ensures Bucket(b, f, ss, done).Good()
  {
    hide Keys, Start, Marked, Classed, Ranks, Ordered;
    var c := Bucket(b, f, ss, done);
    forall v: nat {:trigger c.RowOrdered(v)} | v < 256 && v != ss ensures c.RowOrdered(v) {
      assert Marked(ftab[ss * 256 + v]);
      assert InOrderAt(b, f, ss * 256 + v);
    }
  }

  /** A bucket the scan does not fill stays in order. */
  lemma ScanKeeps(c: Bucket, f: seq<int>, sb: nat)
    requires c.Good() && Result(c, f) && sb < 65536 && InOrderAt(c.b, c.f0, sb)
    ensures InOrderAt(c.b, f, sb)
  {
    hide Keys, Start, Ranks, Key;
    var k, t := c.K(), sb / 256;
    if sb % 256 == c.s && !c.done[t] {
      assert sb == t * 256 + c.s;
      assert Ordered(f, Ranks(c.b), c.Lo(t), c.Hi(t)) by { assert c.done[t] == false; }
    } else {
      ClassBounds(k, c.f0, sb, sb + 1);
      forall p | Start(k, sb) <= p < Start(k, sb + 1) ensures f[p] == c.f0[p] {
        ClassAt(k, c.f0, p, sb);
        assert !InScope(c, p);
      }
    }
  }

  /** All marks are still right, and the column can be marked. */
  lemma ScanSound(c: Bucket, f: seq<int>, ftab: seq<int>)
    requires Sound(c.b, c.f0, ftab) && c.Good() && Result(c, f)
    requires forall t: nat {:trigger c.done[t]} :: t < 256 && c.done[t] ==> RowMarked(ftab, t)
    ensures Sound(c.b, f, ftab)
    ensures forall t: nat {:trigger InOrderAt(c.b, f, t * 256 + c.s)} :: t < 256 ==> InOrderAt(c.b, f, t * 256 + c.s)
  {
    hide Keys, Start, Marked, Classed, Ranks, Ordered, OthersAsWere, InOrderAt;
    forall sb: nat {:trigger ftab[sb]} | sb < 65536 && Marked(ftab[sb]) ensures InOrderAt(c.b, f, sb) { ScanKeeps(c, f, sb); }
    forall t: nat {:trigger InOrderAt(c.b, f, t * 256 + c.s)} | t < 256 ensures InOrderAt(c.b, f, t * 256 + c.s) {
      if c.done[t] {
        assert Marked(ftab[t * 256 + c.s]);
        ScanKeeps(c, f, t * 256 + c.s);
      } else {
        InOrderNow(c, f, t);
      }
    }
  }

  lemma InOrderNow(c: Bucket, f: seq<int>, t: nat)
    requires c.Good() && Result(c, f) && t < 256 && !c.done[t]
    ensures InOrderAt(c.b, f, t * 256 + c.s)
  {
    hide Keys, Start, Ranks;
  }

  /** The flags of column `ss`, now that it is in order. */
  method MarkColumn(ftab: array<int>, ss: nat, ghost b: seq<int>, ghost f: seq<int>)
    requires Sound(b, f, ftab[..]) && ss < 256
    requires forall t: nat {:trigger InOrderAt(b, f, t * 256 + ss)} :: t < 256 ==> InOrderAt(b, f, t * 256 + ss)
    modifies ftab
    ensures Sound(b, f, ftab[..]) && MarksGrow(old(ftab[..]), ftab[..], Keys(b)) && Marked(ftab[ss * 256 + ss])
  {
    hide Keys, Start, Marked, Classed, InOrderAt;
    ghost var t0 := ftab[..];
    for j := 0 to 256
      invariant Sound(b, f, ftab[..]) && MarksGrow(t0, ftab[..], Keys(b)) && (j > ss ==> Marked(ftab[ss * 256 + ss]))
    {
      ghost var t := ftab[..];
      assert InOrderAt(b, f, j * 256 + ss);
      MarkSorted(ftab, j * 256 + ss, b, f);
      MarkedOne(t0, t, ftab[..], Keys(b), j * 256 + ss, ss * 256 + ss);
    }
  }

  lemma MarkedOne(t0: seq<int>, t: seq<int>, t1: seq<int>, k: seq<int>, sb: nat, mid: nat)
    requires Table(t0, k) && Table(t, k) && Table(t1, k) && MarksGrow(t0, t, k) && sb < 65536 && mid < 65536 && Marked(t1[sb])
    requires forall v: nat {:trigger t1[v]} :: v < 65536 && v != sb ==> Marked(t1[v]) == Marked(t[v])
    ensures MarksGrow(t0, t1, k) && (Marked(t[mid]) ==> Marked(t1[mid]))
  {
    hide Marked, Start;
    forall v: nat {:trigger t1[v]} | v < 65536 && Marked(t0[v]) ensures Marked(t1[v]) { assert Marked(t[v]); }
  }

  // ----- one big bucket

  /** The rows of the big buckets that are done are marked. */
  ghost predicate RowsMarked(ftab: seq<int>, done: seq<bool>, k: seq<int>)
    requires Table(ftab, k) && |done| == 256
  {
    forall t: nat {:trigger done[t]} :: t < 256 && done[t] ==> RowMarked(ftab, t)
  }

  lemma RowsGrow(t0: seq<int>, t1: seq<int>, done: seq<bool>, k: seq<int>)
    requires Table(t0, k) && Table(t1, k) && MarksGrow(t0, t1, k) && |done| == 256 && RowsMarked(t0, done, k)
    ensures RowsMarked(t1, done, k)
  {
    hide Marked, Start;
    forall t: nat {:trigger done[t]} | t < 256 && done[t] ensures RowMarked(t1, t) {
      forall sb: nat {:trigger t1[sb]} | t * 256 <= sb < (t + 1) * 256 ensures Marked(t1[sb]) { assert Marked(t0[sb]); }
    }
  }

  lemma RowComplete(t0: seq<int>, t1: seq<int>, done: seq<bool>, k: seq<int>, ss: nat)
    requires Table(t0, k) && Table(t1, k) && MarksGrow(t0, t1, k) && |done| == 256 && RowsMarked(t1, done, k) && ss < 256
    requires RowUpTo(t0, ss, 256) && Marked(t1[ss * 256 + ss])
    ensures RowMarked(t1, ss) && RowsMarked(t1, done[ss := true], k)
  {
    hide Marked, Start;
    forall sb: nat {:trigger t1[sb]} | ss * 256 <= sb < (ss + 1) * 256 ensures Marked(t1[sb]) {
      if sb != ss * 256 + ss { assert Marked(t0[sb]); }
    }
    var done' := done[ss := true];
    forall t: nat {:trigger done'[t]} | t < 256 && done'[t] ensures RowMarked(t1, t) { assert t == ss || done[t]; }
  }

  /** Two places of which the first lies in a marked bucket are in order. */
  lemma PairSorted(b: seq<int>, f: seq<int>, ftab: seq<int>, p: int, q: int)
    requires Sound(b, f, ftab) && |b| >= 2 && 0 <= p < q < |f|
    requires 0 <= f[p] < |b| && 0 <= Keys(b)[f[p]] < 65536 && Marked(ftab[Keys(b)[f[p]]])
    ensures 0 <= f[q] < |b| && Cmp(b, f[p], f[q], |b|) <= 0
  {
    hide Keys, Start, Ranks, Key, Marked, Cmp;
    var k := Keys(b);
    var c: nat := k[f[p]];
    ClassRange(k, f, p, c, c + 1);
    ClassRange(k, f, q, c, c + 1);
    if k[f[q]] < c {
      ClassRange(k, f, q, c, c);
      ClassBounds(k, f, k[f[q]] + 1, c);
      ClassRange(k, f, q, k[f[q]], k[f[q]] + 1);
      assert false;
    } else if k[f[q]] == c {
      assert InOrderAt(b, f, c);
    } else {
      KeyOrder(b, f[p], f[q]);
    }
    RankOrder(b, f[p], f[q]);
  }

  /** A marked row is a sorted big bucket. */
  lemma RowSorted(b: seq<int>, f: seq<int>, g: seq<int>, ftab: seq<int>, ss: nat)
    requires Sound(b, f, ftab) && |b| >= 2 && ss < 256 && RowMarked(ftab, ss) && |f| <= |g| && f == g[..|f|]
    ensures 0 <= Start(Keys(b), ss * 256) <= Start(Keys(b), (ss + 1) * 256) <= |f|
    ensures SortedBucket(b, g, Start(Keys(b), ss * 256), Start(Keys(b), (ss + 1) * 256) - Start(Keys(b), ss * 256), ss)
  {
    hide Keys, Start, Ranks, Key, Marked, Cmp, InOrderAt;
    var k := Keys(b);
    ClassBounds(k, f, ss * 256, (ss + 1) * 256);
    var lo, hi := Start(k, ss * 256), Start(k, (ss + 1) * 256);
    forall p | lo <= p < hi ensures 0 <= g[p] < |b| && b[g[p]] == ss && g[p] == f[p] && ss * 256 <= k[f[p]] < (ss + 1) * 256 {
      ClassRange(k, f, p, ss * 256, (ss + 1) * 256);
      KeyParts(b, f[p]);
    }
    forall p, q | lo <= p < q < hi ensures g[p] != g[q] && Cmp(b, g[p], g[q], |b|) <= 0 {
      assert Marked(ftab[k[f[p]]]);
      PairSorted(b, f, ftab, p, q);
      assert f[p] != f[q];
    }
    forall i | 0 <= i < |b| && b[i] == ss ensures exists p :: lo <= p < hi && g[p] == i {
      KeyParts(b, i);
      var p := ClassFind(k, f, i, ss * 256, (ss + 1) * 256);
      assert g[p] == f[p];
    }
  }

  /** One round of the main loop; the cache is not kept up in the last one. */
  method SortBig(ptr: array<int>, block: array<int>, quadrant: array<UInt16>, ftab: array<int>, bigDone: array<bool>, nblock: nat,
                 ss: nat, last: bool, budget0: int) returns (budget: int)
    requires ptr != block && ptr != ftab && ftab != block && nblock <= ptr.Length && nblock <= 2391484 && ss < 256 && budget0 >= 0
    requires bigDone.Length == 256 && !bigDone[ss]
    requires Consistent(block[..], quadrant[..], nblock) && Sound(block[..nblock], ptr[..nblock], ftab[..])
    requires RowsMarked(ftab[..], bigDone[..], Keys(block[..nblock]))
    modifies ptr, ftab, bigDone, quadrant
    ensures Charged(block[..nblock], N_RADIX, budget0, budget)
    ensures budget >= 0 ==> Consistent(block[..], quadrant[..], nblock) && Sound(block[..nblock], ptr[..nblock], ftab[..])
    ensures budget >= 0 ==> RowsMarked(ftab[..], bigDone[..], Keys(block[..nblock])) && bigDone[..] == old(bigDone[..])[ss := true]
  {
    hide Keys, Start, Ranks, Key, Marked, Cmp, InOrderAt, Truthful, Repeats, Classed, RowsMarked, RowMarked, RowUpTo, Result, Bucket.Good,
         Sound, MarksGrow, SortedBucket, Repetitive;
    Sizes(block[..], quadrant[..], nblock);
    ghost var b, done, t0 := block[..nblock], bigDone[..], ftab[..];
    ghost var k := Keys(b);
    SoundTable(b, ptr[..nblock], t0);
    budget := SortRow(ptr, block, quadrant, ftab, nblock, ss, budget0);
    if budget < 0 { return; }
    ghost var f, t1 := ptr[..nblock], ftab[..];
    SoundTable(b, f, t1);
    RowsGrow(t0, t1, done, k);
    assert !bigDone[ss];  // assertion 1006 of the source
    ghost var c := Bucket(b, f, ss, done);
    ScanReady(b, f, t1, ss, done);
    ScanBucket(ptr, block, bigDone, ftab, nblock, ss, c);
    ghost var g := ptr[..nblock];
    RowsOf(t1, done, k);
    ScanSound(c, g, t1);
    MarkColumn(ftab, ss, b, g);
    SoundTable(b, g, ftab[..]);
    RowsGrow(t1, ftab[..], done, k);
    RowComplete(t1, ftab[..], done, k, ss);
    bigDone[ss] := true;
    assert bigDone[..] == done[ss := true];
    if !last {
      RowSorted(b, g, ptr[..], ftab[..], ss);
      TableAt(ftab[..], k, ss * 256);
      TableAt(ftab[..], k, (ss + 1) * 256);
      var bbStart := Cleared(ftab[ss * 256]);
      var bbSize := Cleared(ftab[(ss + 1) * 256]) - bbStart;
      var shifts := RecordBucket(block, quadrant, ptr, nblock, bbStart, bbSize, ss);
    }
  }

  lemma SoundTable(b: seq<int>, f: seq<int>, ftab: seq<int>)
    requires Sound(b, f, ftab)
    ensures Table(ftab, Keys(b)) && IsBytes(b)
  {
  }

  lemma RowsOf(ftab: seq<int>, done: seq<bool>, k: seq<int>)
    requires Table(ftab, k) && |done| == 256 && RowsMarked(ftab, done, k)
    ensures forall t: nat {:trigger done[t]} :: t < 256 && done[t] ==> RowMarked(ftab, t)
  {
  }

  // ----- the whole

  lemma AllSorted(b: seq<int>, f: seq<int>, ftab: seq<int>, done: seq<bool>)
    requires Sound(b, f, ftab) && |b| >= 2 && |done| == 256 && RowsMarked(ftab, done, Keys(b)) && forall t :: 0 <= t < 256 ==> done[t]
    ensures SortedRotations(b, f)
  {
    hide Keys, Start, Ranks, Key, Marked, Cmp, InOrderAt;
    var k := Keys(b);
    forall p, q | 0 <= p < q < |f| ensures Cmp(b, f[p], f[q], |b|) <= 0 {
      KeyParts(b, f[p]);
      var t: nat := k[f[p]] / 256;
      assert done[t] && RowMarked(ftab, t);
      assert Marked(ftab[k[f[p]]]);
      PairSorted(b, f, ftab, p, q);
    }
  }

  /** Nothing is in order yet, and nothing is said to be. */
  lemma FreshSound(b: seq<int>, f: seq<int>, ftab: seq<int>, done: seq<bool>)
    requires IsBytes(b) && |b| < SETMASK && Classed(Keys(b), f) && |ftab| == 65537
    requires forall sb: nat {:trigger ftab[sb]} :: sb < 65537 ==> ftab[sb] == Start(Keys(b), sb)
    requires |done| == 256 && forall t :: 0 <= t < 256 ==> !done[t]
    ensures Sound(b, f, ftab) && RowsMarked(ftab, done, Keys(b))
  {
    hide Keys, Start, InOrderAt;
    var k := Keys(b);
    forall sb: nat {:trigger ftab[sb]} | sb < 65537 ensures 0 <= ftab[sb] < SETMASK && ftab[sb] % SETMASK == Start(k, sb) && !Marked(ftab[sb]) {
      StartInside(k, sb);
    }
  }

  /** The big buckets taken so far are done. */
  ghost predicate DoneUpTo(order: seq<int>, done: seq<bool>, i: nat)
    requires IsPerm(order, 256) && |done| == 256 && i <= 256
  {
    && (forall p :: 0 <= p < i ==> done[order[p]])
    && (forall p :: i <= p < 256 ==> !done[order[p]])
  }

  lemma DoneMore(order: seq<int>, done: seq<bool>, i: nat)
    requires IsPerm(order, 256) && |done| == 256 && i < 256 && DoneUpTo(order, done, i)
    ensures 0 <= order[i] < 256 && !done[order[i]] && DoneUpTo(order, done[order[i] := true], i + 1)
  {
  }

  lemma DoneAll(order: seq<int>, done: seq<bool>)
    requires IsPerm(order, 256) && |done| == 256 && DoneUpTo(order, done, 256)
    ensures forall t :: 0 <= t < 256 ==> done[t]
  {
    forall t | 0 <= t < 256 ensures done[t] { var p := PermHits(order, 256, t); }
  }

  /** mainSort: unless the budget runs out, `ptr` lists all rotations in order. The budget is not touched at all in a
      block in which no two rotations agree in their first 14 bytes. The block is left as it was, its overshoot apart. */
  method MainSort(ptr: array<int>, block: array<int>, quadrant: array<UInt16>, ftab: array<int>, nblock: nat, budget0: int)
    returns (budget: int)
    requires ptr != block && ptr != ftab && ftab != block && nblock <= ptr.Length && N_OVERSHOOT < nblock < SETMASK && budget0 >= 0
    requires block.Length == quadrant.Length == nblock + N_OVERSHOOT && ftab.Length == 65537 && IsBytes(block[..nblock])
    modifies ptr, block, quadrant, ftab
    ensures Charged(block[..nblock], N_RADIX, budget0, budget) && block[..nblock] == old(block[..nblock])
    ensures !Repetitive(block[..nblock]) ==> budget == budget0 && SortedRotations(block[..nblock], ptr[..nblock])
    ensures budget >= 0 ==> SortedRotations(block[..nblock], ptr[..nblock])
  {
    hide Keys, Start, Ranks, Key, Marked, Cmp, Truthful, Repeats, Classed, RowsMarked, Sound, SortedRotations, Ordered, BigFreqs, Consistent, Repetitive;
    ghost var b := block[..nblock];
    CountPairs(block, ftab, nblock, b);
    Prepare(block, quadrant, nblock);
    AddUp(ftab, Keys(b));
    FillBuckets(ptr, block, ftab, nblock, b);
    var bigDone := new bool[256](_ => false);
    var runningOrder := RunningOrder(ftab);
    ghost var order := runningOrder[..];
    FreshSound(b, ptr[..nblock], ftab[..], bigDone[..]);
    SoundTable(b, ptr[..nblock], ftab[..]);
    budget := budget0;
    for i := 0 to 256
      invariant 0 <= budget && Charged(b, N_RADIX, budget0, budget) && Consistent(block[..], quadrant[..], nblock) && Sound(b, ptr[..nblock], ftab[..])
      invariant block[..nblock] == b && runningOrder[..] == order
      invariant Table(ftab[..], Keys(b)) && RowsMarked(ftab[..], bigDone[..], Keys(b)) && DoneUpTo(order, bigDone[..], i)
    {
      var ss := runningOrder[i];
      DoneMore(order, bigDone[..], i);
      budget := SortBig(ptr, block, quadrant, ftab, bigDone, nblock, ss, i == 255, budget);
      if budget < 0 { return; }
      SoundTable(b, ptr[..nblock], ftab[..]);
    }
    DoneAll(order, bigDone[..]);
    AllSorted(b, ptr[..nblock], ftab[..], bigDone[..]);
  }
}
