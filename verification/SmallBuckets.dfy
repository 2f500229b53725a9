/** Buckets of two bytes, as mainSort keeps them in ftab. */
module SmallBuckets {
  import opened Counting
  import opened FallbackQSort
  import opened MainQSort
  import opened Permutations
  import opened Rotations

  // ----- keys

  /** The first two bytes of every rotation. */
  ghost function Keys(b: seq<int>): (k: seq<int>)
    ensures |k| == |b|
  {
    seq(|b|, i requires 0 <= i < |b| => b[i] * 256 + b[Next(i, |b|)])
  }

  lemma KeyParts(b: seq<int>, i: int)
    requires IsBytes(b) && 0 <= i < |b|
    ensures 0 <= Keys(b)[i] < 65536 && Keys(b)[i] / 256 == b[i] && Keys(b)[i] % 256 == b[Next(i, |b|)]
  {
  }

  lemma KeysNatural(b: seq<int>)
    requires IsBytes(b)
    ensures Naturals(Keys(b))
  {
  }

  /** A smaller key is a smaller rotation. */
  lemma KeyOrder(b: seq<int>, i: int, j: int)
    requires IsBytes(b) && |b| >= 2 && 0 <= i < |b| && 0 <= j < |b| && Keys(b)[i] < Keys(b)[j]
    ensures Key(Ranks(b), i) < Key(Ranks(b), j)
  {
    hide Ranks;
    KeyParts(b, i);
    KeyParts(b, j);
    CmpSplit(b, i, j, 2, |b| - 2);
    TwoBytes(b, i, j);
    RankOrder(b, i, j);
  }

  lemma TwoBytes(b: seq<int>, i: int, j: int)
    requires 0 <= i < |b| && 0 <= j < |b|
    ensures b[i] < b[j] || (b[i] == b[j] && b[Next(i, |b|)] < b[Next(j, |b|)]) ==> Cmp(b, i, j, 2) < 0
    ensures b[i] == b[j] && b[Next(i, |b|)] == b[Next(j, |b|)] ==> Cmp(b, i, j, 2) == 0
  {
    if b[i] == b[j] {
      assert Cmp(b, i, j, 2) == Cmp(b, Next(i, |b|), Next(j, |b|), 1);
    }
  }

  // ----- listings by class

  /** `f` lists everything once, each element in the stretch of its key. */
  ghost predicate Classed(k: seq<int>, f: seq<int>) {
    && Naturals(k) && IsPerm(f, |k|)
    && forall p :: 0 <= p < |f| ==> Start(k, k[f[p]]) <= p < Start(k, k[f[p]] + 1)
  }

  /** Who stands in the stretch of `c` has key `c`. */
  lemma ClassAt(k: seq<int>, f: seq<int>, p: int, c: nat)
    requires Classed(k, f) && 0 <= p < |f| && Start(k, c) <= p < Start(k, c + 1)
    ensures 0 <= f[p] < |k| && k[f[p]] == c
  {
    hide Start;
    if k[f[p]] < c { StartMono(k, k[f[p]] + 1, c); }
    if c < k[f[p]] { StartMono(k, c + 1, k[f[p]]); }
  }

  /** The same for stretches of several keys. */
  lemma ClassRange(k: seq<int>, f: seq<int>, p: int, c: nat, d: nat)
    requires Classed(k, f) && 0 <= p < |f|
    ensures 0 <= f[p] < |k| && (Start(k, c) <= p < Start(k, d) <==> c <= k[f[p]] < d)
  {
    hide Start;
    var x := k[f[p]];
    if x < c { StartMono(k, x + 1, c); } else { StartMono(k, c, x); }
    if x < d { StartMono(k, x + 1, d); } else { StartMono(k, d, x); }
  }

  /** Everything with key from `c` up to `d` stands there. */
  lemma ClassFind(k: seq<int>, f: seq<int>, x: int, c: nat, d: nat) returns (p: int)
    requires Classed(k, f) && 0 <= x < |k| && c <= k[x] < d
    ensures 0 <= Start(k, c) <= p < Start(k, d) <= |k| == |f| && f[p] == x
  {
    hide Start;
    p := PermHits(f, |k|, x);
    ClassRange(k, f, p, c, d);
    StartInside(k, d);
  }

  lemma ClassBounds(k: seq<int>, f: seq<int>, c: nat, d: nat)
    requires Classed(k, f) && c <= d
    ensures 0 <= Start(k, c) <= Start(k, d) <= |k| == |f|
  {
    hide Start;
    StartInside(k, d);
    StartMono(k, c, d);
  }

  /** Rearranging the stretch of one key. */
  lemma ClassedKept(k: seq<int>, f: seq<int>, g: seq<int>, c: nat)
    requires Classed(k, f) && SegPerm(f, g, Start(k, c), Start(k, c + 1))
    ensures Classed(k, g)
  {
    hide Start;
    var lo, hi := Start(k, c), Start(k, c + 1);
    IsPermKept(f, g, lo, hi, |k|);
    forall p | 0 <= p < |g| ensures Start(k, k[g[p]]) <= p < Start(k, k[g[p]] + 1) {
      if lo <= p < hi {
        var q := SegPermSource(f, g, lo, hi, p);
        ClassAt(k, f, q, c);
      }
    }
  }

  /** A list without repetitions of elements of another list is no longer than that list. */
  lemma Inclusion(xs: seq<int>, ys: seq<int>)
    requires Distinct(xs) && Distinct(ys) && forall x :: x in xs ==> x in ys
    ensures |xs| <= |ys|
  {
    DistinctCard(xs, |xs|);
    DistinctCard(ys, |ys|);
    var a, c := set p | 0 <= p < |xs| :: xs[p], set p | 0 <= p < |ys| :: ys[p];
    forall x | x in a ensures x in c {
      var p :| 0 <= p < |xs| && xs[p] == x;
      assert x in ys;
      var q :| 0 <= q < |ys| && ys[q] == x;
    }
    SubsetCard(a, c);
  }

  /** The stretch of some keys is a list without repetitions of exactly the elements with these keys. */
  lemma ClassSlice(k: seq<int>, f: seq<int>, c: nat, d: nat)
    requires Classed(k, f) && c <= d
    ensures 0 <= Start(k, c) <= Start(k, d) <= |f|
    ensures Distinct(f[Start(k, c)..Start(k, d)])
    ensures forall x :: x in f[Start(k, c)..Start(k, d)] <==> 0 <= x < |k| && c <= k[x] < d
  {
    hide Start, Classed, Distinct;
    ClassBounds(k, f, c, d);
    var lo, hi := Start(k, c), Start(k, d);
    SliceDistinct(k, f, lo, hi);
    forall x | x in f[lo..hi] ensures 0 <= x < |k| && c <= k[x] < d {
      var p := SliceFrom(f, lo, hi, x);
      ClassRange(k, f, p, c, d);
    }
    forall x | 0 <= x < |k| && c <= k[x] < d ensures x in f[lo..hi] {
      var p := ClassFind(k, f, x, c, d);
      assert f[lo..hi][p - lo] == x;
    }
  }

  lemma SliceDistinct(k: seq<int>, f: seq<int>, lo: int, hi: int)
    requires Classed(k, f) && 0 <= lo <= hi <= |f|
    ensures Distinct(f[lo..hi])
  {
    hide Start;
  }

  lemma SliceFrom(f: seq<int>, lo: int, hi: int, x: int) returns (p: int)
    requires 0 <= lo <= hi <= |f| && x in f[lo..hi]
    ensures lo <= p < hi && f[p] == x
  {
    var q :| 0 <= q < hi - lo && f[lo..hi][q] == x;
    p := lo + q;
  }

  /** Elements with certain keys are no more than their stretch has places, and fill it if they are all of them. */
  lemma ClassSize(k: seq<int>, f: seq<int>, xs: seq<int>, c: nat, d: nat)
    requires Classed(k, f) && Distinct(xs) && c <= d
    requires forall x :: x in xs ==> 0 <= x < |k| && c <= k[x] < d
    ensures |xs| <= Start(k, d) - Start(k, c)
    ensures (forall x :: 0 <= x < |k| && c <= k[x] < d ==> x in xs) ==> |xs| == Start(k, d) - Start(k, c)
  {
    hide Start, Classed, Distinct;
    ClassSlice(k, f, c, d);
    var ys := f[Start(k, c)..Start(k, d)];
    Inclusion(xs, ys);
    if forall x :: 0 <= x < |k| && c <= k[x] < d ==> x in xs { Inclusion(ys, xs); }
  }
}
