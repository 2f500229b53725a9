/** The cyclic rotations of a block and their lexicographic order, compared to any depth.
    Ties are possible: a periodic block has equal rotations. */
module Rotations {
  import opened Permutations

  /** The position after `i`, going round the block. */
  function Next(i: int, n: int): (r: int)
    requires 0 <= i < n
    ensures 0 <= r < n
  {
    if i + 1 == n then 0 else i + 1
  }

  /** The position `h` places after `i`. */
  ghost function Adv(i: int, h: nat, n: int): (r: int)
    requires 0 <= i < n
    ensures 0 <= r < n
    decreases h
  {
    if h == 0 then i else Adv(Next(i, n), h - 1, n)
  }

  lemma {:induction false} AdvAdd(i: int, h: nat, g: nat, n: int)
    requires 0 <= i < n
    ensures Adv(i, h + g, n) == Adv(Adv(i, h, n), g, n)
    decreases h
  {
    if h > 0 { AdvAdd(Next(i, n), h - 1, g, n); }
  }

  lemma {:induction false} AdvValue(i: int, h: nat, n: int)
    requires 0 <= i < n && h <= n
    ensures Adv(i, h, n) == if i + h < n then i + h else i + h - n
    decreases h
  {
    if h > 0 { AdvValue(Next(i, n), h - 1, n); }
  }

  /** Lexicographic comparison of the first `h` bytes of two rotations: -1, 0 or 1. */
  ghost function Cmp(b: seq<int>, i: int, j: int, h: nat): (c: int)
    requires 0 <= i < |b| && 0 <= j < |b|
    ensures -1 <= c <= 1
    decreases h
  {
    if h == 0 then 0
    else if b[i] < b[j] then -1
    else if b[i] > b[j] then 1
    else Cmp(b, Next(i, |b|), Next(j, |b|), h - 1)
  }

  lemma {:induction false} CmpAnti(b: seq<int>, i: int, j: int, h: nat)
    requires 0 <= i < |b| && 0 <= j < |b|
    ensures Cmp(b, j, i, h) == -Cmp(b, i, j, h)
    decreases h
  {
    if h > 0 && b[i] == b[j] { CmpAnti(b, Next(i, |b|), Next(j, |b|), h - 1); }
  }

  lemma {:induction false} CmpTrans(b: seq<int>, i: int, j: int, k: int, h: nat)
    requires 0 <= i < |b| && 0 <= j < |b| && 0 <= k < |b|
    requires Cmp(b, i, j, h) <= 0 && Cmp(b, j, k, h) <= 0
    ensures Cmp(b, i, k, h) <= 0
    ensures Cmp(b, i, k, h) == 0 ==> Cmp(b, i, j, h) == 0 && Cmp(b, j, k, h) == 0
    ensures Cmp(b, i, j, h) == 0 && Cmp(b, j, k, h) == 0 ==> Cmp(b, i, k, h) == 0
    decreases h
  {
    if h > 0 && b[i] == b[j] == b[k] {
      CmpTrans(b, Next(i, |b|), Next(j, |b|), Next(k, |b|), h - 1);
    }
  }

  /** Equal rotations compare alike with any third one. */
  lemma CmpEqual(b: seq<int>, i: int, j: int, k: int, h: nat)
    requires 0 <= i < |b| && 0 <= j < |b| && 0 <= k < |b|
    requires Cmp(b, i, j, h) == 0
    ensures Cmp(b, i, k, h) == Cmp(b, j, k, h)
    ensures Cmp(b, k, i, h) == Cmp(b, k, j, h)
  {
    CmpAnti(b, i, j, h);
    CmpAnti(b, i, k, h);
    CmpAnti(b, j, k, h);
    if Cmp(b, j, k, h) <= 0 { CmpTrans(b, i, j, k, h); } else { CmpTrans(b, k, j, i, h); }
    if Cmp(b, i, k, h) <= 0 { CmpTrans(b, j, i, k, h); } else { CmpTrans(b, k, i, j, h); }
  }

  /** Doubling step of the radix refinement: a comparison to depth `h + g` is the comparison to
      depth `h`, and, for a tie, the comparison of what follows to depth `g`. */
  lemma {:induction false} CmpSplit(b: seq<int>, i: int, j: int, h: nat, g: nat)
    requires 0 <= i < |b| && 0 <= j < |b|
    ensures Cmp(b, i, j, h + g) ==
            if Cmp(b, i, j, h) != 0 then Cmp(b, i, j, h) else Cmp(b, Adv(i, h, |b|), Adv(j, h, |b|), g)
    decreases h
  {
    if h > 0 && b[i] == b[j] { CmpSplit(b, Next(i, |b|), Next(j, |b|), h - 1, g); }
  }

  /** The rotations listed in `f` stand in non-decreasing order, compared to depth `h`. */
  ghost predicate SortedTo(b: seq<int>, f: seq<int>, h: nat)
    requires IsPerm(f, |b|)
  {
    forall p, q :: 0 <= p < q < |f| ==> Cmp(b, f[p], f[q], h) <= 0
  }

  /** `f` lists every rotation of `b` once, in non-decreasing order of the whole rotations. */
  ghost predicate SortedRotations(b: seq<int>, f: seq<int>) {
    IsPerm(f, |b|) && SortedTo(b, f, |b|)
  }

  /** Sorted to a depth beyond the block length is sorted outright. */
  lemma SortedDeep(b: seq<int>, f: seq<int>, h: nat)
    requires IsPerm(f, |b|) && SortedTo(b, f, h) && h >= |b|
    ensures SortedRotations(b, f)
  {
    forall p, q | 0 <= p < q < |f| ensures Cmp(b, f[p], f[q], |b|) <= 0 {
      CmpSplit(b, f[p], f[q], |b|, h - |b|);
      assert Cmp(b, f[p], f[q], h) <= 0;
    }
  }

  /** Strictly sorted to any depth up to the block length is sorted outright. */
  lemma SortedStrict(b: seq<int>, f: seq<int>, h: nat)
    requires IsPerm(f, |b|) && h <= |b|
    requires forall p, q :: 0 <= p < q < |f| ==> Cmp(b, f[p], f[q], h) < 0
    ensures SortedRotations(b, f)
  {
    forall p, q | 0 <= p < q < |f| ensures Cmp(b, f[p], f[q], |b|) <= 0 {
      CmpSplit(b, f[p], f[q], h, |b| - h);
      assert Cmp(b, f[p], f[q], h) < 0;
    }
  }

  /** Two sorted listings of all the rotations agree position by position, up to ties. */
  lemma SortedUnique(b: seq<int>, f: seq<int>, g: seq<int>, h: nat, p: int)
    requires IsPerm(f, |b|) && IsPerm(g, |b|) && SortedTo(b, f, h) && SortedTo(b, g, h)
    requires 0 <= p < |b|
    ensures Cmp(b, f[p], g[p], h) == 0
  {
    CmpAnti(b, f[p], g[p], h);
    if Cmp(b, f[p], g[p], h) < 0 { NotBefore(b, f, g, h, p); }
    if Cmp(b, g[p], f[p], h) < 0 { NotBefore(b, g, f, h, p); }
  }

  /** Were `f[p]` smaller than `g[p]`, the `p + 1` first entries of `f` would have to stand among
      the `p` first entries of `g`. */
  lemma NotBefore(b: seq<int>, f: seq<int>, g: seq<int>, h: nat, p: int)
    requires IsPerm(f, |b|) && IsPerm(g, |b|) && SortedTo(b, f, h) && SortedTo(b, g, h)
    requires 0 <= p < |b|
    ensures Cmp(b, f[p], g[p], h) >= 0
  {
    if Cmp(b, f[p], g[p], h) < 0 {
      var a := set k | 0 <= k < p + 1 :: f[k];
      var c := set k | 0 <= k < p :: g[k];
      DistinctCard(f, p + 1);
      DistinctCard(g, p);
      forall x | x in a ensures x in c {
        var k :| 0 <= k < p + 1 && f[k] == x;
        var m := PermHits(g, |b|, x);
        CmpAnti(b, x, x, h);
        assert k == p || Cmp(b, f[k], f[p], h) <= 0;
        assert m <= p || Cmp(b, g[p], g[m], h) <= 0;
        CmpAnti(b, x, g[p], h);
        CmpTrans(b, x, f[p], g[p], h);
      }
      SubsetCard(a, c);
    }
  }
}
