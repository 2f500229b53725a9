/** Rearrangements of a stretch of a sequence, and permutations of `0..n-1`.
    The sorters and the inverse Burrows-Wheeler transform are specified with these: a step of a sorter
    rearranges a stretch, and a sorted listing of rotations is a permutation of the positions of the block. */
module Permutations {

  /** `t` is `s` with the elements at `lo..hi-1` rearranged and everything else untouched. */
  ghost predicate SegPerm<T>(s: seq<T>, t: seq<T>, lo: int, hi: int) {
    && 0 <= lo <= hi <= |s| == |t|
    && (forall p :: 0 <= p < lo || hi <= p < |s| ==> t[p] == s[p])
    && multiset(t[lo..hi]) == multiset(s[lo..hi])
  }

  lemma SegPermRefl<T>(s: seq<T>, lo: int, hi: int)
    requires 0 <= lo <= hi <= |s|
    ensures SegPerm(s, s, lo, hi)
  {
  }

  lemma SegPermTrans<T>(s: seq<T>, t: seq<T>, u: seq<T>, lo: int, hi: int)
    requires SegPerm(s, t, lo, hi) && SegPerm(t, u, lo, hi)
    ensures SegPerm(s, u, lo, hi)
  {
  }

  lemma SegPermSwap<T>(s: seq<T>, i: int, j: int, lo: int, hi: int)
    requires 0 <= lo <= i < hi <= |s| && lo <= j < hi
    ensures SegPerm(s, s[i := s[j]][j := s[i]], lo, hi)
  {
    var t := s[i := s[j]][j := s[i]];
    assert t[lo..hi] == s[lo..hi][i - lo := s[j]][j - lo := s[i]];
  }

  /** Moving a hole: `hole` holds a pending element, which is written where the hole ends up. */
  lemma SegPermHole<T>(s: seq<T>, t: seq<T>, x: T, i: int, j: int, lo: int, hi: int)
    requires 0 <= lo <= i < hi <= |t| && lo <= j < hi
    requires SegPerm(s, t[i := x], lo, hi)
    ensures SegPerm(s, t[i := t[j]][j := x], lo, hi)
  {
    var u := t[i := x];
    SegPermSwap(u, i, j, lo, hi);
    assert u[i := u[j]][j := u[i]] == t[i := t[j]][j := x];
    SegPermTrans(s, u, t[i := t[j]][j := x], lo, hi);
  }

  lemma SegPermWiden<T>(s: seq<T>, t: seq<T>, lo: int, hi: int, lo': int, hi': int)
    requires SegPerm(s, t, lo, hi) && 0 <= lo' <= lo && hi <= hi' <= |s|
    ensures SegPerm(s, t, lo', hi')
  {
    assert t[lo'..hi'] == t[lo'..lo] + t[lo..hi] + t[hi..hi'];
    assert s[lo'..hi'] == s[lo'..lo] + s[lo..hi] + s[hi..hi'];
    assert t[lo'..lo] == s[lo'..lo] && t[hi..hi'] == s[hi..hi'];
  }

  /** Every element of the stretch was in the stretch before. */
  lemma SegPermSource<T>(s: seq<T>, t: seq<T>, lo: int, hi: int, p: int) returns (q: int)
    requires SegPerm(s, t, lo, hi) && lo <= p < hi
    ensures lo <= q < hi && t[p] == s[q]
  {
    assert t[lo..hi][p - lo] in multiset(t[lo..hi]);
    assert t[p] in s[lo..hi];
    q :| lo <= q < hi && s[q] == t[p];
  }

  /** A property of every element of a stretch survives rearranging it. */
  lemma SegPermForall<T>(s: seq<T>, t: seq<T>, lo: int, hi: int, P: T -> bool)
    requires SegPerm(s, t, lo, hi)
    requires forall p :: lo <= p < hi ==> P(s[p])
    ensures forall p :: lo <= p < hi ==> P(t[p])
  {
    forall p | lo <= p < hi ensures P(t[p]) {
      var q := SegPermSource(s, t, lo, hi, p);
    }
  }

  ghost predicate Distinct<T>(s: seq<T>) {
    forall p, q :: 0 <= p < q < |s| ==> s[p] != s[q]
  }

  /** `s` lists each of `0..n-1` exactly once. */
  ghost predicate IsPerm(s: seq<int>, n: nat) {
    && |s| == n
    && (forall p :: 0 <= p < n ==> 0 <= s[p] < n)
    && Distinct(s)
  }

  lemma {:induction false} DistinctMultiset<T>(s: seq<T>)
    ensures Distinct(s) <==> forall x :: multiset(s)[x] <= 1
  {
    if s != [] {
      var r := s[..|s| - 1];
      var z := s[|s| - 1];
      assert s == r + [z];
      DistinctMultiset(r);
      if Distinct(s) {
        assert Distinct(r) && z !in r;
        assert multiset(r)[z] == 0;
      }
      if forall x :: multiset(s)[x] <= 1 {
        assert multiset(s) == multiset(r) + multiset{z};
        assert forall x :: multiset(r)[x] <= multiset(s)[x];
        assert multiset(r)[z] == 0;
        assert z !in r;
      }
    }
  }

  lemma IsPermKept(s: seq<int>, t: seq<int>, lo: int, hi: int, n: nat)
    requires IsPerm(s, n) && SegPerm(s, t, lo, hi)
    ensures IsPerm(t, n)
  {
    SegPermWiden(s, t, lo, hi, 0, |s|);
    assert s[0..|s|] == s && t[0..|t|] == t;
    DistinctMultiset(s);
    DistinctMultiset(t);
    SegPermForall(s, t, 0, n, x => 0 <= x < n);
  }

  /** The set of the first `k` entries of a sequence of distinct entries has `k` elements. */
  lemma {:induction false} DistinctCard<T>(s: seq<T>, k: nat)
    requires k <= |s| && Distinct(s)
    ensures |set p | 0 <= p < k :: s[p]| == k
  {
    if k > 0 {
      DistinctCard(s, k - 1);
      var a := set p | 0 <= p < k - 1 :: s[p];
      var b := set p | 0 <= p < k :: s[p];
      assert s[k - 1] !in a;
      assert b == a + {s[k - 1]};
    }
  }

  function Iota(n: nat): (r: seq<int>)
    ensures |r| == n && forall p :: 0 <= p < n ==> r[p] == p
  {
    seq(n, i => i)
  }

  /** Pigeonhole: a permutation reaches every value. */
  lemma PermHits(s: seq<int>, n: nat, v: int) returns (p: int)
    requires IsPerm(s, n) && 0 <= v < n
    ensures 0 <= p < n && s[p] == v
  {
    if v !in s {
      DistinctCard(s, n);
      DistinctCard(Iota(n), n);
      var a := set p | 0 <= p < n :: s[p];
      var all := set p | 0 <= p < n :: Iota(n)[p];
      assert a <= all - {v} by {
        forall x | x in a ensures x in all && x != v {
          var q :| 0 <= q < n && s[q] == x;
          assert Iota(n)[x] == x;
        }
      }
      assert Iota(n)[v] == v;
      assert |all - {v}| == n - 1;
      SubsetCard(a, all - {v});
    }
    p :| 0 <= p < |s| && s[p] == v;
  }

  lemma {:induction false} SubsetCard<T>(a: set<T>, b: set<T>)
    requires a <= b
    ensures |a| <= |b|
    decreases a
  {
    if a != {} {
      var x :| x in a;
      SubsetCard(a - {x}, b - {x});
    }
  }
}
