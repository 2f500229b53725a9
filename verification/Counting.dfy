/** Counting bytes: the arithmetic behind the bucket tables of the sorter and of the decoder. How often a byte
    occurs before a position, where its bucket starts, and that the buckets of all 256 bytes fill the block
    exactly. */
module Counting {

  type byte = x: int | 0 <= x < 256

  ghost predicate IsBytes(s: seq<int>) {
    forall k :: 0 <= k < |s| ==> 0 <= s[k] < 256
  }

  ghost predicate Naturals(s: seq<int>) {
    forall k :: 0 <= k < |s| ==> 0 <= s[k]
  }

  /** How many of the first `k` elements equal `c`. */
  ghost function Count(s: seq<int>, c: int, k: nat): (r: nat)
    requires k <= |s|
    ensures r <= k
  {
    if k == 0 then 0 else Count(s, c, k - 1) + (if s[k - 1] == c then 1 else 0)
  }

  /** How many elements are smaller than `c`: where the bucket of `c` starts. */
  ghost function Start(s: seq<int>, c: nat): nat {
    if c == 0 then 0 else Start(s, c - 1) + Count(s, c - 1, |s|)
  }

  lemma {:induction false} CountMono(s: seq<int>, c: int, j: nat, k: nat)
    requires j <= k <= |s|
    ensures Count(s, c, j) <= Count(s, c, k)
  {
    if j < k { CountMono(s, c, j, k - 1); }
  }

  /** An occurrence between `j` and `k` is counted. */
  lemma CountStrict(s: seq<int>, j: nat, k: nat)
    requires j < k <= |s|
    ensures Count(s, s[j], j) < Count(s, s[j], k)
  {
    CountMono(s, s[j], j + 1, k);
  }

  lemma {:induction false} StartMono(s: seq<int>, c: nat, d: nat)
    requires c <= d
    ensures Start(s, c) <= Start(s, d)
  {
    if c < d { StartMono(s, c, d - 1); }
  }

  /** Number of elements below `c` among the first `k`. */
  ghost function Below(s: seq<int>, c: nat, k: nat): (r: nat)
    requires k <= |s|
    ensures r <= k
  {
    if k == 0 then 0 else Below(s, c, k - 1) + (if s[k - 1] < c then 1 else 0)
  }

  lemma {:induction false} BelowStep(s: seq<int>, c: nat, k: nat)
    requires k <= |s|
    ensures Below(s, c + 1, k) == Below(s, c, k) + Count(s, c, k)
  {
    if k > 0 { BelowStep(s, c, k - 1); }
  }

  lemma {:induction false} StartIsBelow(s: seq<int>, c: nat)
    requires Naturals(s)
    ensures Start(s, c) == Below(s, c, |s|)
  {
    if c == 0 {
      BelowZero(s, |s|);
    } else {
      StartIsBelow(s, c - 1);
      BelowStep(s, c - 1, |s|);
    }
  }

  lemma {:induction false} BelowZero(s: seq<int>, k: nat)
    requires k <= |s| && Naturals(s)
    ensures Below(s, 0, k) == 0
  {
    if k > 0 { BelowZero(s, k - 1); }
  }

  lemma {:induction false} BelowAll(s: seq<int>, k: nat)
    requires k <= |s| && IsBytes(s)
    ensures Below(s, 256, k) == k
  {
    if k > 0 { BelowAll(s, k - 1); }
  }

  /** All buckets together fill the block. */
  lemma StartTotal(s: seq<int>)
    requires IsBytes(s)
    ensures Start(s, 256) == |s|
  {
    StartIsBelow(s, 256);
    BelowAll(s, |s|);
  }

  /** A bucket lies inside the block. */
  lemma StartBound(s: seq<int>, c: nat)
    requires IsBytes(s) && c <= 256
    ensures Start(s, c) <= |s|
  {
    StartTotal(s);
    StartMono(s, c, 256);
  }

  /** A bucket of any alphabet lies inside the block. */
  lemma StartInside(s: seq<int>, c: nat)
    requires Naturals(s)
    ensures Start(s, c) <= |s|
  {
    StartIsBelow(s, c);
  }
}
