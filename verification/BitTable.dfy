/** The bucket-header bit table of deps/bzip2/blocksort.c (SET_BH and its companions).
    A 32-bit word is modelled by its bits, least significant first; whole words of ones or zeros are skipped
    at once, as the source does. */
module BitTable {

  type Word = w: seq<bool> | |w| == 32 witness seq(32, _ => false)

  function Zero(): Word { seq(32, _ => false) }

  function AllOnes(): Word { seq(32, _ => true) }

  /** ISSET_BH */
  predicate IsSet(t: seq<Word>, zz: int)
    requires 0 <= zz < 32 * |t|
  {
    t[zz / 32][zz % 32]
  }

  /** SET_BH */
  method SetBh(t: array<Word>, zz: int)
    requires 0 <= zz < 32 * t.Length
    modifies t
    ensures forall k :: 0 <= k < 32 * t.Length ==> IsSet(t[..], k) == (k == zz || IsSet(old(t[..]), k))
  {
    t[zz / 32] := t[zz / 32][zz % 32 := true];
  }

  /** CLEAR_BH */
  method ClearBh(t: array<Word>, zz: int)
    requires 0 <= zz < 32 * t.Length
    modifies t
    ensures forall k :: 0 <= k < 32 * t.Length ==> IsSet(t[..], k) == (k != zz && IsSet(old(t[..]), k))
  {
    t[zz / 32] := t[zz / 32][zz % 32 := false];
  }

  /** A word of all ones, or of all zeros, is 32 set, or clear, bits. */
  lemma WordUniform(t: seq<Word>, k: int)
    requires 0 <= k && k + 32 <= 32 * |t| && k % 32 == 0
    ensures t[k / 32] == AllOnes() ==> forall j :: k <= j < k + 32 ==> IsSet(t, j)
    ensures t[k / 32] == Zero() ==> forall j :: k <= j < k + 32 ==> !IsSet(t, j)
  {
    forall j | k <= j < k + 32 ensures j / 32 == k / 32 {}
  }

  /** `lo..hi-1` are all set, or all clear. */
  ghost predicate AllBits(t: seq<Word>, lo: int, hi: int, v: bool)
    requires 0 <= lo && hi <= 32 * |t|
  {
    forall j :: lo <= j < hi ==> IsSet(t, j) == v
  }

  /** Skip forward from `k` over bits equal to `v`, a word at a time where possible; `stop` is a bit
      known to differ, which bounds the search. */
  method SkipBits(t: array<Word>, from: int, v: bool, ghost stop: int) returns (k: int)
    requires 0 <= from <= stop < 32 * t.Length && IsSet(t[..], stop) != v
    ensures from <= k <= stop && IsSet(t[..], k) != v && AllBits(t[..], from, k, v)
  {
    k := from;
    while IsSet(t[..], k) == v && k % 32 != 0
      invariant from <= k <= stop && AllBits(t[..], from, k, v)
      decreases stop - k
    {
      k := k + 1;
    }
    if IsSet(t[..], k) == v {
      while t[k / 32] == (if v then AllOnes() else Zero())
        invariant from <= k <= stop && k % 32 == 0 && AllBits(t[..], from, k, v)
        decreases stop - k
      {
        assert k + 32 <= 32 * t.Length;
        WordUniform(t[..], k);
        assert stop >= k + 32;
        k := k + 32;
      }
      while IsSet(t[..], k) == v
        invariant from <= k <= stop && AllBits(t[..], from, k, v)
        decreases stop - k
      {
        k := k + 1;
      }
    }
  }
}
