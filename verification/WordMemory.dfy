/** Arrays of 32-bit words that the compressor also views as bytes or as half-words: the block overlays
    the words of arr2, and the symbols to be coded overlay the pointers in arr1. Bytes and half-words are
    numbered from the least significant end, as on a little-endian machine. */
module WordMemory {
  import opened Counting

  /** Byte `q` of a little-endian word. */
  function ByteOf(w: int, q: nat): (v: int)
    ensures 0 <= v < 256
    decreases q
  {
    if q == 0 then w % 256 else ByteOf(w / 256, q - 1)
  }

  /** The word `w` with byte `q` replaced by `v`. */
  function WithByte(w: int, q: nat, v: int): int
    decreases q
  {
    if q == 0 then w / 256 * 256 + v else w % 256 + 256 * WithByte(w / 256, q - 1, v)
  }

  /** `eclass8[k]`, for a little-endian machine. */
  function ByteAt(e: seq<int>, k: int): (v: int)
    requires 0 <= k && k / 4 < |e|
    ensures 0 <= v < 256
  {
    ByteOf(e[k / 4], k % 4)
  }

  ghost function Bytes(e: seq<int>, n: nat): (b: seq<int>)
    requires n <= |e|
    ensures |b| == n && IsBytes(b)
  {
    seq(n, k requires 0 <= k < n => ByteAt(e, k))
  }

  lemma {:induction false} WithByteOf(w: int, q: nat, v: int, q': nat)
    requires 0 <= v < 256
    ensures ByteOf(WithByte(w, q, v), q') == if q == q' then v else ByteOf(w, q')
    decreases q
  {
    var x := WithByte(w, q, v);
    if q == 0 {
      assert x % 256 == v && x / 256 == w / 256;
    } else {
      assert x % 256 == w % 256 && x / 256 == WithByte(w / 256, q - 1, v);
      if q' > 0 { WithByteOf(w / 256, q - 1, v, q' - 1); }
    }
  }

  /** `eclass8[k] = v` */
  method PutByte(eclass: array<int>, k: int, v: int)
    requires 0 <= k && k / 4 < eclass.Length && 0 <= v < 256
    modifies eclass
    ensures forall j :: 0 <= j && j / 4 < eclass.Length ==>
              ByteAt(eclass[..], j) == if j == k then v else ByteAt(old(eclass[..]), j)
  {
    ghost var e := eclass[..];
    var w := eclass[k / 4];
    eclass[k / 4] := WithByte(w, k % 4, v);
    forall j | 0 <= j && j / 4 < eclass.Length
      ensures ByteAt(eclass[..], j) == if j == k then v else ByteAt(e, j)
    {
      if j / 4 == k / 4 { WithByteOf(w, k % 4, v, j % 4); }
    }
  }

  /** `eclass8[k]` as an expression. */
  method GetByte(eclass: array<int>, k: int, ghost b: seq<int>) returns (v: int)
    requires 0 <= k < |b| <= eclass.Length && b == Bytes(eclass[..], |b|)
    ensures v == b[k] && 0 <= v < 256
  {
    v := ByteAt(eclass[..], k);
  }

  /** Half-word `q` of a word. */
  function HalfOf(w: int, q: nat): int {
    if q == 0 then w % 0x1_0000 else w / 0x1_0000 % 0x1_0000
  }

  /** `mtfv[k]` */
  function HalfAt(a: seq<int>, k: int): int
    requires 0 <= k && k / 2 < |a|
  {
    HalfOf(a[k / 2], k % 2)
  }

  /** `mtfv[k] = v`; only the word `k / 2` changes. */
  method PutHalf(a: array<int>, k: int, v: int)
    requires 0 <= k && k / 2 < a.Length && 0 <= v < 0x1_0000
    modifies a
    ensures forall j :: 0 <= j && j / 2 < a.Length ==>
              HalfAt(a[..], j) == if j == k then v else HalfAt(old(a[..]), j)
    ensures forall j :: 0 <= j < a.Length && j != k / 2 ==> a[j] == old(a[j])
  {
    var w := a[k / 2];
    a[k / 2] := if k % 2 == 0 then w / 0x1_0000 * 0x1_0000 + v else w % 0x1_0000 + v * 0x1_0000;
    assert (w / 0x1_0000 * 0x1_0000 + v) / 0x1_0000 == w / 0x1_0000;
  }
}
