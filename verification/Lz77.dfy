/** Literal and match tokens, and what they stand for (section 3.2.3 of RFC 1951). */
module Lz77 {
  import opened Counting
  import opened Options

  datatype Token = Literal(c: byte) | Match(dist: int, len: int)

  /** Copying `len` bytes from `dist` back; the source may overlap what is being written. */
  ghost function CopyBack(out: seq<byte>, dist: int, len: nat): (r: seq<byte>)
    requires 1 <= dist <= |out|
    ensures |r| == |out| + len && out <= r
    decreases len
  {
    if len == 0 then out else CopyBack(out + [out[|out| - dist]], dist, len - 1)
  }

  /** What one token adds; None when a distance reaches before the start. */
  ghost function After(out: seq<byte>, t: Token): Option<seq<byte>> {
    match t
    case Literal(c) => Some(out + [c])
    case Match(dist, len) => if 1 <= dist <= |out| && len >= 0 then Some(CopyBack(out, dist, len)) else None
  }

  /** The bytes tokens stand for. */
  ghost function Expand(tokens: seq<Token>): Option<seq<byte>> {
    if tokens == [] then Some([])
    else
      match Expand(tokens[..|tokens| - 1])
      case None => None
      case Some(out) => After(out, tokens[|tokens| - 1])
  }

  /** Lengths and distances a compressor with windows of `wsize` bytes may use. */
  ghost predicate Legal(t: Token, wsize: int) {
    match t
    case Literal(_) => true
    case Match(dist, len) => 3 <= len <= 258 && 1 <= dist <= wsize - 262
  }

  ghost predicate AllLegal(tokens: seq<Token>, wsize: int) {
    forall k :: 0 <= k < |tokens| ==> Legal(tokens[k], wsize)
  }

  /** At `at`, the text repeats what it was `dist` earlier for `len` bytes. */
  ghost predicate Repeats(hist: seq<byte>, at: int, dist: int, len: int) {
    && 0 <= len && 1 <= dist <= at && at + len <= |hist|
    && hist[at..at + len] == hist[at - dist..at - dist + len]
  }

  lemma SliceOfSlice(s: seq<byte>, a: int, b: int, i: int, j: int)
    requires 0 <= a <= b <= |s| && 0 <= i <= j <= b - a
    ensures s[a..b][i..j] == s[a + i..a + j]
  {
    var u, v := s[a..b][i..j], s[a + i..a + j];
    forall k | 0 <= k < j - i ensures u[k] == v[k] {
      assert u[k] == s[a..b][i + k] == s[a + (i + k)];
      assert v[k] == s[(a + i) + k];
    }
  }

  /** Copying a repetition reproduces the text, overlap included. */
  lemma {:induction false} CopyReproduces(hist: seq<byte>, at: int, dist: int, len: nat)
    requires Repeats(hist, at, dist, len)
    ensures CopyBack(hist[..at], dist, len) == hist[..at + len]
    decreases len
  {
    if len > 0 {
      assert hist[at..at + len][0] == hist[at - dist..at - dist + len][0];
      assert hist[..at] + [hist[at - dist]] == hist[..at + 1];
      assert hist[at + 1..at + len] == hist[at..at + len][1..];
      assert hist[at + 1 - dist..at - dist + len] == hist[at - dist..at - dist + len][1..];
      CopyReproduces(hist, at + 1, dist, len - 1);
    }
  }

  lemma {:induction false} ExpandPush(tokens: seq<Token>, t: Token)
    ensures Expand(tokens).None? ==> Expand(tokens + [t]) == None
    ensures Expand(tokens).Some? ==> Expand(tokens + [t]) == After(Expand(tokens).value, t)
  {
    assert (tokens + [t])[..|tokens|] == tokens;
  }
}
