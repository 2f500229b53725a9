/** The match copies of infback.c and inffast.c in deps/zlib. */
module InflateCopy {
  import opened Counting
  import opened Lz77

  /** A copy can be made in pieces. */
  lemma {:induction false} CopyInPieces(h: seq<byte>, dist: int, a: nat, b: nat)
    requires 1 <= dist <= |h|
    ensures CopyBack(CopyBack(h, dist, a), dist, b) == CopyBack(h, dist, a + b)
    decreases a
  {
    if a > 0 { CopyInPieces(h + [h[|h| - dist]], dist, a - 1, b); }
  }

  /** One more byte of a copy. */
  lemma {:induction false} CopyOneMore(h: seq<byte>, dist: int, n: nat)
    requires 1 <= dist <= |h|
    ensures var g := CopyBack(h, dist, n); CopyBack(h, dist, n + 1) == g + [g[|g| - dist]]
  {
    CopyInPieces(h, dist, n, 1);
    var g := CopyBack(h, dist, n);
    assert CopyBack(g, dist, 1) == CopyBack(g + [g[|g| - dist]], dist, 0);
  }

  lemma {:induction false} CopyNone(h: seq<byte>, dist: int)
    ensures 1 <= dist <= |h| ==> CopyBack(h, dist, 0) == h
  {
  }

  /** A copy that does not reach itself is a plain one. */
  lemma {:induction false} CopyPlain(h: seq<byte>, dist: int, n: nat)
    requires 1 <= dist <= |h| && n <= dist
    ensures CopyBack(h, dist, n) == h + h[|h| - dist..|h| - dist + n]
    decreases n
  {
    if n > 0 {
      CopyPlain(h, dist, n - 1);
      CopyOneMore(h, dist, n - 1);
      var at := |h| - dist;
      assert h[at..at + n] == h[at..at + n - 1] + [h[at + n - 1]];
    } else {
      assert h[|h| - dist..|h| - dist] == [];
    }
  }

  // ----- inflate_fast

  /** The sliding window of inflate(): the last `whave` bytes of the output before this call, ending before
      index `wnext` and wrapping around. It is filled from index 0 on before it wraps. */
  ghost predicate Slides(window: seq<byte>, whave: nat, wnext: nat, before: seq<byte>) {
    && wnext <= whave <= |window| && whave <= |before|
    && (whave < |window| ==> wnext == whave) && (|window| > 0 ==> wnext < |window|)
    && window[..wnext] == before[|before| - wnext..]
    && (wnext < whave ==> window[wnext..] == before[|before| - whave..|before| - wnext])
  }

  /** Where the window keeps `n` of the bytes that end `o` before the output buffer. */
  lemma WindowSource(window: seq<byte>, whave: nat, wnext: nat, before: seq<byte>, o: nat, from: int, n: nat)
    requires Slides(window, whave, wnext, before) && 1 <= o <= whave
    requires from == if o > wnext then |window| + wnext - o else wnext - o
    requires n <= if o > wnext then o - wnext else o
    ensures 0 <= from && from + n <= |window|
    ensures window[from..from + n] == before[|before| - o..|before| - o + n]
  {
    if o > wnext {
      SliceOfSlice(window, wnext, |window|, from - wnext, from - wnext + n);
      SliceOfSlice(before, |before| - whave, |before| - wnext, whave - o, whave - o + n);
      assert window[wnext..|window|] == window[wnext..];
    } else {
      SliceOfSlice(window, 0, wnext, from, from + n);
      SliceOfSlice(before, |before| - wnext, |before|, wnext - o, wnext - o + n);
      assert window[0..wnext] == window[..wnext] && before[|before| - wnext..|before|] == before[|before| - wnext..];
    }
  }

  /** Everything decoded so far: what came before this call, and the output buffer. */
  ghost function Decoded(before: seq<byte>, out: seq<byte>, beg: nat, at: nat): seq<byte>
    requires beg <= at <= |out|
  {
    before + out[beg..at]
  }

  /** Three bytes at a time from the window. */
  method CopyFromWindow(out: array<byte>, at: nat, window: array<byte>, from: nat, n: nat)
    requires out != window && at + n <= out.Length && from + n <= window.Length
    modifies out
    ensures out[..at] == old(out[..at]) && out[at..at + n] == window[from..from + n]
  {
    var k := 0;
    while k + 2 < n
      invariant 0 <= k <= n && out[..at] == old(out[..at]) && out[at..at + k] == window[from..from + k]
    {
      WindowByte(out, at, window, from, k);
      WindowByte(out, at, window, from, k + 1);
      WindowByte(out, at, window, from, k + 2);
      k := k + 3;
    }
    while k < n
      invariant 0 <= k <= n && out[..at] == old(out[..at]) && out[at..at + k] == window[from..from + k]
    {
      WindowByte(out, at, window, from, k);
      k := k + 1;
    }
  }

  /** `*out++ = *from++` from the window. */
  method WindowByte(out: array<byte>, at: nat, window: array<byte>, from: nat, k: nat)
    requires out != window && at + k < out.Length && from + k < window.Length
    requires out[at..at + k] == window[from..from + k]
    modifies out
    ensures out[..at] == old(out[..at]) && out[at..at + k + 1] == window[from..from + k + 1]
  {
    ghost var o := out[..];
    out[at + k] := window[from + k];
    assert out[..] == o[at + k := window[from + k]];
    assert out[at..at + k + 1] == o[at..at + k] + [window[from + k]];
    assert out[..at] == o[..at];
  }

  /** A stretch copied from the window is the next part of the match. */
  lemma WindowPart(before: seq<byte>, old_: seq<byte>, new_: seq<byte>, beg: nat, at: nat, n: nat, dist: nat,
                   window: seq<byte>, from: nat)
    requires beg <= at && at + n <= |old_| == |new_| && from + n <= |window|
    requires new_[..at] == old_[..at] && new_[at..at + n] == window[from..from + n]
    requires 1 <= dist && at - beg + n <= dist <= |before| + (at - beg)
    requires window[from..from + n] == before[|before| + (at - beg) - dist..|before| + (at - beg) - dist + n]
    ensures Decoded(before, new_, beg, at + n) == CopyBack(Decoded(before, old_, beg, at), dist, n)
  {
    var h := Decoded(before, old_, beg, at);
    CopyPlain(h, dist, n);
    assert new_[beg..at] == new_[..at][beg..] && old_[beg..at] == old_[..at][beg..];
    assert new_[beg..at + n] == new_[beg..at] + new_[at..at + n];
    var s := |h| - dist;
    assert h[s..s + n] == before[s..s + n];
    assert Decoded(before, new_, beg, at + n) == h + new_[at..at + n];
  }

  /** Copying from the output buffer itself, which may overlap. */
  method CopyFromOutput(out: array<byte>, beg: nat, at: nat, dist: nat, n: nat, ghost before: seq<byte>)
    requires beg <= at && at + n <= out.Length && 1 <= dist <= at - beg
    modifies out
    ensures Decoded(before, out[..], beg, at + n) == CopyBack(Decoded(before, old(out[..]), beg, at), dist, n)
  {
    hide CopyBack;
    ghost var h := Decoded(before, out[..], beg, at);
    assert dist <= |h|;
    hide Decoded;
    CopyNone(h, dist);
    var k := 0;
    while k + 2 < n
      invariant 0 <= k <= n && Decoded(before, out[..], beg, at + k) == CopyBack(h, dist, k)
    {
      OutputThree(out, beg, at, dist, k, before, h);
      k := k + 3;
    }
    while k < n
      invariant 0 <= k <= n && Decoded(before, out[..], beg, at + k) == CopyBack(h, dist, k)
    {
      OutputByte(out, beg, at, dist, k, before, h);
      k := k + 1;
    }
  }

  method OutputThree(out: array<byte>, beg: nat, at: nat, dist: nat, k: nat, ghost before: seq<byte>, ghost h: seq<byte>)
    requires beg <= at && at + k + 2 < out.Length && 1 <= dist <= at - beg && dist <= |h|
    requires Decoded(before, out[..], beg, at + k) == CopyBack(h, dist, k)
    modifies out
    ensures Decoded(before, out[..], beg, at + k + 3) == CopyBack(h, dist, k + 3)
  {
    hide CopyBack, Decoded;
    OutputByte(out, beg, at, dist, k, before, h);
    OutputByte(out, beg, at, dist, k + 1, before, h);
    OutputByte(out, beg, at, dist, k + 2, before, h);
  }

  /** `*out++ = *from++` within the output buffer. */
  method OutputByte(out: array<byte>, beg: nat, at: nat, dist: nat, k: nat, ghost before: seq<byte>, ghost h: seq<byte>)
    requires beg <= at && at + k < out.Length && 1 <= dist <= at - beg && dist <= |h|
    requires Decoded(before, out[..], beg, at + k) == CopyBack(h, dist, k)
    modifies out
    ensures Decoded(before, out[..], beg, at + k + 1) == CopyBack(h, dist, k + 1)
  {
    hide CopyBack;
    CopyOneMore(h, dist, k);
    ghost var o := out[..];
    ghost var g := Decoded(before, o, beg, at + k);
    assert g[|g| - dist] == o[at + k - dist];
    out[at + k] := out[at + k - dist];
    assert out[..] == o[at + k := o[at + k - dist]];
    assert out[..][beg..at + k + 1] == o[beg..at + k] + [o[at + k - dist]];
  }

  /** A stretch of a match from the window. */
  method Stretch(out: array<byte>, beg: nat, at: nat, window: array<byte>, from: nat, n: nat, dist: nat, ghost before: seq<byte>)
    requires out != window && beg <= at && at + n <= out.Length && from + n <= window.Length
    requires 1 <= dist && at - beg + n <= dist <= |before| + (at - beg)
    requires window[from..from + n] == before[|before| + (at - beg) - dist..|before| + (at - beg) - dist + n]
    modifies out
    ensures Decoded(before, out[..], beg, at + n) == CopyBack(Decoded(before, old(out[..]), beg, at), dist, n)
  {
    hide CopyBack;
    ghost var o := out[..];
    CopyFromWindow(out, at, window, from, n);
    WindowPart(before, o, out[..], beg, at, n, dist, window[..], from);
  }

  /** The cases that start in the window: at its end if `wnext` is 0, wrapped, or contiguous. */
  method FromWindow(out: array<byte>, beg: nat, at0: nat, window: array<byte>, whave: nat, wnext: nat,
                    dist: nat, len0: nat, ghost before: seq<byte>)
    returns (at: nat)
    requires out != window && beg <= at0 && at0 + len0 <= out.Length && 3 <= len0
    requires Slides(window[..], whave, wnext, before) && at0 - beg < dist <= whave + (at0 - beg)
    modifies out
    ensures at == at0 + len0 && |before| >= whave
    ensures Decoded(before, out[..], beg, at) == CopyBack(Decoded(before, old(out[..]), beg, at0), dist, len0)
  {
    hide CopyBack, Decoded, Slides;
    SlidesBounds(window[..], whave, wnext, before);
    ghost var h := Decoded(before, out[..], beg, at0);
    DecodedLength(before, out[..], beg, at0);
    CopyNone(h, dist);
    at := at0;
    var wsize := window.Length;
    var len := len0;
    var op := dist - (at - beg);
    var from;
    if wnext == 0 {
      from := wsize - op;
    } else if wnext < op {
      from := wsize + wnext - op;
      op := op - wnext;
      if op < len {
        WindowSource(window[..], whave, wnext, before, op + wnext, from, op);
        Stretch(out, beg, at, window, from, op, dist, before);
        at := at + op;
        len := len - op;
        from := 0;
        op := wnext;
      }
    } else {
      from := wnext - op;
    }
    at := FinishMatch(out, beg, at, window, whave, wnext, from, op, dist, len, before, h, at - at0);
  }

  /** The last stretch from the window, and what is left from the output itself. */
  method FinishMatch(out: array<byte>, beg: nat, at0: nat, window: array<byte>, whave: nat, wnext: nat, from: int,
                     op: nat, dist: nat, len: nat, ghost before: seq<byte>, ghost h: seq<byte>, ghost done: nat)
    returns (at: nat)
    requires out != window && beg <= at0 && at0 + len <= out.Length && 1 <= dist <= |h|
    requires Slides(window[..], whave, wnext, before) && 1 <= dist - (at0 - beg) <= whave <= |before|
    requires var o := dist - (at0 - beg);
             from == (if o > wnext then window.Length + wnext - o else wnext - o) && (op < len ==> op == o)
             && (o > wnext ==> op == o - wnext) && op <= o
    requires Decoded(before, out[..], beg, at0) == CopyBack(h, dist, done)
    modifies out
    ensures at == at0 + len && Decoded(before, out[..], beg, at) == CopyBack(h, dist, done + len)
  {
    hide CopyBack, Decoded, Slides;
    var n := if op < len then op else len;
    WindowSource(window[..], whave, wnext, before, dist - (at0 - beg), from, n);
    Stretch(out, beg, at0, window, from, n, dist, before);
    CopyInPieces(h, dist, done, n);
    at := at0 + n;
    if n < len {
      CopyFromOutput(out, beg, at, dist, len - n, before);
      CopyInPieces(h, dist, done + n, len - n);
      at := at + (len - n);
    }
  }

  lemma SlidesBounds(window: seq<byte>, whave: nat, wnext: nat, before: seq<byte>)
    requires Slides(window, whave, wnext, before)
    ensures wnext <= whave <= |window| && whave <= |before| && (wnext < whave ==> whave == |window|)
  {
  }

  lemma DecodedLength(before: seq<byte>, out: seq<byte>, beg: nat, at: nat)
    requires beg <= at <= |out|
    ensures |Decoded(before, out, beg, at)| == |before| + (at - beg)
  {
  }

  /** The match copy of inflate_fast, with the output buffer `beg..at0` filled in this call. The distance is too
      far back exactly if it reaches before what the window holds. */
  method FastCopy(out: array<byte>, beg: nat, at0: nat, window: array<byte>, whave: nat, wnext: nat,
                  dist: nat, len: nat, ghost before: seq<byte>)
    returns (ok: bool, at: nat)
    requires out != window && beg <= at0 && at0 + len <= out.Length && 3 <= len && 1 <= dist
    requires Slides(window[..], whave, wnext, before)
    modifies out
    ensures |before| >= whave && (ok <==> dist <= whave + (at0 - beg))
    ensures !ok ==> at == at0 && out[..] == old(out[..])
    ensures ok ==> at == at0 + len
    ensures ok ==> Decoded(before, out[..], beg, at) == CopyBack(Decoded(before, old(out[..]), beg, at0), dist, len)
  {
    hide CopyBack, Slides;
    SlidesBounds(window[..], whave, wnext, before);
    at := at0;
    var op := at - beg;
    if dist <= op {
      CopyFromOutput(out, beg, at, dist, len, before);
      return true, at + len;
    }
    op := dist - op;
    if op > whave { return false, at; }
    at := FromWindow(out, beg, at, window, whave, wnext, dist, len, before);
    ok := true;
  }
}
