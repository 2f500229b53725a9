/** deps/SFMT: bulk filling gives the stream of single words. */
module Sfmt {
  import Powers

  // SFMT-params19937.h
  const SL1: nat := 18
  const SR1: nat := 11
  const MSK1: bv32 := 0xdfff_ffef
  const MSK2: bv32 := 0xddfe_cb7f
  const MSK3: bv32 := 0xbffa_ffff
  const MSK4: bv32 := 0xbfff_fff6

  /** w128_t */
  datatype W128 = W128(u0: bv32, u1: bv32, u2: bv32, u3: bv32)

  /** A word moved up by a byte, with the top byte of the word below. */
  function LeftWord(u: bv32, below: bv32): bv32 { (u << 8) | (below >> 24) }

  function RightWord(u: bv32, above: bv32): bv32 { (u >> 8) | (above << 24) }

  /** lshift128 by one byte. */
  function LShift(w: W128): W128 {
    W128(LeftWord(w.u0, 0), LeftWord(w.u1, w.u0), LeftWord(w.u2, w.u1), LeftWord(w.u3, w.u2))
  }

  /** rshift128 by one byte. */
  function RShift(w: W128): W128 {
    W128(RightWord(w.u0, w.u1), RightWord(w.u1, w.u2), RightWord(w.u2, w.u3), RightWord(w.u3, 0))
  }

  // The operations by name: what is proved about them is about bits, everything else is not.

  function Xor(u: bv32, v: bv32): bv32 { u ^ v }

  function MaskedWord(u: bv32, mask: bv32): bv32 { (u >> SR1) & mask }

  function UpWord(u: bv32): bv32 { u << SL1 }

  /** One word of the recursion formula. */
  function Mix(a: bv32, x: bv32, b: bv32, mask: bv32, y: bv32, d: bv32): bv32 {
    Xor(Xor(Xor(Xor(a, x), MaskedWord(b, mask)), y), UpWord(d))
  }

  /** The recursion formula. */
  function Rec(a: W128, b: W128, c: W128, d: W128): W128 {
    var x, y := LShift(a), RShift(c);
    W128(Mix(a.u0, x.u0, b.u0, MSK1, y.u0, d.u0), Mix(a.u1, x.u1, b.u1, MSK2, y.u1, d.u1),
         Mix(a.u2, x.u2, b.u2, MSK3, y.u2, d.u2), Mix(a.u3, x.u3, b.u3, MSK4, y.u3, d.u3))
  }

  /** lshift128 as the source computes it, on two 64-bit halves. */
  function LShift64(w: W128): W128 {
    var th, tl := ((w.u3 as bv64) << 32) | (w.u2 as bv64), ((w.u1 as bv64) << 32) | (w.u0 as bv64);
    var oh, ol := (th << 8) | (tl >> 56), tl << 8;
    W128((ol & 0xffff_ffff) as bv32, (ol >> 32) as bv32, (oh & 0xffff_ffff) as bv32, (oh >> 32) as bv32)
  }

  /** rshift128 as the source computes it. */
  function RShift64(w: W128): W128 {
    var th, tl := ((w.u3 as bv64) << 32) | (w.u2 as bv64), ((w.u1 as bv64) << 32) | (w.u0 as bv64);
    var oh, ol := th >> 8, (tl >> 8) | (th << 56);
    W128((ol & 0xffff_ffff) as bv32, (ol >> 32) as bv32, (oh & 0xffff_ffff) as bv32, (oh >> 32) as bv32)
  }

  /** The 64-bit halves carry the bytes between words as a 128-bit shift does. */
  lemma ShiftsBy64(u0: bv32, u1: bv32, u2: bv32, u3: bv32)
    ensures var w := W128(u0, u1, u2, u3); LShift64(w) == LShift(w) && RShift64(w) == RShift(w)
  {
  }

  /** The four words as one number of 128 bits. */
  function Wide(u0: bv32, u1: bv32, u2: bv32, u3: bv32): bv128 {
    ((u3 as bv128) << 96) | ((u2 as bv128) << 64) | ((u1 as bv128) << 32) | (u0 as bv128)
  }

  function Full(w: W128): bv128 { Wide(w.u0, w.u1, w.u2, w.u3) }

  function WideXor(u: bv128, v: bv128): bv128 { u ^ v }

  function WideLeft(u: bv128): bv128 { u << 8 }

  function WideRight(u: bv128): bv128 { u >> 8 }

  /** SR1 and the masks, kept within the words. */
  function WideMasked(u: bv128): bv128 { (u >> 11) & 0x001f_fff6_001a_ffff_001e_cb7f_001f_ffef }

  /** SL1, kept within the words. */
  function WideUp(u: bv128): bv128 { (u << 18) & 0xfffc_0000_fffc_0000_fffc_0000_fffc_0000 }

  /** The recursion over 128-bit numbers, as the algorithm defines it: bytes move across the words in `a` and `c`; the
      shifts of `b` and `d` stay within their words, and the mask is applied to `b`. */
  function Recurrence(a: bv128, b: bv128, c: bv128, d: bv128): bv128 {
    WideXor(WideXor(WideXor(WideXor(a, WideLeft(a)), WideMasked(b)), WideRight(c)), WideUp(d))
  }

  lemma LeftBits(u0: bv32, u1: bv32, u2: bv32, u3: bv32)
    ensures Wide(u0 << 8, (u1 << 8) | (u0 >> 24), (u2 << 8) | (u1 >> 24), (u3 << 8) | (u2 >> 24)) == Wide(u0, u1, u2, u3) << 8
  {
  }

  lemma RightBits(u0: bv32, u1: bv32, u2: bv32, u3: bv32)
    ensures Wide((u0 >> 8) | (u1 << 24), (u1 >> 8) | (u2 << 24), (u2 >> 8) | (u3 << 24), u3 >> 8) == Wide(u0, u1, u2, u3) >> 8
  {
  }

  lemma EndWords(u: bv32)
    ensures LeftWord(u, 0) == u << 8 && RightWord(u, 0) == u >> 8
  {
  }

  lemma LeftIsWide(u0: bv32, u1: bv32, u2: bv32, u3: bv32)
    ensures Wide(LeftWord(u0, 0), LeftWord(u1, u0), LeftWord(u2, u1), LeftWord(u3, u2)) == WideLeft(Wide(u0, u1, u2, u3))
  {
    hide Wide;
    EndWords(u0);
    LeftBits(u0, u1, u2, u3);
  }

  lemma RightIsWide(u0: bv32, u1: bv32, u2: bv32, u3: bv32)
    ensures Wide(RightWord(u0, u1), RightWord(u1, u2), RightWord(u2, u3), RightWord(u3, 0)) == WideRight(Wide(u0, u1, u2, u3))
  {
    hide Wide;
    EndWords(u3);
    RightBits(u0, u1, u2, u3);
  }

  lemma MaskedBits(u0: bv32, u1: bv32, u2: bv32, u3: bv32)
    ensures Wide((u0 >> SR1) & MSK1, (u1 >> SR1) & MSK2, (u2 >> SR1) & MSK3, (u3 >> SR1) & MSK4)
            == (Wide(u0, u1, u2, u3) >> 11) & 0x001f_fff6_001a_ffff_001e_cb7f_001f_ffef
  {
  }

  lemma MaskedIsWide(u0: bv32, u1: bv32, u2: bv32, u3: bv32)
    ensures Wide(MaskedWord(u0, MSK1), MaskedWord(u1, MSK2), MaskedWord(u2, MSK3), MaskedWord(u3, MSK4)) == WideMasked(Wide(u0, u1, u2, u3))
  {
    hide Wide;
    MaskedBits(u0, u1, u2, u3);
  }

  lemma UpBits(u0: bv32, u1: bv32, u2: bv32, u3: bv32)
    ensures Wide(u0 << SL1, u1 << SL1, u2 << SL1, u3 << SL1)
            == (Wide(u0, u1, u2, u3) << 18) & 0xfffc_0000_fffc_0000_fffc_0000_fffc_0000
  {
  }

  lemma UpIsWide(u0: bv32, u1: bv32, u2: bv32, u3: bv32)
    ensures Wide(UpWord(u0), UpWord(u1), UpWord(u2), UpWord(u3)) == WideUp(Wide(u0, u1, u2, u3))
  {
    hide Wide;
    UpBits(u0, u1, u2, u3);
  }

  lemma XorIsWide(u0: bv32, u1: bv32, u2: bv32, u3: bv32, v0: bv32, v1: bv32, v2: bv32, v3: bv32)
    ensures Wide(Xor(u0, v0), Xor(u1, v1), Xor(u2, v2), Xor(u3, v3)) == WideXor(Wide(u0, u1, u2, u3), Wide(v0, v1, v2, v3))
  {
  }

  function XorWords(p: W128, q: W128): W128 { W128(Xor(p.u0, q.u0), Xor(p.u1, q.u1), Xor(p.u2, q.u2), Xor(p.u3, q.u3)) }

  lemma FullXor(p: W128, q: W128)
    ensures Full(XorWords(p, q)) == WideXor(Full(p), Full(q))
  {
    hide Wide, Xor, WideXor;
    XorIsWide(p.u0, p.u1, p.u2, p.u3, q.u0, q.u1, q.u2, q.u3);
  }

  /** The four words of the recursion formula are that number. */
  lemma RecIsWide(a: W128, b: W128, c: W128, d: W128)
    ensures Full(Rec(a, b, c, d)) == Recurrence(Full(a), Full(b), Full(c), Full(d))
  {
    hide Wide, LeftWord, RightWord, Xor, MaskedWord, UpWord, WideXor, WideLeft, WideRight, WideMasked, WideUp;
    var x, y := LShift(a), RShift(c);
    var m := W128(MaskedWord(b.u0, MSK1), MaskedWord(b.u1, MSK2), MaskedWord(b.u2, MSK3), MaskedWord(b.u3, MSK4));
    var t := W128(UpWord(d.u0), UpWord(d.u1), UpWord(d.u2), UpWord(d.u3));
    assert Rec(a, b, c, d) == XorWords(XorWords(XorWords(XorWords(a, x), m), y), t);
    LeftIsWide(a.u0, a.u1, a.u2, a.u3);
    RightIsWide(c.u0, c.u1, c.u2, c.u3);
    MaskedIsWide(b.u0, b.u1, b.u2, b.u3);
    UpIsWide(d.u0, d.u1, d.u2, d.u3);
    FullXor(a, x);
    FullXor(XorWords(a, x), m);
    FullXor(XorWords(XorWords(a, x), m), y);
    FullXor(XorWords(XorWords(XorWords(a, x), m), y), t);
  }

  /** do_recursion: writes the four words of `r[k]` one after the other; it may be the very element `a[i]` that the
      words are read from. */
  method DoRecursion(r: array<W128>, k: nat, a: array<W128>, i: nat, b: array<W128>, j: nat, c: W128, d: W128)
    requires k < r.Length && i < a.Length && j < b.Length && (r == b ==> k != j)
    modifies r
    ensures r[..] == old(r[..][k := Rec(a[i], b[j], c, d)])
  {
    hide LShift, RShift, LShift64, RShift64, Mix;
    ghost var r0, aw, bw := r[..], a[i], b[j];
    var x, y := LShift64(a[i]), RShift64(c);
    ShiftsBy64(a[i].u0, a[i].u1, a[i].u2, a[i].u3);
    ShiftsBy64(c.u0, c.u1, c.u2, c.u3);
    PutWord(r, k, 0, Mix(a[i].u0, x.u0, b[j].u0, MSK1, y.u0, d.u0));
    assert b[j] == bw && a[i].u1 == aw.u1 && a[i].u2 == aw.u2 && a[i].u3 == aw.u3;
    PutWord(r, k, 1, Mix(a[i].u1, x.u1, b[j].u1, MSK2, y.u1, d.u1));
    assert b[j] == bw && a[i].u2 == aw.u2 && a[i].u3 == aw.u3;
    PutWord(r, k, 2, Mix(a[i].u2, x.u2, b[j].u2, MSK3, y.u2, d.u2));
    assert b[j] == bw && a[i].u3 == aw.u3;
    PutWord(r, k, 3, Mix(a[i].u3, x.u3, b[j].u3, MSK4, y.u3, d.u3));
    assert r[k] == Rec(aw, bw, c, d);
    assert r[..] == r0[k := r[k]];
  }

  /** One word of an element. */
  method PutWord(r: array<W128>, k: nat, m: nat, v: bv32)
    requires k < r.Length && m < 4
    modifies r
    ensures r[..] == old(r[..])[k := WithPart(old(r[k]), m, v)]
  {
    r[k] := WithPart(r[k], m, v);
  }

  function WithPart(w: W128, m: nat, v: bv32): W128
    requires m < 4
  {
    if m == 0 then w.(u0 := v) else if m == 1 then w.(u1 := v) else if m == 2 then w.(u2 := v) else w.(u3 := v)
  }

  // ----- the sequence

  /** The recurrence x[k + N] = f(x[k], x[k + POS1], x[k + N - 2], x[k + N - 1]), starting with the state. */
  ghost function Term(state: seq<W128>, pos1: nat, k: nat): W128
    requires |state| >= 2 && 0 < pos1 < |state|
  {
    var n := |state|;
    if k < n then state[k]
    else Rec(Term(state, pos1, k - n), Term(state, pos1, k - n + pos1), Term(state, pos1, k - 2), Term(state, pos1, k - 1))
  }

  lemma TermNext(state: seq<W128>, pos1: nat, k: nat)
    requires |state| >= 2 && 0 < pos1 < |state|
    ensures var n := |state|;
            Term(state, pos1, k + n)
            == Rec(Term(state, pos1, k), Term(state, pos1, k + pos1), Term(state, pos1, k + n - 2), Term(state, pos1, k + n - 1))
  {
    hide Rec;
  }

  lemma TermFirst(state: seq<W128>, pos1: nat, k: nat)
    requires |state| >= 2 && 0 < pos1 < |state| && k < |state|
    ensures Term(state, pos1, k) == state[k]
  {
    hide Rec;
  }

  /** `window` holds the terms `m`, `m + 1`, ... of the sequence that starts with `origin`. */
  ghost predicate Holds(window: seq<W128>, origin: seq<W128>, pos1: nat, m: nat)
    requires |origin| >= 2 && 0 < pos1 < |origin|
  {
    forall i :: 0 <= i < |window| ==> window[i] == Term(origin, pos1, m + i)
  }

  /** The recurrence has no other memory: starting it again from N terms in a row continues the same sequence. */
  lemma {:induction false} Continues(window: seq<W128>, origin: seq<W128>, pos1: nat, m: nat, k: nat)
    requires |window| == |origin| >= 2 && 0 < pos1 < |origin| && Holds(window, origin, pos1, m)
    ensures Term(window, pos1, k) == Term(origin, pos1, m + k)
  {
    hide Rec, Term;
    var n := |origin|;
    if k < n {
      TermFirst(window, pos1, k);
    } else {
      Continues(window, origin, pos1, m, k - n);
      Continues(window, origin, pos1, m, k - n + pos1);
      Continues(window, origin, pos1, m, k - 2);
      Continues(window, origin, pos1, m, k - 1);
      TermNext(window, pos1, k - n);
      TermNext(origin, pos1, m + k - n);
    }
  }

  /** Word `q` of the sequence, four words to a term. */
  ghost function Word(origin: seq<W128>, pos1: nat, q: nat): bv32
    requires |origin| >= 2 && 0 < pos1 < |origin|
  {
    Part(Term(origin, pos1, q / 4), q % 4)
  }

  /** u[j] */
  function Part(w: W128, j: nat): bv32
    requires j < 4
  {
    if j == 0 then w.u0 else if j == 1 then w.u1 else if j == 2 then w.u2 else w.u3
  }

  class Generator {
    const n: nat
    const pos1: nat
    const state: array<W128>
    /** Index of the next 32-bit word of the state. */
    var idx: nat
    /** The state it was started with, and how many terms of its sequence the state has moved on by. */
    ghost var origin: seq<W128>
    ghost var passed: nat

    ghost predicate Sized()
      reads this
    {
      2 <= n == state.Length == |origin| && 0 < pos1 <= n - 2 && idx <= 4 * n
    }

    ghost predicate Valid()
      reads this, state
    {
      Sized() && Holds(state[..], origin, pos1, passed)
    }

    /** Which word of the sequence comes next. */
    ghost function Position(): nat
      reads this
    {
      4 * passed + idx
    }

    /** A state that has been initialised, with no word taken from it yet. */
    constructor (state: array<W128>, pos1: nat)
      requires 2 <= state.Length && 0 < pos1 <= state.Length - 2
      ensures Valid() && idx == 4 * n && this.state == state && this.pos1 == pos1 && n == state.Length
      ensures origin == state[..] && passed == 0
    {
      this.n, this.pos1, this.state, idx := state.Length, pos1, state, 4 * state.Length;
      origin, passed := state[..], 0;
      new;
      forall i | 0 <= i < this.n ensures state[..][i] == Term(origin, pos1, i) { TermFirst(origin, pos1, i); }
    }

    /** sfmt_gen_rand_all: the whole state moves on by N terms, in place. */
    method GenRandAll()
      requires Valid()
      modifies state, `passed
      ensures Valid() && passed == old(passed) + n
    {
      hide Rec, Term, Holds;
      ghost var s := state[..];
      forall k | 0 <= k < n ensures Term(s, pos1, k) == s[k] { TermFirst(s, pos1, k); }
      var r1, r2 := state[n - 2], state[n - 1];
      var i := 0;
      while i < n - pos1
        invariant 0 <= i <= n - pos1 && HalfMoved(state[..], s, i, r1, r2)
        modifies state
      {
        r1, r2 := MoveOne(i, i + pos1, r1, r2, s);
        i := i + 1;
      }
      while i < n
        invariant n - pos1 <= i <= n && HalfMoved(state[..], s, i, r1, r2)
        modifies state
      {
        r1, r2 := MoveOne(i, i + pos1 - n, r1, r2, s);
        i := i + 1;
      }
      passed := passed + n;
      Shifted(state[..], s, origin, pos1, passed - n, n);
    }

    /** `now` is the state when its first `i` terms have been replaced by the terms N later. */
    ghost predicate HalfMoved(now: seq<W128>, s: seq<W128>, i: nat, r1: W128, r2: W128)
      requires |now| == |s| == n >= 2 && 0 < pos1 < n && i <= n
    {
      && r1 == Term(s, pos1, i + n - 2) && r2 == Term(s, pos1, i + n - 1)
      && (forall k :: 0 <= k < i ==> now[k] == Term(s, pos1, k + n))
      && (forall k :: i <= k < n ==> now[k] == Term(s, pos1, k))
    }

    /** One step of either loop; `b` is where the middle term is kept by now. */
    method MoveOne(i: nat, b: nat, r10: W128, r20: W128, ghost s: seq<W128>) returns (r1: W128, r2: W128)
      requires Sized() && |s| == n && i < n && b == if i < n - pos1 then i + pos1 else i + pos1 - n
      requires HalfMoved(state[..], s, i, r10, r20)
      modifies state
      ensures HalfMoved(state[..], s, i + 1, r1, r2)
    {
      hide Rec, Term;
      ghost var now := state[..];
      TermNext(s, pos1, i);
      assert now[b] == Term(s, pos1, i + pos1) && now[i] == Term(s, pos1, i);
      DoRecursion(state, i, state, i, state, b, r10, r20);
      r1 := r20;
      r2 := state[i];
      assert state[..] == now[i := r2];
    }

    /** sfmt_genrand_uint32: the next word of the sequence. */
    method GenRandUint32() returns (r: bv32)
      requires Valid()
      modifies this, state
      ensures Valid() && origin == old(origin) && 1 <= idx && (passed == old(passed) || passed == old(passed) + n)
      ensures r == Word(origin, pos1, old(Position())) && Position() == old(Position()) + 1
    {
      hide Rec, Term;
      if idx >= 4 * n {
        GenRandAll();
        idx := 0;
      }
      assert state[..][idx / 4] == Term(origin, pos1, passed + idx / 4);
      WordOf(passed, idx);
      r := Part(state[idx / 4], idx % 4);
      idx := idx + 1;
    }

    /** sfmt_fill_array32: the next 4 * size words of the sequence, `size` at least N, all the words of the state having
        been used. The state is left holding the last N terms. */
    method FillArray32(out: array<W128>)
      requires Valid() && out != state && out.Length >= n && idx == 4 * n
      modifies out, state, this
      ensures Valid() && origin == old(origin) && idx == 4 * n && passed == old(passed) + out.Length
      ensures forall q :: 0 <= q < 4 * out.Length ==> Part(out[q / 4], q % 4) == Word(origin, pos1, old(Position()) + q)
    {
      hide Rec, Term, Part;
      GenRandArray(out);
      ghost var m := passed;
      passed := passed + out.Length;
      idx := 4 * n;
      forall q: nat | q < 4 * out.Length
        ensures Part(out[q / 4], q % 4) == Word(origin, pos1, 4 * m + 4 * n + q)
      {
        assert out[..][q / 4] == Term(origin, pos1, m + n + q / 4);
        WordOf(m + n, q);
      }
    }

    /** gen_rand_array: the next `out.Length` terms, at least N of them, and the last N become the state. */
    method GenRandArray(out: array<W128>)
      requires Valid() && out != state && out.Length >= n
      modifies out, state
      ensures Holds(out[..], origin, pos1, passed + n)
      ensures Holds(state[..], origin, pos1, passed + out.Length)
    {
      hide Rec, Term, Holds;
      ghost var s := state[..];
      forall k | 0 <= k < n ensures Term(s, pos1, k) == s[k] { TermFirst(s, pos1, k); }
      var r1, r2 := FillStart(out);
      var i;
      i, r1, r2 := FillMiddle(out, r1, r2, s);
      var j := CopyBack(out, i, s);
      FillEnd(out, r1, r2, i, j, s);
      Shifted(out[..], s, origin, pos1, passed, n);
      Shifted(state[..], s, origin, pos1, passed, out.Length);
    }

    /** The first two loops: terms that still depend on the state. */
    method FillStart(out: array<W128>) returns (r1: W128, r2: W128)
      requires Sized() && out != state && out.Length >= n
      modifies out
      ensures r1 == Term(state[..], pos1, 2 * n - 2) && r2 == Term(state[..], pos1, 2 * n - 1)
      ensures forall k :: 0 <= k < n ==> out[k] == Term(state[..], pos1, k + n)
    {
      hide Rec, Term;
      ghost var s := state[..];
      forall k | 0 <= k < n ensures Term(s, pos1, k) == s[k] { TermFirst(s, pos1, k); }
      r1, r2 := state[n - 2], state[n - 1];
      var i := 0;
      while i < n - pos1
        invariant 0 <= i <= n - pos1 && r1 == Term(s, pos1, i + n - 2) && r2 == Term(s, pos1, i + n - 1)
        invariant forall k :: 0 <= k < i ==> out[k] == Term(s, pos1, k + n)
      {
        TermNext(s, pos1, i);
        assert state[i] == s[i] && state[i + pos1] == s[i + pos1];
        DoRecursion(out, i, state, i, state, i + pos1, r1, r2);
        r1 := r2;
        r2 := out[i];
        i := i + 1;
      }
      while i < n
        invariant n - pos1 <= i <= n && r1 == Term(s, pos1, i + n - 2) && r2 == Term(s, pos1, i + n - 1)
        invariant forall k :: 0 <= k < i ==> out[k] == Term(s, pos1, k + n)
      {
        TermNext(s, pos1, i);
        assert state[i] == s[i] && out[i + pos1 - n] == Term(s, pos1, i + pos1 - n + n);
        DoRecursion(out, i, state, i, out, i + pos1 - n, r1, r2);
        r1 := r2;
        r2 := out[i];
        i := i + 1;
      }
    }

    /** The third loop: terms that depend on the array only, up to the last N. */
    method FillMiddle(out: array<W128>, r10: W128, r20: W128, ghost s: seq<W128>) returns (i: nat, r1: W128, r2: W128)
      requires Sized() && out.Length >= n && |s| == n
      requires r10 == Term(s, pos1, 2 * n - 2) && r20 == Term(s, pos1, 2 * n - 1)
      requires forall k :: 0 <= k < n ==> out[k] == Term(s, pos1, k + n)
      modifies out
      ensures i == if out.Length - n > n then out.Length - n else n
      ensures r1 == Term(s, pos1, i + n - 2) && r2 == Term(s, pos1, i + n - 1)
      ensures forall k :: 0 <= k < i ==> out[k] == Term(s, pos1, k + n)
    {
      hide Rec, Term;
      i, r1, r2 := n, r10, r20;
      while i < out.Length - n
        invariant n <= i && (i <= out.Length - n || i == n)
        invariant r1 == Term(s, pos1, i + n - 2) && r2 == Term(s, pos1, i + n - 1)
        invariant forall k :: 0 <= k < i ==> out[k] == Term(s, pos1, k + n)
      {
        i, r1, r2 := NextTerm(out, i, r1, r2, s);
      }
    }

    /** One term from the N before it in the array. */
    method NextTerm(out: array<W128>, i0: nat, r10: W128, r20: W128, ghost s: seq<W128>) returns (i: nat, r1: W128, r2: W128)
      requires Sized() && |s| == n <= i0 < out.Length
      requires r10 == Term(s, pos1, i0 + n - 2) && r20 == Term(s, pos1, i0 + n - 1)
      requires forall k :: 0 <= k < i0 ==> out[k] == Term(s, pos1, k + n)
      modifies out
      ensures i == i0 + 1 && r1 == Term(s, pos1, i + n - 2) && r2 == Term(s, pos1, i + n - 1)
      ensures forall k :: 0 <= k < i ==> out[k] == Term(s, pos1, k + n)
    {
      hide Rec, Term;
      i := i0;
      TermNext(s, pos1, i);
      assert out[i - n] == Term(s, pos1, i - n + n) && out[i + pos1 - n] == Term(s, pos1, i + pos1 - n + n);
      DoRecursion(out, i, out, i - n, out, i + pos1 - n, r10, r20);
      r1 := r20;
      r2 := out[i];
      i := i + 1;
    }

    /** The fourth loop: when fewer than 2N terms are asked for, the state begins with terms made already. */
    method CopyBack(out: array<W128>, ghost i: nat, ghost s: seq<W128>) returns (j: nat)
      requires Sized() && out != state && out.Length >= n && |s| == n && i <= out.Length
      requires i == if out.Length - n > n then out.Length - n else n
      requires forall k :: 0 <= k < i ==> out[k] == Term(s, pos1, k + n)
      modifies state
      ensures j == i + n - out.Length
      ensures forall k :: 0 <= k < j ==> state[k] == Term(s, pos1, k + out.Length)
    {
      hide Rec, Term;
      j := 0;
      while j < 2 * n - out.Length
        invariant 0 <= j && (j <= 2 * n - out.Length || j == 0)
        invariant forall k :: 0 <= k < j ==> state[k] == Term(s, pos1, k + out.Length)
      {
        assert out[j + out.Length - n] == Term(s, pos1, j + out.Length - n + n);
        state[j] := out[j + out.Length - n];
        j := j + 1;
      }
    }

    /** The fifth loop: the last terms go to both places. */
    method FillEnd(out: array<W128>, r10: W128, r20: W128, i0: nat, j0: nat, ghost s: seq<W128>)
      requires Sized() && out != state && |s| == n <= i0 <= out.Length && j0 == i0 + n - out.Length
      requires r10 == Term(s, pos1, i0 + n - 2) && r20 == Term(s, pos1, i0 + n - 1)
      requires forall k :: 0 <= k < i0 ==> out[k] == Term(s, pos1, k + n)
      requires forall k :: 0 <= k < j0 ==> state[k] == Term(s, pos1, k + out.Length)
      modifies out, state
      ensures forall k :: 0 <= k < out.Length ==> out[k] == Term(s, pos1, k + n)
      ensures forall k :: 0 <= k < n ==> state[k] == Term(s, pos1, k + out.Length)
    {
      hide Rec, Term;
      var i, j, r1, r2 := i0, j0, r10, r20;
      while i < out.Length
        invariant i0 <= i <= out.Length && j == i + n - out.Length
        invariant r1 == Term(s, pos1, i + n - 2) && r2 == Term(s, pos1, i + n - 1)
        invariant forall k :: 0 <= k < i ==> out[k] == Term(s, pos1, k + n)
        invariant forall k :: 0 <= k < j ==> state[k] == Term(s, pos1, k + out.Length)
      {
        i, r1, r2 := NextTerm(out, i, r1, r2, s);
        assert out[i - 1] == Term(s, pos1, i - 1 + n);
        state[j] := out[i - 1];
        j := j + 1;
      }
    }
  }

  /** Words counted from term `m` on. */
  lemma WordOf(m: nat, q: nat)
    ensures (4 * m + q) / 4 == m + q / 4 && (4 * m + q) % 4 == q % 4
  {
  }

  /** Terms of the sequence restarted from a window are terms of the sequence itself. */
  lemma {:induction false} Shifted(t: seq<W128>, window: seq<W128>, origin: seq<W128>, pos1: nat, m: nat, k: nat)
    requires |window| == |origin| >= 2 && 0 < pos1 < |origin| && Holds(window, origin, pos1, m)
    requires forall i :: 0 <= i < |t| ==> t[i] == Term(window, pos1, i + k)
    ensures Holds(t, origin, pos1, m + k)
  {
    hide Rec, Term;
    forall i | 0 <= i < |t| ensures t[i] == Term(origin, pos1, m + k + i) { Continues(window, origin, pos1, m, i + k); }
  }

  /** `count` calls of sfmt_genrand_uint32. */
  method TakeWords(g: Generator, count: nat) returns (words: seq<bv32>, ghost blocks: nat)
    requires g.Valid()
    modifies g, g.state
    ensures g.Valid() && g.origin == old(g.origin) && |words| == count && g.Position() == old(g.Position()) + count
    ensures forall q :: 0 <= q < count ==> words[q] == Word(g.origin, g.pos1, old(g.Position()) + q)
    ensures g.passed == old(g.passed) + blocks * g.n && (count > 0 ==> 1 <= g.idx)
  {
    hide Rec, Term, Holds, Word;
    words, blocks := [], 0;
    while |words| < count
      invariant |words| <= count && g.Valid() && g.origin == old(g.origin) && g.Position() == old(g.Position()) + |words|
      invariant forall q :: 0 <= q < |words| ==> words[q] == Word(g.origin, g.pos1, old(g.Position()) + q)
      invariant g.passed == old(g.passed) + blocks * g.n && (|words| > 0 ==> 1 <= g.idx)
    {
      ghost var m := g.passed;
      var r := g.GenRandUint32();
      if g.passed != m { blocks := blocks + 1; }
      words := words + [r];
    }
  }

  lemma SameMultiple(n: nat, a: nat, b: nat)
    requires n * a <= b * n < n * a + n
    ensures a == b
  {
    if a < b {
      Powers.ProductMono(a + 1, b, n);
    } else if b < a {
      Powers.ProductMono(b + 1, a, n);
    }
  }

  lemma WholeBlocks(n: nat, size: nat, blocks: nat)
    requires n > 0 && size % n == 0 && size <= blocks * n < size + n
    ensures size == blocks * n
  {
    SameMultiple(n, size / n, blocks);
  }

  /** Bulk filling and one word at a time give the same words; when N divides the number of terms they leave the same
      state, and otherwise states that are the same sequence at different offsets. */
  method BulkIsOneByOne(g: Generator, h: Generator, out: array<W128>) returns (words: seq<bv32>)
    requires g.Valid() && h.Valid() && g.n == h.n && g.pos1 == h.pos1 && g.idx == h.idx == 4 * g.n
    requires g.origin == h.origin && g.passed == h.passed && out.Length >= g.n
    requires g != h && g.state != h.state && out != g.state && out != h.state
    modifies g, g.state, h, h.state, out
    ensures |words| == 4 * out.Length && forall q :: 0 <= q < |words| ==> Part(out[q / 4], q % 4) == words[q]
    ensures g.Valid() && h.Valid() && g.Position() == h.Position() && g.origin == h.origin
    ensures g.passed <= h.passed < g.passed + g.n
    ensures out.Length % g.n == 0 ==> g.state[..] == h.state[..] && g.idx == h.idx
  {
    hide Rec, Term, Word;
    g.FillArray32(out);
    ghost var blocks;
    words, blocks := TakeWords(h, 4 * out.Length);
    if out.Length % g.n == 0 {
      WholeBlocks(g.n, out.Length, blocks);
      assert forall i :: 0 <= i < g.n ==> g.state[..][i] == h.state[..][i];
    }
  }
}
