/** The two-level move-to-front array of deps/bzip2/decompress.c. */
module TwoLevelMtf {

  const MTFA_SIZE := 4096
  const MTFL_SIZE := 16
  const WINDOWS := 16

  /** The list with entry `k` moved to the front. */
  function MoveFront<T>(s: seq<T>, k: nat): (r: seq<T>)
    requires k < |s|
    ensures |r| == |s|
  {
    [s[k]] + s[..k] + s[k + 1..]
  }

  /** Windows lie inside the array, in order, without overlap. */
  ghost predicate Apart(base: seq<int>) {
    && |base| == WINDOWS && base[0] >= 0 && base[WINDOWS - 1] + MTFL_SIZE <= MTFA_SIZE
    && forall w {:trigger base[w]} :: 0 < w < WINDOWS ==> base[w - 1] + MTFL_SIZE <= base[w]
  }

  /** The cell of entry `k` of window `w`. */
  ghost function Cell(base: seq<int>, w: int, k: int): int
    requires |base| == WINDOWS && 0 <= w < WINDOWS
  {
    base[w] + k
  }

  /** The 256 entries of the windows, in order. */
  ghost function Flat(a: seq<int>, base: seq<int>): (r: seq<int>)
    requires |a| == MTFA_SIZE && Apart(base)
    ensures |r| == 256
    ensures forall x :: 0 <= x < 256 ==> r[x] == a[Cell(base, x / MTFL_SIZE, x % MTFL_SIZE)]
  {
    WindowBounds(base);
    seq(256, x requires 0 <= x < 256 => a[Cell(base, x / MTFL_SIZE, x % MTFL_SIZE)])
  }

  lemma WindowBounds(base: seq<int>)
    requires Apart(base)
    ensures forall w :: 0 <= w < WINDOWS ==> MTFL_SIZE * w <= base[w] && base[w] + MTFL_SIZE * (WINDOWS - w) <= MTFA_SIZE
    ensures forall w, k :: 0 <= w < WINDOWS && 0 <= k < MTFL_SIZE ==> 0 <= Cell(base, w, k) < MTFA_SIZE
  {
    WindowLow(base, WINDOWS - 1);
    WindowHigh(base, 0);
  }

  lemma {:induction false} WindowLow(base: seq<int>, k: nat)
    requires Apart(base) && k < WINDOWS
    ensures forall w :: 0 <= w <= k ==> MTFL_SIZE * w <= base[w]
  {
    if k > 0 { WindowLow(base, k - 1); }
  }

  lemma {:induction false} WindowHigh(base: seq<int>, k: nat)
    requires Apart(base) && k < WINDOWS
    ensures forall w :: k <= w < WINDOWS ==> base[w] + MTFL_SIZE * (WINDOWS - w) <= MTFA_SIZE
    decreases WINDOWS - k
  {
    if k + 1 < WINDOWS { WindowHigh(base, k + 1); }
  }

  lemma {:induction false} WindowOrder(base: seq<int>, v: nat, w: nat)
    requires Apart(base) && v <= w < WINDOWS
    ensures base[v] + MTFL_SIZE * (w - v) <= base[w]
  {
    if v < w { WindowOrder(base, v, w - 1); }
  }

  // ----- the general case: one entry leaves window `lno`, and every earlier window hands on its last entry

  ghost predicate Sizes(a0: seq<int>, a: seq<int>, base: seq<int>, lno: int, off: int) {
    && |a0| == |a| == MTFA_SIZE && Apart(base) && |base| == WINDOWS && 0 <= base[0] < MTFA_SIZE
    && 0 < lno < WINDOWS && 0 <= off < MTFL_SIZE
    && (forall w, k :: 0 <= w < WINDOWS && 0 <= k < MTFL_SIZE ==> 0 <= Cell(base, w, k) < MTFA_SIZE)
  }

  /** Windows before `lno` hold what they held. */
  ghost predicate Earlier(a0: seq<int>, a: seq<int>, base: seq<int>, lno: int, off: int)
    requires Sizes(a0, a, base, lno, off)
  {
    forall w, k :: 0 <= w < lno && 0 <= k < MTFL_SIZE ==> a[Cell(base, w, k)] == a0[Cell(base, w, k)]
  }

  /** Window `lno` has closed the gap at `off`; its first cell and later windows are apart from this. */
  ghost predicate Later(a0: seq<int>, a: seq<int>, base: seq<int>, lno: int, off: int)
    requires Sizes(a0, a, base, lno, off)
  {
    && (forall k :: 0 < k < MTFL_SIZE ==>
          a[Cell(base, lno, k)] == if k <= off then a0[Cell(base, lno, k - 1)] else a0[Cell(base, lno, k)])
    && (forall w, k :: lno < w < WINDOWS && 0 <= k < MTFL_SIZE ==> a[Cell(base, w, k)] == a0[Cell(base, w, k)])
  }

  /** Windows `m+1..lno` have received the last entry of the window before them. */
  ghost predicate Handed(a0: seq<int>, a: seq<int>, base: seq<int>, lno: int, off: int, m: int)
    requires Sizes(a0, a, base, lno, off)
  {
    && 0 <= m <= lno
    && (m < lno ==> a[Cell(base, lno, 0)] == a0[Cell(base, lno - 1, MTFL_SIZE - 1)])
    && (forall w :: m < w < lno ==> 0 <= Cell(base, w, -1) < MTFA_SIZE
                                    && a[Cell(base, w, -1)] == a0[Cell(base, w - 1, MTFL_SIZE - 1)])
  }

  /** The cell written when window `m` receives its entry. */
  ghost function Target(base: seq<int>, lno: int, m: int): int
    requires |base| == WINDOWS && 0 <= m < WINDOWS
  {
    if m == lno then Cell(base, m, 0) else Cell(base, m, -1)
  }

  lemma HandStep(a0: seq<int>, a: seq<int>, base: seq<int>, lno: int, off: int, m: int)
    requires Sizes(a0, a, base, lno, off) && Earlier(a0, a, base, lno, off) && Later(a0, a, base, lno, off)
    requires Handed(a0, a, base, lno, off, m) && 0 < m
    ensures 0 <= Target(base, lno, m) < MTFA_SIZE
    ensures var a' := a[Target(base, lno, m) := a[Cell(base, m - 1, MTFL_SIZE - 1)]];
            Earlier(a0, a', base, lno, off) && Later(a0, a', base, lno, off) && Handed(a0, a', base, lno, off, m - 1)
  {
    hide Apart;
    var q := Target(base, lno, m);
    WindowOrder(base, m - 1, m);
    assert Cell(base, m, 0) == Cell(base, m, -1) + 1 && 0 <= Cell(base, m - 1, 0);
    var v := a[Cell(base, m - 1, MTFL_SIZE - 1)];
    assert v == a0[Cell(base, m - 1, MTFL_SIZE - 1)];
    var a' := a[q := v];
    forall w, k | 0 <= w < lno && 0 <= k < MTFL_SIZE ensures a'[Cell(base, w, k)] == a0[Cell(base, w, k)] {
      TargetEarlier(base, lno, m, w, k);
    }
    forall w, k | lno <= w < WINDOWS && 0 <= k < MTFL_SIZE && !(w == lno && k == 0) ensures Cell(base, w, k) != q {
      WindowOrder(base, m, w);
    }
    forall w | m < w < lno ensures Cell(base, w, -1) != q { WindowOrder(base, m, w); }
    WindowOrder(base, m, lno);
    LaterKept(a0, a, base, lno, off, q, v);
  }

  lemma LaterKept(a0: seq<int>, a: seq<int>, base: seq<int>, lno: int, off: int, q: int, v: int)
    requires Sizes(a0, a, base, lno, off) && Later(a0, a, base, lno, off) && 0 <= q < |a|
    requires forall w, k :: lno <= w < WINDOWS && 0 <= k < MTFL_SIZE && !(w == lno && k == 0) ==> Cell(base, w, k) != q
    ensures Later(a0, a[q := v], base, lno, off)
  {
    hide Apart;
    forall k | 0 < k < MTFL_SIZE
      ensures a[q := v][Cell(base, lno, k)] ==
              if k <= off then a0[Cell(base, lno, k - 1)] else a0[Cell(base, lno, k)]
    {
      var c := Cell(base, lno, k);
      assert c != q;
      assert a[c] == if k <= off then a0[Cell(base, lno, k - 1)] else a0[Cell(base, lno, k)];
    }
    assert Sizes(a0, a[q := v], base, lno, off);
    forall w, k | lno < w < WINDOWS && 0 <= k < MTFL_SIZE ensures a[q := v][Cell(base, w, k)] == a0[Cell(base, w, k)] {
      var c := Cell(base, w, k);
      assert c != q && a[c] == a0[c];
    }
  }

  /** The target cell is no cell of an earlier window, except possibly the very cell copied from. */
  lemma TargetEarlier(base: seq<int>, lno: int, m: int, w: int, k: int)
    requires Apart(base) && 0 < m <= lno < WINDOWS && 0 <= w < lno && 0 <= k < MTFL_SIZE
    ensures Cell(base, w, k) == Target(base, lno, m) ==> w == m - 1 && k == MTFL_SIZE - 1
  {
    if w < m - 1 { WindowOrder(base, w, m - 1); }
    WindowOrder(base, m - 1, m);
    if m <= w { WindowOrder(base, m, w); WindowOrder(base, w, lno); }
  }

  /** The windows before `lno` now start one cell earlier. */
  ghost function Lowered(base: seq<int>, lno: int): (r: seq<int>)
    requires |base| == WINDOWS
    ensures |r| == WINDOWS && forall w :: 0 <= w < WINDOWS ==> r[w] == if w < lno then base[w] - 1 else base[w]
  {
    seq(WINDOWS, w requires 0 <= w < WINDOWS => if w < lno then base[w] - 1 else base[w])
  }

  lemma LoweredApart(base: seq<int>, lno: int)
    requires Apart(base) && base[0] > 0 && 0 < lno < WINDOWS
    ensures Apart(Lowered(base, lno))
  {
    forall w {:trigger Lowered(base, lno)[w]} | 0 < w < WINDOWS
      ensures Lowered(base, lno)[w - 1] + MTFL_SIZE <= Lowered(base, lno)[w]
    {
      assert base[w - 1] + MTFL_SIZE <= base[w];
    }
  }

  /** Entry `k` of window `w`, read through the lowered windows. */
  lemma HandedCell(a0: seq<int>, a: seq<int>, base: seq<int>, lno: int, off: int, uc: int, w: int, k: int)
    requires Sizes(a0, a, base, lno, off) && Earlier(a0, a, base, lno, off) && Later(a0, a, base, lno, off)
    requires Handed(a0, a, base, lno, off, 0) && base[0] > 0
    requires 0 <= w < WINDOWS && 0 <= k < MTFL_SIZE
    ensures 0 <= Cell(Lowered(base, lno), w, k) < MTFA_SIZE
    ensures a[base[0] - 1 := uc][Cell(Lowered(base, lno), w, k)] ==
            if w == 0 && k == 0 then uc
            else if w < lno || (w == lno && k <= off)
              then (if k > 0 then a0[Cell(base, w, k - 1)] else a0[Cell(base, w - 1, MTFL_SIZE - 1)])
            else a0[Cell(base, w, k)]
  {
    WindowOrder(base, 0, w);
    if w < lno {
      assert Cell(Lowered(base, lno), w, k) == Cell(base, w, k - 1);
    } else {
      assert Cell(Lowered(base, lno), w, k) == Cell(base, w, k);
    }
  }

  lemma MoveFrontAt<T>(s: seq<T>, k: nat, x: int)
    requires k < |s| && 0 <= x < |s|
    ensures MoveFront(s, k)[x] == if x == 0 then s[k] else if x <= k then s[x - 1] else s[x]
  {
  }

  lemma FlatAt(a: seq<int>, base: seq<int>, x: int, w: int, k: int)
    requires |a| == MTFA_SIZE && Apart(base)
    requires 0 <= w < WINDOWS && 0 <= k < MTFL_SIZE && x == MTFL_SIZE * w + k
    ensures 0 <= x < 256 && 0 <= Cell(base, w, k) < MTFA_SIZE && Flat(a, base)[x] == a[Cell(base, w, k)]
  {
    assert x / MTFL_SIZE == w && x % MTFL_SIZE == k;
    WindowBounds(base);
  }

  lemma HandedAt(a0: seq<int>, a: seq<int>, base: seq<int>, lno: int, off: int, uc: int, x: int)
    requires Sizes(a0, a, base, lno, off) && Earlier(a0, a, base, lno, off) && Later(a0, a, base, lno, off)
    requires Handed(a0, a, base, lno, off, 0) && base[0] > 0 && uc == a0[Cell(base, lno, off)]
    requires Apart(Lowered(base, lno)) && 0 <= x < 256
    ensures Flat(a[base[0] - 1 := uc], Lowered(base, lno))[x] == MoveFront(Flat(a0, base), MTFL_SIZE * lno + off)[x]
  {
    hide Apart, Earlier, Later, Handed, Flat, MoveFront, Lowered, Cell;
    var nn := MTFL_SIZE * lno + off;
    var w, k := x / MTFL_SIZE, x % MTFL_SIZE;
    HandedCell(a0, a, base, lno, off, uc, w, k);
    MoveFrontAt(Flat(a0, base), nn, x);
    FlatAt(a[base[0] - 1 := uc], Lowered(base, lno), x, w, k);
    FlatAt(a0, base, x, w, k);
    FlatAt(a0, base, nn, lno, off);
    if k > 0 { FlatAt(a0, base, x - 1, w, k - 1); } else if w > 0 { FlatAt(a0, base, x - 1, w - 1, MTFL_SIZE - 1); }
  }

  lemma HandedDone(a0: seq<int>, a: seq<int>, base: seq<int>, lno: int, off: int, uc: int)
    requires Sizes(a0, a, base, lno, off) && Earlier(a0, a, base, lno, off) && Later(a0, a, base, lno, off)
    requires Handed(a0, a, base, lno, off, 0) && base[0] > 0 && uc == a0[Cell(base, lno, off)]
    ensures Apart(Lowered(base, lno))
    ensures Flat(a[base[0] - 1 := uc], Lowered(base, lno)) == MoveFront(Flat(a0, base), MTFL_SIZE * lno + off)
  {
    hide Earlier, Later, Handed, Cell;
    LoweredApart(base, lno);
    var r := Flat(a[base[0] - 1 := uc], Lowered(base, lno));
    var t := MoveFront(Flat(a0, base), MTFL_SIZE * lno + off);
    forall x | 0 <= x < 256 ensures r[x] == t[x] {
      HandedAt(a0, a, base, lno, off, uc, x);
    }
  }

  /** The entries at `lo..hi-1` moved up one place. */
  ghost function MovedUp(a: seq<int>, lo: int, hi: int): (r: seq<int>)
    requires 0 <= lo <= hi < |a|
    ensures |r| == |a|
    ensures forall p {:trigger r[p]} :: 0 <= p < |a| ==> r[p] == if lo < p <= hi then a[p - 1] else a[p]
  {
    seq(|a|, p requires 0 <= p < |a| => if lo < p <= hi then a[p - 1] else a[p])
  }

  lemma MovedUpNone(a: seq<int>, hi: int)
    requires 0 <= hi < |a|
    ensures MovedUp(a, hi, hi) == a
  {
  }

  /** One more element moves up at the far end. */
  lemma MovedUpGrow(a: seq<int>, hi: int)
    requires 0 <= hi && hi + 1 < |a|
    ensures MovedUp(a, 0, hi + 1) == MovedUp(a, 0, hi)[hi + 1 := a[hi]]
    ensures forall p :: hi < p < |a| ==> MovedUp(a, 0, hi)[p] == a[p]
  {
  }

  /** Moving everything before `v` up makes room for entry `v` at the front. */
  lemma MovedUpFront(s: seq<int>, v: nat, n: nat)
    requires v < n <= |s|
    ensures MovedUp(s, 0, v)[0 := s[v]][..n] == MoveFront(s[..n], v)
  {
  }

  lemma MovedUpStep(a: seq<int>, lo: int, hi: int)
    requires 0 < lo <= hi < |a|
    ensures MovedUp(a, lo, hi)[lo - 1] == a[lo - 1]
    ensures MovedUp(a, lo, hi)[lo := a[lo - 1]] == MovedUp(a, lo - 1, hi)
  {
  }

  lemma GapClosed(a0: seq<int>, a: seq<int>, base: seq<int>, lno: nat, off: nat)
    requires |a0| == |a| == MTFA_SIZE && Apart(base) && 0 < lno < WINDOWS && off < MTFL_SIZE
    requires 0 <= base[lno] && base[lno] + off < MTFA_SIZE && a == MovedUp(a0, base[lno], base[lno] + off)
    ensures Sizes(a0, a, base, lno, off)
    ensures Earlier(a0, a, base, lno, off) && Later(a0, a, base, lno, off) && Handed(a0, a, base, lno, off, lno)
  {
    WindowBounds(base);
    forall w, k | 0 <= w < WINDOWS && w != lno && 0 <= k < MTFL_SIZE
      ensures Cell(base, w, k) < base[lno] || base[lno] + off < Cell(base, w, k)
    {
      if w < lno { WindowOrder(base, w, lno); } else { WindowOrder(base, lno, w); }
    }
  }

  lemma NearDone(a0: seq<int>, a: seq<int>, base: seq<int>, n: nat)
    requires |a0| == |a| == MTFA_SIZE && Apart(base) && n < MTFL_SIZE
    requires base[0] + n < MTFA_SIZE && a == MovedUp(a0, base[0], base[0] + n)[base[0] := a0[base[0] + n]]
    ensures Flat(a, base) == MoveFront(Flat(a0, base), n)
  {
    hide Flat, MoveFront;
    WindowBounds(base);
    forall x | 0 <= x < 256 ensures Flat(a, base)[x] == MoveFront(Flat(a0, base), n)[x] {
      var w, k := x / MTFL_SIZE, x % MTFL_SIZE;
      MoveFrontAt(Flat(a0, base), n, x);
      FlatAt(a, base, x, w, k);
      FlatAt(a0, base, x, w, k);
      FlatAt(a0, base, n, 0, n);
      if 0 < x <= n { FlatAt(a0, base, x - 1, 0, x - 1); }
      WindowOrder(base, 0, w);
    }
  }

  lemma RebuildDone(a: seq<int>, base: seq<int>, s: seq<int>)
    requires |a| == MTFA_SIZE && |base| == WINDOWS && |s| == 256
    requires forall w :: 0 <= w < WINDOWS ==> base[w] == MTFA_SIZE - 256 + MTFL_SIZE * w
    requires forall p :: MTFA_SIZE - 256 <= p < MTFA_SIZE ==> a[p] == s[p - (MTFA_SIZE - 256)]
    ensures Apart(base) && Flat(a, base) == s
  {
    forall w {:trigger base[w]} | 0 < w < WINDOWS ensures base[w - 1] + MTFL_SIZE <= base[w] {}
    assert Apart(base);
    forall x | 0 <= x < 256 ensures Flat(a, base)[x] == s[x] {
      FlatAt(a, base, x, x / MTFL_SIZE, x % MTFL_SIZE);
    }
  }

  class TwoLevel {
    const mtfa: array<int>
    const mtfbase: array<int>

    ghost predicate Valid()
      reads this, mtfa, mtfbase
    {
      mtfa != mtfbase && mtfa.Length == MTFA_SIZE && mtfbase.Length == WINDOWS && Apart(mtfbase[..]) && mtfbase[0] > 0
    }

    ghost function List(): (r: seq<int>)
      requires Valid()
      reads this, mtfa, mtfbase
    {
      Flat(mtfa[..], mtfbase[..])
    }

    constructor ()
      ensures Valid() && fresh(mtfa) && fresh(mtfbase)
      ensures List() == seq(256, i => i)
    {
      mtfa := new int[MTFA_SIZE];
      mtfbase := new int[WINDOWS];
      new;
      var kk := MTFA_SIZE - 1;
      var ii := WINDOWS - 1;
      while ii >= 0
        invariant -1 <= ii < WINDOWS && kk == MTFA_SIZE - 256 + MTFL_SIZE * (ii + 1) - 1
        invariant forall w :: ii < w < WINDOWS ==> mtfbase[w] == MTFA_SIZE - 256 + MTFL_SIZE * w
        invariant forall p :: kk < p < MTFA_SIZE ==> mtfa[p] == p - (MTFA_SIZE - 256)
      {
        var jj := MTFL_SIZE - 1;
        while jj >= 0
          invariant -1 <= jj < MTFL_SIZE && kk == MTFA_SIZE - 256 + MTFL_SIZE * ii + jj
          invariant forall w :: ii < w < WINDOWS ==> mtfbase[w] == MTFA_SIZE - 256 + MTFL_SIZE * w
          invariant forall p :: kk < p < MTFA_SIZE ==> mtfa[p] == p - (MTFA_SIZE - 256)
        {
          mtfa[kk] := ii * MTFL_SIZE + jj;
          kk := kk - 1;
          jj := jj - 1;
        }
        mtfbase[ii] := kk + 1;
        ii := ii - 1;
      }
    }

    /** The byte the next zero-run repeats: the front of the list. */
    method Front() returns (uc: int)
      requires Valid()
      ensures uc == List()[0]
    {
      uc := mtfa[mtfbase[0]];
    }

    /** `uc = MTF(nn)`: delivers entry `nn` of the list and moves it to the front. */
    method MoveNth(nn: nat) returns (uc: int)
      requires Valid() && nn < 256
      modifies mtfa, mtfbase
      ensures Valid()
      ensures uc == old(List())[nn]
      ensures List() == MoveFront(old(List()), nn)
    {
      if nn < MTFL_SIZE {
        uc := MoveNear(nn);
      } else {
        uc := MoveFar(nn);
        if mtfbase[0] == 0 {
          Rebuild();
        }
      }
    }

    /** The entry is in the first window, which is shifted in place, four cells at a time first. */
    method MoveNear(n: nat) returns (uc: int)
      requires Valid() && n < MTFL_SIZE
      modifies mtfa
      ensures Valid()
      ensures uc == old(List())[n]
      ensures List() == MoveFront(old(List()), n)
    {
      hide Flat, MoveFront, MovedUp;
      ghost var a0, base := mtfa[..], mtfbase[..];
      WindowBounds(base);
      var pp := mtfbase[0];
      uc := mtfa[pp + n];
      ShiftNear(pp, n);
      ghost var a1 := mtfa[..];
      mtfa[pp] := uc;
      assert mtfa[..] == a1[pp := uc];
      FlatAt(a0, base, n, 0, n);
      NearDone(a0, mtfa[..], base, n);
    }

    method ShiftNear(pp: nat, n: nat)
      requires mtfa.Length == MTFA_SIZE && n < MTFL_SIZE && pp + n < MTFA_SIZE
      modifies mtfa
      ensures mtfa[..] == MovedUp(old(mtfa[..]), pp, pp + n)
    {
      hide MovedUp;
      ghost var a0 := mtfa[..];
      var nn := n;
      MovedUpNone(a0, pp + n);
      while nn > 3
        invariant 0 <= nn <= n
        invariant mtfa[..] == MovedUp(a0, pp + nn, pp + n)
      {
        var z := pp + nn;
        ShiftOne(z, pp + n, a0);
        ShiftOne(z - 1, pp + n, a0);
        ShiftOne(z - 2, pp + n, a0);
        ShiftOne(z - 3, pp + n, a0);
        nn := nn - 4;
      }
      while nn > 0
        invariant 0 <= nn <= n
        invariant mtfa[..] == MovedUp(a0, pp + nn, pp + n)
      {
        ShiftOne(pp + nn, pp + n, a0);
        nn := nn - 1;
      }
    }

    /** `mtfa[z] = mtfa[z-1]` */
    method ShiftOne(z: nat, ghost top: nat, ghost a0: seq<int>)
      requires 0 < z <= top < |a0| == mtfa.Length && mtfa[..] == MovedUp(a0, z, top)
      modifies mtfa
      ensures mtfa[..] == MovedUp(a0, z - 1, top)
    {
      hide MovedUp;
      ghost var a := mtfa[..];
      MovedUpStep(a0, z, top);
      mtfa[z] := mtfa[z - 1];
      assert mtfa[..] == a[z := a[z - 1]];
    }

    /** The general case, before a possible rebuild. */
    method MoveFar(nn: nat) returns (uc: int)
      requires Valid() && MTFL_SIZE <= nn < 256
      modifies mtfa, mtfbase
      ensures mtfa != mtfbase && mtfa.Length == MTFA_SIZE && mtfbase.Length == WINDOWS && Apart(mtfbase[..])
      ensures uc == old(List())[nn]
      ensures Flat(mtfa[..], mtfbase[..]) == MoveFront(old(List()), nn)
    {
      hide Apart, Earlier, Later, Handed;
      ghost var a0, base := mtfa[..], mtfbase[..];
      WindowBounds(base);
      var lno, off := nn / MTFL_SIZE, nn % MTFL_SIZE;
      ghost var L := lno;
      FlatAt(a0, base, nn, lno, off);
      uc := CloseGap(lno, off);
      mtfbase[lno] := mtfbase[lno] + 1;
      while lno > 0
        invariant 0 <= lno <= L
        invariant Sizes(a0, mtfa[..], base, L, off)
        invariant Earlier(a0, mtfa[..], base, L, off) && Later(a0, mtfa[..], base, L, off)
        invariant Handed(a0, mtfa[..], base, L, off, lno)
        invariant forall w :: 0 <= w < WINDOWS ==>
          mtfbase[w] == if lno < w < L then base[w] - 1 else if w == L && lno == L then base[w] + 1 else base[w]
      {
        ghost var a := mtfa[..];
        HandStep(a0, a, base, L, off, lno);
        mtfbase[lno] := mtfbase[lno] - 1;
        assert mtfbase[lno] == Target(base, L, lno);
        assert mtfbase[lno - 1] + MTFL_SIZE - 1 == Cell(base, lno - 1, MTFL_SIZE - 1);
        mtfa[mtfbase[lno]] := mtfa[mtfbase[lno - 1] + MTFL_SIZE - 1];
        assert mtfa[..] == a[Target(base, L, lno) := a[Cell(base, lno - 1, MTFL_SIZE - 1)]];
        lno := lno - 1;
      }
      HandedDone(a0, mtfa[..], base, L, off, uc);
      ghost var a := mtfa[..];
      mtfbase[0] := mtfbase[0] - 1;
      mtfa[mtfbase[0]] := uc;
      assert mtfa[..] == a[base[0] - 1 := uc];
      assert mtfbase[..] == Lowered(base, L);
    }

    /** Entries before the one taken out of its window move up one cell. */
    method CloseGap(lno: nat, off: nat) returns (uc: int)
      requires Valid() && 0 < lno < WINDOWS && off < MTFL_SIZE
      modifies mtfa
      ensures Sizes(old(mtfa[..]), mtfa[..], mtfbase[..], lno, off)
      ensures uc == old(mtfa[..])[Cell(mtfbase[..], lno, off)]
      ensures Earlier(old(mtfa[..]), mtfa[..], mtfbase[..], lno, off)
      ensures Later(old(mtfa[..]), mtfa[..], mtfbase[..], lno, off)
      ensures Handed(old(mtfa[..]), mtfa[..], mtfbase[..], lno, off, lno)
    {
      ghost var a0, base := mtfa[..], mtfbase[..];
      WindowBounds(base);
      var pp := mtfbase[lno] + off;
      ghost var top := pp;
      uc := mtfa[pp];
      MovedUpNone(a0, top);
      while pp > mtfbase[lno]
        invariant mtfbase[lno] <= pp <= top
        invariant mtfa[..] == MovedUp(a0, pp, top)
      {
        ShiftOne(pp, top, a0);
        pp := pp - 1;
      }
      GapClosed(a0, mtfa[..], base, lno, off);
    }

    /** All windows move to the end of the array again, closest to it first. */
    method Rebuild()
      requires mtfa != mtfbase && mtfa.Length == MTFA_SIZE && mtfbase.Length == WINDOWS && Apart(mtfbase[..])
      modifies mtfa, mtfbase
      ensures Valid() && List() == old(Flat(mtfa[..], mtfbase[..]))
    {
      hide Apart, Flat;
      ghost var a0, base := mtfa[..], mtfbase[..];
      ghost var s := Flat(a0, base);
      WindowBounds(base);
      var kk := MTFA_SIZE - 1;
      var ii := WINDOWS - 1;
      while ii >= 0
        invariant -1 <= ii < WINDOWS && kk == MTFA_SIZE - 256 + MTFL_SIZE * (ii + 1) - 1
        invariant forall w :: 0 <= w <= ii ==> mtfbase[w] == base[w]
        invariant forall w :: ii < w < WINDOWS ==> mtfbase[w] == MTFA_SIZE - 256 + MTFL_SIZE * w
        invariant Packed(mtfa[..], a0, s, kk)
      {
        kk := PackWindow(ii, kk, a0, base, s);
        mtfbase[ii] := kk + 1;
        ii := ii - 1;
      }
      RebuildDone(mtfa[..], mtfbase[..], s);
    }

    /** The entries above `kk` are in their new places, and nothing else has changed. */
    ghost predicate Packed(a: seq<int>, a0: seq<int>, s: seq<int>, kk: int) {
      && |a| == |a0| == MTFA_SIZE && |s| == 256 && MTFA_SIZE - 257 <= kk < MTFA_SIZE
      && (forall p :: 0 <= p <= kk ==> a[p] == a0[p])
      && (forall p :: kk < p < MTFA_SIZE ==> a[p] == s[p - (MTFA_SIZE - 256)])
    }

    /** One window of entries. */
    method PackWindow(ii: nat, k0: int, ghost a0: seq<int>, ghost base: seq<int>, ghost s: seq<int>) returns (kk: int)
      requires mtfa != mtfbase && mtfa.Length == MTFA_SIZE && mtfbase.Length == WINDOWS && ii < WINDOWS
      requires Apart(base) && |base| == WINDOWS && |a0| == MTFA_SIZE && s == Flat(a0, base) && mtfbase[ii] == base[ii]
      requires k0 == MTFA_SIZE - 256 + MTFL_SIZE * (ii + 1) - 1 && Packed(mtfa[..], a0, s, k0)
      modifies mtfa
      ensures kk == k0 - MTFL_SIZE && Packed(mtfa[..], a0, s, kk)
    {
      hide Apart, Flat;
      WindowBounds(base);
      kk := k0;
      var jj := MTFL_SIZE - 1;
      while jj >= 0
        invariant -1 <= jj < MTFL_SIZE && kk == MTFA_SIZE - 256 + MTFL_SIZE * ii + jj
        invariant Packed(mtfa[..], a0, s, kk)
      {
        FlatAt(a0, base, MTFL_SIZE * ii + jj, ii, jj);
        ghost var a := mtfa[..];
        assert 0 <= base[ii] + jj <= kk;
        assert a[base[ii] + jj] == a0[base[ii] + jj];
        mtfa[kk] := mtfa[mtfbase[ii] + jj];
        assert mtfa[..] == a[kk := a0[base[ii] + jj]];
        kk := kk - 1;
        jj := jj - 1;
      }
    }
  }
}
