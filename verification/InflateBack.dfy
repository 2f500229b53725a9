/** inflateBack of infback.c, on both paths. */
module InflateBack {
  import opened Counting
  import opened InflateCopy
  import opened Lz77
  import opened Options

  /** inflate_fast is entered only with this much room left in the window. */
  const FAST_ROOM := 258

  /** Tokens as section 3.2.5 of RFC 1951 allows them. */
  ghost predicate WellFormed(t: Token) {
    match t
    case Literal(_) => true
    case Match(dist, len) => dist >= 1 && 3 <= len <= 258
  }

  ghost predicate Within(t: Token, wsize: int) {
    match t
    case Literal(_) => true
    case Match(dist, _) => dist <= wsize
  }

  /** Tokens that make sense: every distance stays within the output so far, and within the window. */
  ghost predicate Sensible(tokens: seq<Token>, wsize: int) {
    Expand(tokens).Some? && forall k :: 0 <= k < |tokens| ==> Within(tokens[k], wsize)
  }

  // ----- which path a token takes, and where that leaves the window

  /** How a token is decoded: one at a time, as the first of a call of inflate_fast, or as a later one of the same
      call. Which of them it is depends on how much input is at hand, except that inflate_fast needs room. */
  datatype Step = Slow | Enter | Stay

  /** The counters of the window; `fast` says that the token before was decoded by inflate_fast. */
  datatype Place = Place(left: nat, whave: nat, fast: bool)

  /** Whether inflate_fast decodes the next token. */
  predicate Fast(p: Place, s: Step) { s != Slow && p.left >= FAST_ROOM }

  /** What inflateBack and inflate_fast make of the counters before the token is decoded. */
  function Entered(p: Place, s: Step, wsize: nat): (q: Place)
    ensures q.left == p.left
  {
    if !Fast(p, s) then Place(p.left, p.whave, false)
    else if (s == Enter || !p.fast) && p.whave < wsize && p.left <= wsize then Place(p.left, wsize - p.left, true)
    else Place(p.left, p.whave, true)
  }

  /** Writing `n` bytes, a full window being sent before each. */
  function Written(p: Place, n: nat, wsize: nat): Place
    requires wsize > 0
    decreases n
  {
    if n == 0 then p
    else if p.left == 0 then Written(Place(wsize - 1, wsize, p.fast), n - 1, wsize)
    else Written(Place(p.left - 1, p.whave, p.fast), n - 1, wsize)
  }

  /** How many bytes a token stands for. */
  function Size(t: Token): nat {
    match t
    case Literal(_) => 1
    case Match(_, len) => if len < 0 then 0 else len
  }

  /** How far before the window's beginning inflate_fast lets a match reach. Nothing sets `sane` for inflateBack; if
      it happens to be false, reaching further is not an error either, as long as it stays inside the memory. */
  function Reach(whave: nat, sane: bool, wsize: nat): nat { if sane then whave else wsize }

  /** The test a match has to pass: in inflate_fast against what the window held on entry, otherwise against what it
      holds now. */
  predicate Passes(t: Token, q: Place, sane: bool, wsize: nat) {
    match t
    case Literal(_) => true
    case Match(dist, _) =>
      if q.fast then dist <= wsize - q.left + Reach(q.whave, sane, wsize)
      else dist <= wsize - (if q.whave < wsize then q.left else 0)
  }

  /** The counters before token `k`. */
  ghost function PlaceAt(tokens: seq<Token>, steps: seq<Step>, wsize: nat, k: nat): Place
    requires k <= |tokens| && k <= |steps| && wsize > 0
    decreases k, 0
  {
    if k == 0 then Place(wsize, 0, false)
    else Written(EnteredAt(tokens, steps, wsize, k - 1), Size(tokens[k - 1]), wsize)
  }

  /** The counters token `k` is tested against. */
  ghost function EnteredAt(tokens: seq<Token>, steps: seq<Step>, wsize: nat, k: nat): Place
    requires k < |tokens| && k < |steps| && wsize > 0
    decreases k, 1
  {
    Entered(PlaceAt(tokens, steps, wsize, k), steps[k], wsize)
  }

  /** inflateBack reports no error. */
  ghost predicate Accepted(tokens: seq<Token>, steps: seq<Step>, sane: bool, wsize: nat)
    requires |tokens| <= |steps| && wsize > 0
  {
    forall k :: 0 <= k < |tokens| ==> Passes(tokens[k], EnteredAt(tokens, steps, wsize, k), sane, wsize)
  }

  /** A match inflate_fast lets pass although the window does not hold its source: it reaches before the window's
      beginning, and either nothing has been sent yet or it reaches back further than the window. */
  predicate Slips(t: Token, q: Place, sane: bool, wsize: nat) {
    match t
    case Literal(_) => false
    case Match(dist, _) =>
      && q.fast && wsize - q.left < dist <= wsize - q.left + Reach(q.whave, sane, wsize)
      && (q.whave < wsize || dist > wsize)
  }

  /** The counters after `size` bytes. */
  ghost predicate Fits(p: Place, size: nat, wsize: nat) {
    && p.left <= wsize && p.whave <= wsize
    && (p.whave < wsize ==> size == wsize - p.left) && (p.whave == wsize ==> size >= wsize)
  }

  lemma {:induction false} WrittenFits(p: Place, n: nat, size: nat, wsize: nat)
    requires wsize > 0 && Fits(p, size, wsize)
    ensures Fits(Written(p, n, wsize), size + n, wsize) && Written(p, n, wsize).fast == p.fast
    decreases n
  {
    if n > 0 {
      WrittenFits(if p.left == 0 then Place(wsize - 1, wsize, p.fast) else Place(p.left - 1, p.whave, p.fast),
                  n - 1, size + 1, wsize);
    }
  }

  /** How many bytes the first `k` tokens stand for. */
  ghost function Total(tokens: seq<Token>, k: nat): nat
    requires k <= |tokens|
  {
    if k == 0 then 0 else Total(tokens, k - 1) + Size(tokens[k - 1])
  }

  lemma {:induction false} PlaceFits(tokens: seq<Token>, steps: seq<Step>, wsize: nat, k: nat)
    requires k <= |tokens| && k <= |steps| && wsize > 0
    ensures Fits(PlaceAt(tokens, steps, wsize, k), Total(tokens, k), wsize)
  {
    hide Written, Fits;
    if k == 0 {
      FreshFits(wsize);
    } else {
      PlaceFits(tokens, steps, wsize, k - 1);
      EnteredFits(PlaceAt(tokens, steps, wsize, k - 1), steps[k - 1], Total(tokens, k - 1), wsize);
      WrittenFits(EnteredAt(tokens, steps, wsize, k - 1), Size(tokens[k - 1]), Total(tokens, k - 1), wsize);
    }
  }

  lemma FreshFits(wsize: nat)
    requires wsize > 0
    ensures Fits(Place(wsize, 0, false), 0, wsize)
  {
  }

  lemma EnteredFits(p: Place, s: Step, size: nat, wsize: nat)
    requires Fits(p, size, wsize)
    ensures Fits(Entered(p, s, wsize), size, wsize)
    ensures Entered(p, s, wsize).fast ==> p.left >= FAST_ROOM
  {
  }

  /** A distance makes sense here. */
  ghost predicate Held(t: Token, size: nat, wsize: nat) {
    match t
    case Literal(_) => true
    case Match(dist, _) => dist <= size && dist <= wsize
  }

  /** Whatever path it takes, a match whose source the window holds passes; and one that passes has its source there
      exactly if it does not slip through. */
  lemma PassesExactly(t: Token, q: Place, sane: bool, size: nat, wsize: nat)
    requires WellFormed(t) && Fits(q, size, wsize)
    ensures Held(t, size, wsize) ==> Passes(t, q, sane, wsize)
    ensures Passes(t, q, sane, wsize) ==> (Held(t, size, wsize) <==> !Slips(t, q, sane, wsize))
  {
  }

  /** Tokens make sense when every one of them does where it stands. */
  lemma {:induction false} SensibleHeld(tokens: seq<Token>, wsize: nat)
    requires forall i :: 0 <= i < |tokens| ==> WellFormed(tokens[i])
    ensures Sensible(tokens, wsize) <==> forall k :: 0 <= k < |tokens| ==> Held(tokens[k], Total(tokens, k), wsize)
    ensures Expand(tokens).Some? ==> |Expand(tokens).value| == Total(tokens, |tokens|)
    decreases |tokens|
  {
    if tokens != [] {
      var q, t := tokens[..|tokens| - 1], tokens[|tokens| - 1];
      assert tokens == q + [t];
      SensibleHeld(q, wsize);
      ExpandPush(q, t);
      forall k | 0 <= k <= |q| ensures Total(q, k) == Total(tokens, k) { TotalPrefix(q, t, k); }
      assert (forall k :: 0 <= k < |tokens| ==> Held(tokens[k], Total(tokens, k), wsize))
        <==> (forall k :: 0 <= k < |q| ==> Held(q[k], Total(q, k), wsize)) && Held(t, Total(tokens, |q|), wsize) by {
        assert tokens[|q|] == t;
        assert forall k :: 0 <= k < |q| ==> tokens[k] == q[k] && Total(tokens, k) == Total(q, k);
      }
      assert Sensible(tokens, wsize) <==> Sensible(q, wsize) && Held(t, Total(tokens, |q|), wsize) by {
        assert forall k :: 0 <= k < |q| ==> tokens[k] == q[k];
        assert tokens[|q|] == t;
      }
    }
  }

  lemma {:induction false} TotalPrefix(q: seq<Token>, t: Token, k: nat)
    requires k <= |q|
    ensures Total(q, k) == Total(q + [t], k)
    decreases k
  {
    if k > 0 { TotalPrefix(q, t, k - 1); }
  }

  /** What inflateBack accepts, exactly: every token that makes sense passes on every path; and an accepted run makes
      sense if and only if no match slipped through inflate_fast. */
  lemma AcceptedExactly(tokens: seq<Token>, steps: seq<Step>, sane: bool, wsize: nat)
    requires |tokens| <= |steps| && wsize > 0 && forall i :: 0 <= i < |tokens| ==> WellFormed(tokens[i])
    ensures Sensible(tokens, wsize) ==> Accepted(tokens, steps, sane, wsize)
    ensures Accepted(tokens, steps, sane, wsize) ==>
      (Sensible(tokens, wsize) <==>
       forall k :: 0 <= k < |tokens| ==> !Slips(tokens[k], EnteredAt(tokens, steps, wsize, k), sane, wsize))
  {
    hide EnteredAt, PlaceAt, Slips, Passes, Held, Total, Fits, Sensible;
    SensibleHeld(tokens, wsize);
    forall k | 0 <= k < |tokens|
      ensures Held(tokens[k], Total(tokens, k), wsize) ==> Passes(tokens[k], EnteredAt(tokens, steps, wsize, k), sane, wsize)
      ensures Passes(tokens[k], EnteredAt(tokens, steps, wsize, k), sane, wsize) ==>
        (Held(tokens[k], Total(tokens, k), wsize) <==> !Slips(tokens[k], EnteredAt(tokens, steps, wsize, k), sane, wsize))
    {
      EnteredAtFits(tokens, steps, wsize, k);
      PassesExactly(tokens[k], EnteredAt(tokens, steps, wsize, k), sane, Total(tokens, k), wsize);
    }
  }

  lemma EnteredAtFits(tokens: seq<Token>, steps: seq<Step>, wsize: nat, k: nat)
    requires k < |tokens| && k < |steps| && wsize > 0
    ensures Fits(EnteredAt(tokens, steps, wsize, k), Total(tokens, k), wsize)
  {
    hide Fits, PlaceAt, Total;
    PlaceFits(tokens, steps, wsize, k);
    EnteredFits(PlaceAt(tokens, steps, wsize, k), steps[k], Total(tokens, k), wsize);
  }

  /** Three literals, the end of a block, and a match that reaches five bytes back: read by inflate_fast on entry of
      the next block it is accepted, though only three bytes have been written. Read one at a time it is not. */
  lemma AcceptedWithoutSense(a: byte)
    ensures var tokens, wsize := [Literal(a), Literal(a), Literal(a), Match(5, 3)], 0x8000;
            && Expand(tokens) == None
            && Accepted(tokens, [Slow, Slow, Slow, Enter], true, wsize)
            && !Accepted(tokens, [Slow, Slow, Slow, Slow], true, wsize)
  {
    var tokens, wsize := [Literal(a), Literal(a), Literal(a), Match(5, 3)], 0x8000;
    ThreeLiterals(tokens, [Slow, Slow, Slow, Enter], a);
    ThreeLiterals(tokens, [Slow, Slow, Slow, Slow], a);
    SensibleHeld(tokens, wsize);
    assert Total(tokens, 3) == 3 by {
      assert Total(tokens, 1) == 1 && Total(tokens, 2) == 2;
    }
    assert !Held(tokens[3], Total(tokens, 3), wsize);
  }

  lemma ThreeLiterals(tokens: seq<Token>, steps: seq<Step>, a: byte)
    requires |tokens| == |steps| == 4 && tokens[..3] == [Literal(a), Literal(a), Literal(a)] && steps[..3] == [Slow, Slow, Slow]
    ensures PlaceAt(tokens, steps, 0x8000, 3) == Place(0x7ffd, 0, false)
    ensures forall k :: 0 <= k < 3 ==> tokens[k] == Literal(a)
  {
    assert forall k :: 0 <= k < 3 ==> tokens[k] == tokens[..3][k] && steps[k] == steps[..3][k];
    assert tokens[0] == Literal(a) && tokens[1] == Literal(a) && tokens[2] == Literal(a);
    assert PlaceAt(tokens, steps, 0x8000, 0) == Place(0x8000, 0, false);
    assert Written(Place(0x8000, 0, false), 1, 0x8000) == Place(0x7fff, 0, false);
    assert PlaceAt(tokens, steps, 0x8000, 1) == Place(0x7fff, 0, false);
    assert Written(Place(0x7fff, 0, false), 1, 0x8000) == Place(0x7ffe, 0, false);
    assert PlaceAt(tokens, steps, 0x8000, 2) == Place(0x7ffe, 0, false);
    assert Written(Place(0x7ffe, 0, false), 1, 0x8000) == Place(0x7ffd, 0, false);
  }

  // ----- the window itself

  datatype Outcome = Copied | TooFar | OutsideMemory

  /** The output window of inflateBack. `sent` is what out() has been given. */
  class BackWindow {
    const wsize: nat
    const window: array<byte>
    /** state->sane, which nothing sets for inflateBack. */
    const sane: bool
    var left: nat
    var whave: nat
    var sent: seq<byte>
    /** Whether the token before was decoded by inflate_fast. */
    var fast: bool

    ghost predicate Valid()
      reads this, window
    {
      && 0 < wsize == window.Length && left <= wsize && whave <= wsize
      && (whave < wsize ==> sent == [])
      && (whave == wsize ==> |sent| >= wsize && window[wsize - left..] == sent[|sent| - left..])
    }

    /** Everything decoded so far: what was sent, then the current window. */
    ghost function History(): seq<byte>
      requires Valid()
      reads this, window
    {
      sent + window[..wsize - left]
    }

    ghost function At(): Place
      reads this
    {
      Place(left, whave, fast)
    }

    constructor (wsize: nat, sane: bool)
      requires wsize > 0
      ensures Valid() && History() == [] && this.wsize == wsize && this.sane == sane && fresh(window)
      ensures At() == Place(wsize, 0, false)
    {
      this.wsize, this.sane := wsize, sane;
      window := new byte[wsize];
      left, whave, sent, fast := wsize, 0, [], false;
    }

    /** ROOM: a full window is sent, and writing starts at its beginning again. */
    method Room()
      requires Valid()
      modifies `left, `whave, `sent
      ensures Valid() && left > 0 && History() == old(History())
      ensures left == (if old(left) == 0 then wsize else old(left)) && whave == (if old(left) == 0 then wsize else old(whave))
    {
      if left == 0 {
        sent := sent + window[..];
        left := wsize;
        whave := left;
        assert sent[|sent| - wsize..] == window[..];
      }
    }

    /** One byte at the write position. */
    method Put(c: byte)
      requires Valid() && left > 0
      modifies `left, window
      ensures Valid() && left == old(left) - 1 && History() == old(History()) + [c]
    {
      ghost var w, put := window[..], wsize - left;
      window[wsize - left] := c;
      left := left - 1;
      assert window[..] == w[put := c];
      if whave == wsize {
        assert w[put..][1..] == w[put + 1..] && sent[|sent| - left - 1..][1..] == sent[|sent| - left..];
      }
    }

    /** A byte ahead of the write position is left over from the previous round. */
    lemma Older(k: int)
      requires Valid() && whave == wsize && wsize - left <= k < wsize
      ensures window[k] == sent[|sent| - wsize + k]
    {
      var put := wsize - left;
      assert window[put..][k - put] == sent[|sent| - left..][k - put];
    }

    /** The byte `dist` back is where the copy loop looks for it. */
    lemma Source(dist: int)
      requires Valid() && left > 0 && 1 <= dist <= wsize && dist <= |History()| && (whave < wsize ==> dist <= wsize - left)
      ensures var put := wsize - left;
              var from := if dist > put then put + wsize - dist else put - dist;
              0 <= from < wsize && window[from] == History()[|History()| - dist]
    {
      var put := wsize - left;
      if dist > put { Older(put + wsize - dist); }
    }

    /** One byte of a match. */
    method CopyByte(offset: nat, from: int)
      requires Valid() && left > 0 && 1 <= offset <= wsize && offset <= |History()| && (whave < wsize ==> offset <= wsize - left)
      requires from == if offset > wsize - left then wsize - left + wsize - offset else wsize - left - offset
      modifies `left, window
      ensures Valid() && left == old(left) - 1
      ensures History() == old(History()) + [old(History())[|old(History())| - offset]]
    {
      Source(offset);
      Put(window[from]);
    }

    /** One stretch of a match: up to the end of the window, or of its previous contents. */
    method CopyChunk(offset: nat, length: nat) returns (copied: nat)
      requires Valid() && left > 0 && 1 <= offset <= wsize && length > 0 && offset <= |History()|
      requires whave < wsize ==> offset <= wsize - left
      modifies `left, window
      ensures Valid() && 0 < copied <= length && left == old(left) - copied
      ensures History() == CopyBack(old(History()), offset, copied)
      ensures whave < wsize ==> offset <= wsize - left
    {
      hide CopyBack, Valid, History;
      ghost var h := History();
      Limits();
      var put := wsize - left;
      var copy := wsize - offset;
      var from;
      if copy < left {
        from := put + copy;
        copy := left - copy;
      } else {
        from := put - offset;
        copy := left;
      }
      if copy > length { copy := length; }
      copied := copy;
      while copy > 0
        invariant 0 <= copy <= copied <= old(left) && Valid() && left == old(left) - (copied - copy) <= wsize
        invariant from == (if offset > wsize - left then wsize - left + wsize - offset else wsize - left - offset) || copy == 0
        invariant whave < wsize ==> offset <= wsize - left
        invariant History() == CopyBack(h, offset, copied - copy)
      {
        CopyOneMore(h, offset, copied - copy);
        CopyByte(offset, from);
        from := from + 1;
        copy := copy - 1;
      }
    }

    lemma Limits()
      requires Valid()
      ensures 0 < wsize == window.Length && left <= wsize && whave <= wsize && |History()| >= wsize - left
      ensures whave < wsize ==> |History()| == wsize - left
      ensures whave == wsize ==> |History()| >= wsize
    {
    }

    /** A length and distance pair. */
    method CopyMatch(offset: nat, length: nat) returns (ok: bool)
      requires Valid() && offset >= 1 && length >= 1
      modifies `left, `whave, `sent, window
      ensures Valid() && (ok <==> offset <= wsize && offset <= |old(History())|)
      ensures ok <==> offset <= wsize - (if old(whave) < wsize then old(left) else 0)
      ensures ok ==> History() == CopyBack(old(History()), offset, length) && At() == Written(old(At()), length, wsize)
      ensures !ok ==> History() == old(History())
    {
      hide CopyBack, Valid, History, Written;
      ghost var h, p := History(), At();
      Limits();
      CopyNone(h, offset);
      WrittenNone(p, wsize);
      if offset > wsize - (if whave < wsize then left else 0) {
        return false;
      }
      var todo := length;
      while todo > 0
        invariant 0 <= todo <= length && Valid() && History() == CopyBack(h, offset, length - todo)
        invariant whave < wsize ==> offset <= wsize - left
        invariant At() == Written(p, length - todo, wsize)
      {
        Limits();
        ghost var q := At();
        Room();
        Limits();
        var copied := CopyChunk(offset, todo);
        CopyInPieces(h, offset, length - todo, copied);
        WrittenChunk(q, copied, wsize);
        WrittenJoin(p, length - todo, copied, wsize);
        todo := todo - copied;
      }
      ok := true;
    }

    /** A literal. */
    method PutLiteral(c: byte)
      requires Valid()
      modifies `left, `whave, `sent, window
      ensures Valid() && History() == old(History()) + [c] && At() == Written(old(At()), 1, wsize)
    {
      hide Written;
      WrittenChunk(At(), 1, wsize);
      Room();
      Put(c);
    }

    // ----- inflate_fast, with the window itself as its output buffer and `wnext` 0

    /** `from` is where the window keeps the bytes `dist` back, `n` of them in a row. */
    predicate Along(dist: nat, from: int, n: nat)
      reads this`left
    {
      var put := wsize - left;
      (dist <= put && from == put - dist) || (put < dist && n <= dist - put && from == put + wsize - dist)
    }

    /** The copy of `done` bytes so far is right. */
    ghost predicate Right(dist: nat, h: seq<byte>, done: nat)
      requires Valid()
      reads this, window
    {
      && 1 <= dist <= |h| && dist <= wsize && (whave < wsize ==> dist <= wsize - left)
      && History() == CopyBack(h, dist, done)
    }

    /** `*out++ = *from++` inside the window. Bytes are copied whatever they are; if the distance makes sense they are
        the right ones. */
    method FastByte(from: nat, dist: nat, ghost good: bool, ghost h: seq<byte>, ghost done: nat)
      requires Valid() && left > 0 && from < wsize
      requires good ==> Right(dist, h, done) && Along(dist, from, 1)
      modifies `left, window
      ensures Valid() && left == old(left) - 1
      ensures good ==> Right(dist, h, done + 1)
    {
      hide CopyBack, Valid, History;
      Limits();
      if good {
        Source(dist);
        CopyOneMore(h, dist, done);
      }
      Put(window[from]);
    }

    method FastBytes(from0: nat, n: nat, dist: nat, ghost good: bool, ghost h: seq<byte>, ghost done: nat)
      requires Valid() && n <= left && from0 + n <= wsize
      requires good ==> Right(dist, h, done) && (n > 0 ==> Along(dist, from0, n))
      modifies `left, window
      ensures Valid() && left == old(left) - n
      ensures good ==> Right(dist, h, done + n)
    {
      hide CopyBack, Valid, History, Right;
      var from, op := from0, n;
      while op > 0
        invariant 0 <= op <= n && Valid() && left == old(left) - (n - op) && from == from0 + (n - op)
        invariant good ==> Right(dist, h, done + (n - op)) && (op > 0 ==> Along(dist, from, op))
      {
        FastByte(from, dist, good, h, done + (n - op));
        from := from + 1;
        op := op - 1;
      }
    }

    /** Three bytes at a time. */
    method FastThrees(from0: nat, n: nat, dist: nat, ghost good: bool, ghost h: seq<byte>, ghost done: nat)
      requires Valid() && n <= left && from0 + n <= wsize
      requires good ==> Right(dist, h, done) && (n > 0 ==> Along(dist, from0, n))
      modifies `left, window
      ensures Valid() && left == old(left) - n
      ensures good ==> Right(dist, h, done + n)
    {
      hide CopyBack, Valid, History, Right;
      var from, len := from0, n;
      while len > 2
        invariant 0 <= len <= n && Valid() && left == old(left) - (n - len) && from == from0 + (n - len)
        invariant good ==> Right(dist, h, done + (n - len)) && (len > 0 ==> Along(dist, from, len))
      {
        FastByte(from, dist, good, h, done + (n - len));
        FastByte(from + 1, dist, good, h, done + (n - len) + 1);
        FastByte(from + 2, dist, good, h, done + (n - len) + 2);
        from := from + 3;
        len := len - 3;
      }
      FastBytes(from, len, dist, good, h, done + (n - len));
    }

    /** The match copy of inflate_fast. It accepts exactly what lies within `whave` bytes before the window's
        beginning, and is right whenever the window holds the source. */
    method FastMatch(dist: nat, len0: nat) returns (r: Outcome)
      requires Valid() && left >= FAST_ROOM && 1 <= dist && 3 <= len0 <= FAST_ROOM
      modifies `left, window
      ensures Valid()
      ensures r == Copied <==> dist <= wsize - old(left) + Reach(whave, sane, wsize)
      ensures r == OutsideMemory ==> !sane && dist > wsize - old(left) + wsize
      ensures r == Copied ==> left == old(left) - len0
      ensures r == Copied && dist <= wsize && dist <= |old(History())| ==>
        History() == CopyBack(old(History()), dist, len0)
    {
      hide CopyBack, Valid, History;
      ghost var h := History();
      Limits();
      CopyNone(h, dist);
      ghost var good := dist <= wsize && dist <= |h|;
      var len := len0;
      var op := wsize - left;
      if dist <= op {
        FastThrees(op - dist, len, dist, good, h, 0);
        return Copied;
      }
      op := dist - op;
      if op > whave && sane { return TooFar; }
      if op > wsize { return OutsideMemory; }
      var from := wsize - op;
      if op < len {
        FastBytes(from, op, dist, good, h, 0);
        len := len - op;
        from := wsize - left - dist;
      }
      FastThrees(from, len, dist, good, h, len0 - len);
      r := Copied;
    }

    // ----- one token, by either path

    /** The registers change hands: inflate_fast is told how much the window holds. */
    method Dispatch(s: Step)
      requires Valid()
      modifies `whave, `fast
      ensures Valid() && History() == old(History()) && At() == Entered(old(At()), s, wsize)
      ensures fast ==> left >= FAST_ROOM
    {
      if left >= FAST_ROOM && s != Slow {
        if (s == Enter || !fast) && whave < wsize { whave := wsize - left; }
        fast := true;
      } else {
        fast := false;
      }
    }

    method Take(t: Token, s: Step) returns (r: Outcome)
      requires Valid() && WellFormed(t)
      modifies this, window
      ensures Valid()
      ensures r == Copied <==> Passes(t, Entered(old(At()), s, wsize), sane, wsize)
      ensures r == Copied ==> At() == Written(Entered(old(At()), s, wsize), Size(t), wsize)
      ensures r == Copied && Held(t, |old(History())|, wsize) ==> After(old(History()), t) == Some(History())
    {
      hide CopyBack, Valid, History, Written, Entered, Reach;
      Dispatch(s);
      match t {
        case Literal(c) =>
          PutLiteral(c);
          r := Copied;
        case Match(dist, len) =>
          if fast {
            WrittenChunk(At(), len, wsize);
            r := FastMatch(dist, len);
          } else {
            var ok := CopyMatch(dist, len);
            r := if ok then Copied else TooFar;
          }
      }
    }
  }

  lemma WrittenNone(p: Place, wsize: nat)
    requires wsize > 0
    ensures Written(p, 0, wsize) == p
  {
  }

  /** Up to the end of the window, bytes are simply counted down. */
  lemma {:induction false} WrittenChunk(p: Place, n: nat, wsize: nat)
    requires wsize > 0 && 0 < n <= if p.left == 0 then wsize else p.left
    ensures Written(p, n, wsize) == if p.left == 0 then Place(wsize - n, wsize, p.fast) else Place(p.left - n, p.whave, p.fast)
    decreases n
  {
    var q := if p.left == 0 then Place(wsize - 1, wsize, p.fast) else Place(p.left - 1, p.whave, p.fast);
    if n > 1 { WrittenChunk(q, n - 1, wsize); } else { WrittenNone(q, wsize); }
  }

  lemma {:induction false} WrittenJoin(p: Place, a: nat, b: nat, wsize: nat)
    requires wsize > 0
    ensures Written(Written(p, a, wsize), b, wsize) == Written(p, a + b, wsize)
    decreases a
  {
    if a > 0 {
      WrittenJoin(if p.left == 0 then Place(wsize - 1, wsize, p.fast) else Place(p.left - 1, p.whave, p.fast), a - 1, b, wsize);
    }
  }

  // ----- whole runs

  /** inflateBack from decoded symbols to output, with any interleaving of its two paths. It reports an error exactly
      when some match does not pass the test of its path, and tokens that make sense always arrive in full. */
  method Inflate(tokens: seq<Token>, steps: seq<Step>, wsize: nat, sane: bool) returns (r: Outcome, output: seq<byte>)
    requires wsize > 0 && |steps| == |tokens| && forall k :: 0 <= k < |tokens| ==> WellFormed(tokens[k])
    ensures r == Copied <==> Accepted(tokens, steps, sane, wsize)
    ensures Sensible(tokens, wsize) ==> r == Copied && Expand(tokens) == Some(output)
  {
    hide Expand, After, WellFormed, Within, Written, Entered, Passes, BackWindow.Valid;
    var b := new BackWindow(wsize, sane);
    var k := 0;
    ExpandNone();
    assert tokens[..0] == [];
    ghost var good := Sensible(tokens, wsize);
    while k < |tokens|
      invariant 0 <= k <= |tokens| && b.Valid() && b.wsize == wsize && b.sane == sane && fresh(b) && fresh(b.window)
      invariant b.At() == PlaceAt(tokens, steps, wsize, k)
      invariant forall i :: 0 <= i < k ==> Passes(tokens[i], EnteredAt(tokens, steps, wsize, i), sane, wsize)
      invariant good ==> Expand(tokens[..k]) == Some(b.History())
    {
      if good { NextHeld(tokens, wsize, k, b.History()); }
      assert tokens[..k + 1] == tokens[..k] + [tokens[k]];
      ExpandPush(tokens[..k], tokens[k]);
      r := b.Take(tokens[k], steps[k]);
      if r != Copied {
        AcceptedExactly(tokens, steps, sane, wsize);
        return r, [];
      }
      k := k + 1;
    }
    assert tokens[..k] == tokens;
    b.Limits();
    r, output := Copied, b.sent + b.window[..b.wsize - b.left];
  }

  lemma {:induction false} ExpandNone()
    ensures Expand([]) == Some([])
  {
  }

  lemma NextHeld(tokens: seq<Token>, wsize: nat, k: nat, h: seq<byte>)
    requires k < |tokens| && Sensible(tokens, wsize) && Expand(tokens[..k]) == Some(h) && WellFormed(tokens[k])
    ensures Held(tokens[k], |h|, wsize)
  {
    hide Expand;
    if Expand(tokens[..k + 1]) == None { ExpandStuck(tokens, k + 1); }
    assert tokens[..k + 1] == tokens[..k] + [tokens[k]];
    ExpandPush(tokens[..k], tokens[k]);
  }

  /** Once a prefix makes no sense, nothing longer does. */
  lemma {:induction false} ExpandStuck(tokens: seq<Token>, k: nat)
    requires k <= |tokens| && Expand(tokens[..k]) == None
    ensures Expand(tokens) == None
    decreases |tokens|
  {
    hide Expand, After;
    if k == |tokens| {
      assert tokens[..k] == tokens;
    } else {
      var q, t := tokens[..|tokens| - 1], tokens[|tokens| - 1];
      assert q[..k] == tokens[..k] && tokens == q + [t];
      ExpandStuck(q, k);
      ExpandPush(q, t);
    }
  }

  /** What deflate_fast and deflate_slow emit is restored by a decoder with the same window, on any path. */
  method Restore(tokens: seq<Token>, steps: seq<Step>, wsize: nat, sane: bool, ghost input: seq<byte>) returns (output: seq<byte>)
    requires wsize > 262 && |steps| == |tokens| && Expand(tokens) == Some(input) && AllLegal(tokens, wsize)
    ensures output == input
  {
    forall k | 0 <= k < |tokens| ensures WellFormed(tokens[k]) && Within(tokens[k], wsize) {
      assert Legal(tokens[k], wsize);
    }
    var r;
    r, output := Inflate(tokens, steps, wsize, sane);
  }
}
