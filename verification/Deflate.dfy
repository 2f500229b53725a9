/** deflate_fast and deflate_slow of deps/zlib/deflate.c. */
module Deflate {
  import opened Counting
  import opened HashChains
  import opened Lz77
  import opened Options
  import opened Powers
  import opened RollingHash

  const TOO_FAR := 4096

  datatype Flush = NoFlush | Finish

  datatype BlockState = NeedMore | FinishStarted | FinishDone

  /** A legal match at `at` in the text. */
  ghost predicate MatchAt(c: Config, hist: seq<byte>, at: int, dist: int, len: int) {
    3 <= len <= MAX_MATCH && dist <= MaxDist(c) && Repeats(hist, at, dist, len)
  }

  /** A match found in the window is one in the text. */
  lemma MatchShown(c: Config, window: seq<byte>, hist: seq<byte>, base: int, s: int, lookahead: int, start: int, len: int)
    requires Shows(window, hist, base, s + lookahead) && GoodMatch(c, window, s, start, len)
    requires 3 <= len <= lookahead && len <= MAX_MATCH
    ensures MatchAt(c, hist, base + s, s - start, len)
  {
    SliceOfSlice(window, 0, s + lookahead, s, s + len);
    SliceOfSlice(window, 0, s + lookahead, start, start + len);
    SliceOfSlice(hist, base, base + s + lookahead, s, s + len);
    SliceOfSlice(hist, base, base + s + lookahead, start, start + len);
    assert window[0..s + lookahead] == window[..s + lookahead];
  }

  /** The tokens stand for the first `n` bytes. */
  ghost predicate Stand(c: Config, tokens: seq<Token>, hist: seq<byte>, n: int) {
    0 <= n <= |hist| && Expand(tokens) == Some(hist[..n]) && AllLegal(tokens, c.wsize)
  }

  lemma StandLiteral(c: Config, tokens: seq<Token>, hist: seq<byte>, n: int)
    requires Stand(c, tokens, hist, n) && n < |hist|
    ensures Stand(c, tokens + [Literal(hist[n])], hist, n + 1)
  {
    ExpandPush(tokens, Literal(hist[n]));
    assert hist[..n] + [hist[n]] == hist[..n + 1];
  }

  lemma StandMatch(c: Config, tokens: seq<Token>, hist: seq<byte>, n: int, dist: int, len: int)
    requires Stand(c, tokens, hist, n) && MatchAt(c, hist, n, dist, len)
    ensures Stand(c, tokens + [Match(dist, len)], hist, n + len)
  {
    ExpandPush(tokens, Match(dist, len));
    CopyReproduces(hist, n, dist, len);
  }

  lemma StandGrow(c: Config, tokens: seq<Token>, hist: seq<byte>, more: seq<byte>, n: int)
    requires Stand(c, tokens, hist, n)
    ensures Stand(c, tokens, hist + more, n)
  {
    assert (hist + more)[..n] == hist[..n];
  }

  lemma MatchGrow(c: Config, hist: seq<byte>, more: seq<byte>, at: int, dist: int, len: int)
    requires MatchAt(c, hist, at, dist, len)
    ensures MatchAt(c, hist + more, at, dist, len)
  {
    assert (hist + more)[at..at + len] == hist[at..at + len];
    assert (hist + more)[at - dist..at - dist + len] == hist[at - dist..at - dist + len];
  }

  /** A match found for the byte before index `s`, at `at` in the text, is a match. After the window has
      moved, its start may be one before the window; the distance is right all the same. */
  ghost predicate LastMatch(c: Config, hist: seq<byte>, at: int, available: bool, s: int, start: int, len: int) {
    && (available ==> s >= 1)
    && (len >= MIN_MATCH ==> available && MatchAt(c, hist, at, s - 1 - start, len))
  }

  lemma LastMatchGrow(c: Config, hist: seq<byte>, more: seq<byte>, at: int, available: bool, s: int, start: int, len: int)
    requires LastMatch(c, hist, at, available, s, start, len)
    ensures LastMatch(c, hist + more, at, available, s, start, len)
  {
    if len >= MIN_MATCH { MatchGrow(c, hist, more, at, s - 1 - start, len); }
  }

  /** How hard to search, from the table of compression levels, and the strategy. */
  datatype Tuning = Tuning(goodMatch: int, niceMatch: int, maxLazy: int, maxChain: nat, filtered: bool)

  class Compressor {
    const c: Config
    const window: array<byte>
    const head: array<int>
    const prev: array<int>
    const goodMatch: int
    const niceMatch: int
    const maxLazy: int
    const maxChain: nat
    const filtered: bool
    const symEnd: nat

    var input: seq<byte>
    var strstart: int
    var lookahead: int
    var insert: int
    var insH: nat
    var matchLength: int
    var matchStart: int
    var prevLength: int
    var prevMatch: int
    var matchAvailable: bool
    var highWater: int
    var symNext: nat
    var tokens: seq<Token>

    ghost var hist: seq<byte>
    ghost var base: int
    ghost var ins: set<int>

    ghost predicate Shape()
    {
      && ProperConfig(c) && window.Length == 2 * c.wsize && head != prev
      && prev.Length == c.wsize && head.Length == Pow2(c.hash.bits)
    }

    /** The window shows the input read so far. */
    ghost predicate Data()
      reads this`strstart, this`lookahead, this`hist, this`base, window
    {
      && 0 <= strstart && 0 <= lookahead && strstart + lookahead <= window.Length
      && Shows(window[..], hist, base, strstart + lookahead) && |hist| == base + strstart + lookahead
    }

    /** The dictionary is in order when the next string to insert is at index `t`. */
    ghost predicate Sorted(t: int)
      reads this`hist, this`base, this`ins, head, prev
    {
      0 <= t && 0 <= base && Chained(c, hist, base, t, ins, head[..], prev[..]) && Before(ins, base + t)
    }

    /** The running key is ready for the string at index `t`, if there are three bytes there. */
    ghost predicate Keyed(t: int)
      reads this`insH, this`hist, this`base
    {
      0 <= base + t && (base + t + 2 < |hist| ==> Primed(c.hash, insH, hist[base + t], hist[base + t + 1]))
    }

    ghost predicate Dict(t: int)
      reads this`insH, this`hist, this`base, this`ins, head, prev
    {
      Sorted(t) && Keyed(t)
    }

    /** 1 when the byte before the current one has not been accounted for yet. */
    ghost function Pend(): int
      reads this`matchAvailable
    {
      if matchAvailable then 1 else 0
    }

    /** A match found for the previous byte is a match. */
    ghost predicate Pending()
      reads this`matchLength, this`matchStart, this`matchAvailable, this`strstart, this`hist, this`base
    {
      LastMatch(c, hist, base + strstart - 1, matchAvailable, strstart, matchStart, matchLength)
    }

    ghost predicate Valid()
      reads this, window, head, prev
    {
      && Shape() && Data() && Dict(strstart) && Pending() && Stand(c, tokens, hist, base + strstart - Pend())
    }

    /** deflateInit2_ and lm_init: a fresh compressor. */
    constructor (c: Config, tuning: Tuning, symEnd: nat)
      requires ProperConfig(c)
      ensures Valid() && this.c == c && maxLazy == tuning.maxLazy
      ensures hist == [] && input == [] && tokens == [] && lookahead == 0 && insert == 0 && highWater == 0
      ensures matchLength == 2 && prevLength == 2 && !matchAvailable
      ensures fresh(window) && fresh(head) && fresh(prev)
    {
      this.c, goodMatch, niceMatch, maxLazy := c, tuning.goodMatch, tuning.niceMatch, tuning.maxLazy;
      maxChain, filtered, this.symEnd := tuning.maxChain, tuning.filtered, symEnd;
      window := new byte[2 * c.wsize];
      var h := new int[Pow2(c.hash.bits)](_ => NIL);
      head := h;
      prev := new int[c.wsize];
      input, strstart, lookahead, insert, insH := [], 0, 0, 0, 0;
      matchLength, matchStart, prevLength, prevMatch, matchAvailable := MIN_MATCH - 1, 0, MIN_MATCH - 1, 0, false;
      highWater, symNext, tokens := 0, 0, [];
      hist, base, ins := [], 0, {};
      new;
      ChainedEmpty(c, head[..], prev[..]);
      assert hist[..0] == [];
      assert window[..][..0] == hist[0..0];
    }
  
    // ----- fill_window

    /** The upper half of the window moves down, and the dictionary with it. */
    method SlideWindow(more: int)
      requires Shape() && Data() && Dict(strstart) && Pending() && insert == 0
      requires strstart >= c.wsize + MaxDist(c) && more == window.Length - lookahead - strstart
      modifies this`strstart, this`matchStart, this`base, window, head, prev
      ensures Shape() && Data() && Dict(strstart) && Pending()
      ensures base + strstart == old(base + strstart) && strstart == old(strstart) - c.wsize
    {
      hide Shows, Chained, Primed, MatchAt, Before;
      ghost var w, end := window[..], strstart + lookahead;
      MoveDown(window, c.wsize, c.wsize - more);
      ShowsMoved(w, window[..], hist, base, end, c.wsize);
      matchStart := matchStart - c.wsize;
      SlideHash(head, prev, c, hist, base, strstart, ins);
      strstart := strstart - c.wsize;
      base := base + c.wsize;
    }

    /** `n` bytes of input go into the window behind those already there. */
    method Accept(n: nat)
      requires Shape() && Data() && n <= |input| && n <= window.Length - strstart - lookahead
      modifies this`input, this`lookahead, this`hist, window
      ensures Data() && hist == old(hist) + old(input)[..n] && input == old(input)[n..] && lookahead == old(lookahead) + n
    {
      hide Shows, Shape;
      CopyIn(window, strstart + lookahead, input[..n], hist, base);
      hist := hist + input[..n];
      input := input[n..];
      lookahead := lookahead + n;
    }

    /** read_buf: as much input as there is room for. */
    method ReadMore(more: nat)
      requires Shape() && Data() && Sorted(strstart) && Pending() && Stand(c, tokens, hist, base + strstart - Pend())
      requires more <= window.Length - strstart - lookahead
      modifies this`input, this`lookahead, this`hist, window
      ensures Shape() && Data() && Sorted(strstart) && Pending() && Stand(c, tokens, hist, base + strstart - Pend())
      ensures hist + input == old(hist + input) && |hist| + |input| == |old(hist)| + |old(input)|
      ensures more >= 1 && old(input) != [] ==> lookahead > old(lookahead)
      ensures lookahead == old(lookahead) + if |old(input)| > more then more else |old(input)|
    {
      hide Data, Chained, LastMatch, Before, Stand, Shape;
      var n := |input|;
      if n > more { n := more; }
      ghost var h, bytes := hist, input[..n];
      ChainedGrow(c, h, bytes, base, strstart, ins, head[..], prev[..]);
      StandGrow(c, tokens, h, bytes, base + strstart - Pend());
      LastMatchGrow(c, h, bytes, base + strstart - 1, matchAvailable, strstart, matchStart, matchLength);
      assert h + input == (h + bytes) + input[n..];
      Accept(n);
    }

    /** Starting the running key afresh at the current string. */
    method Prime()
      requires Shape() && Data() && Sorted(strstart) && Pending()
      modifies this`insH
      ensures Data() && Dict(strstart) && Pending()
    {
      hide Chained, Primed, Before, Update, MatchAt, Shows;
      if lookahead >= MIN_MATCH {
        ShownAt(window[..], hist, base, strstart + lookahead, strstart);
        ShownAt(window[..], hist, base, strstart + lookahead, strstart + 1);
        PrimedFresh(c.hash, window[strstart], window[strstart + 1]);
        insH := window[strstart];
        insH := Update(c.hash, insH, window[strstart + 1]);
      }
    }

    /** Zeroing what the match finder may look at beyond the input. */
    method ZeroAhead()
      requires Shape() && Data() && Dict(strstart) && Pending() && 0 <= highWater
      modifies this`highWater, window
      ensures Data() && Dict(strstart) && Pending() && 0 <= highWater
    {
      hide Chained, Primed, MatchAt, Before, Shows, Shape;
      var end := strstart + lookahead;
      Bounds();
      if highWater < window.Length {
        ghost var w := window[..];
        if highWater < end {
          var init := window.Length - end;
          if init > MAX_MATCH { init := MAX_MATCH; }
          Zero(window, end, init);
          ShowsKept(w, window[..], hist, base, end);
          highWater := end + init;
        } else if highWater < end + MAX_MATCH {
          var init := end + MAX_MATCH - highWater;
          if init > window.Length - highWater { init := window.Length - highWater; }
          Zero(window, highWater, init);
          ShowsKept(w, window[..], hist, base, end);
          highWater := highWater + init;
        }
      }
    }

    lemma Bounds()
      requires Shape() && Data()
      ensures 512 <= c.wsize && window.Length == 2 * c.wsize && head != prev
      ensures 0 <= strstart && 0 <= lookahead && strstart + lookahead <= window.Length && |hist| == base + strstart + lookahead
    {
    }

    /** One round of fill_window: slide if the window is almost full, and read if there is input. */
    method FillOnce()
      requires Valid() && lookahead < MIN_LOOKAHEAD && insert == 0
      modifies this`input, this`strstart, this`lookahead, this`insH, this`matchStart, this`hist, this`base, window, head, prev
      ensures Valid() && strstart + old(lookahead) <= window.Length - 2 && strstart < c.wsize + MaxDist(c)
      ensures base + strstart == old(base + strstart) && hist + input == old(hist + input)
      ensures |input| + lookahead == |old(input)| + old(lookahead)
      ensures old(input) == [] ==> input == [] && lookahead == old(lookahead)
      ensures old(input) != [] ==> lookahead > old(lookahead)
    {
      hide Shape, Data, Sorted, Keyed, Pending, Stand;
      Bounds();
      var more := window.Length - lookahead - strstart;
      if strstart >= c.wsize + MaxDist(c) {
        SlideWindow(more);
        more := more + c.wsize;
      }
      if input == [] { return; }
      Bounds();
      ReadMore(more);
      Prime();
      Bounds();
    }

    /** fill_window: afterwards there is enough lookahead, or no more input, and always room for a search. */
    method FillWindow()
      requires Valid() && lookahead < MIN_LOOKAHEAD && insert == 0 && 0 <= highWater
      modifies this`input, this`strstart, this`lookahead, this`insH, this`matchStart, this`highWater,
               this`hist, this`base, window, head, prev
      ensures Valid() && 0 <= highWater && strstart + MIN_LOOKAHEAD <= window.Length
      ensures base + strstart == old(base + strstart) && hist + input == old(hist + input)
      ensures |input| + lookahead == |old(input)| + old(lookahead)
      ensures lookahead >= MIN_LOOKAHEAD || input == []
    {
      hide Shape, Data, Sorted, Keyed, Pending, Stand;
      Bounds();
      var go := true;
      while go
        invariant Valid() && 0 <= highWater && (go ==> lookahead < MIN_LOOKAHEAD)
        invariant base + strstart == old(base + strstart) && hist + input == old(hist + input)
        invariant |input| + lookahead == |old(input)| + old(lookahead)
        invariant !go ==> strstart + MIN_LOOKAHEAD <= window.Length && (lookahead >= MIN_LOOKAHEAD || input == [])
        decreases |input|, if go then 1 else 0
      {
        FillOnce();
        Bounds();
        go := lookahead < MIN_LOOKAHEAD && input != [];
      }
      ZeroAhead();
    }

    // ----- inserting and searching

    /** INSERT_STRING for the string at index `t`. */
    method Insert(t: int, ghost end: int) returns (hashHead: int)
      requires Shape() && Shows(window[..], hist, base, end) && |hist| == base + end && Dict(t) && 0 <= t && t + 2 < end
      modifies this`insH, this`ins, head, prev
      ensures Dict(t + 1)
      ensures hashHead == NIL || (hashHead < t && 0 <= base && base + t + 2 < |hist|
        && Entry(c, hist, base, ins, hashHead, HashAt(c, hist, base + t)))
      ensures ins == old(ins) + {base + t} && base + t + 2 < |hist| && Shown(hist, ins)
      ensures Latest(c, hist, base, ins, HashAt(c, hist, base + t), base + t, hashHead)
    {
      hide Latest, Shown, Chained, Shows, Before, Primed, Entry, HashAt;
      ghost var ins0 := ins;
      ChainedSizes(c, hist, base, t, ins, head[..], prev[..]);
      ShownAt(window[..], hist, base, end, t + 2);
      insH, hashHead := InsertString(head, prev, insH, t, window[t + 2], c, hist, base, ins);
      ins := ins + {base + t};
      ChainedAdvance(c, hist, base, t, t + 1, ins, head[..], prev[..]);
      if hashHead != NIL { EntryMore(c, hist, base, ins0, ins, hashHead, HashAt(c, hist, base + t)); }
      ChainedSizes(c, hist, base, t + 1, ins, head[..], prev[..]);
      LatestMore(c, hist, base, ins0, t, HashAt(c, hist, base + t), hashHead);
    }

    lemma LatestMore(c: Config, hist: seq<byte>, base: int, ins: set<int>, t: int, key: int, q: int)
      requires Shown(hist, ins) && Shown(hist, ins + {base + t}) && Latest(c, hist, base, ins, key, base + t, q)
      ensures Latest(c, hist, base, ins + {base + t}, key, base + t, q)
    {
      hide HashAt;
    }

    lemma EntryMore(c: Config, hist: seq<byte>, base: int, ins: set<int>, ins': set<int>, q: int, key: nat)
      requires Entry(c, hist, base, ins, q, key) && ins <= ins'
      ensures Entry(c, hist, base, ins', q, key)
    {
    }

    /** Near the end of the input nothing is inserted. */
    lemma SkipInsert(t: int, t': int)
      requires Dict(t) && t <= t' && base + t + 2 >= |hist|
      ensures Dict(t')
    {
      hide Primed;
      ChainedAdvance(c, hist, base, t, t', ins, head[..], prev[..]);
    }

    // ----- emitting

    /** _tr_tally_lit and _tr_tally_dist: the symbol is recorded; a full buffer asks for a flush. */
    method Tally(t: Token) returns (bflush: bool)
      modifies this`tokens, this`symNext
      ensures tokens == old(tokens) + [t]
    {
      tokens := tokens + [t];
      symNext := symNext + 3;
      bflush := symNext == symEnd;
    }

    /** FLUSH_BLOCK_ONLY empties the symbol buffer. Whether the output is full afterwards is up to the caller
        of the library. */
    method FlushBlock() returns (full: bool)
      modifies this`symNext
    {
      symNext := 0;
      full := *;
    }

    // ----- deflate_slow

    /** The match kept from the previous byte. */
    ghost predicate Kept()
      reads this`prevLength, this`prevMatch, this`matchAvailable, this`strstart, this`hist, this`base
    {
      LastMatch(c, hist, base + strstart - 1, matchAvailable, strstart, prevMatch, prevLength)
    }

    /** A better match at the current byte is a match. */
    ghost predicate Found()
      reads this`matchLength, this`matchStart, this`prevLength, this`strstart, this`hist, this`base
    {
      matchLength >= MIN_MATCH && matchLength > prevLength ==>
        MatchAt(c, hist, base + strstart, strstart - matchStart, matchLength)
    }

    /** `hashHead` is the last string inserted before the current one that has its key. */
    ghost predicate FromHead(hashHead: int)
      reads this`strstart, this`hist, this`base, this`ins
    {
      && 0 <= base + strstart && base + strstart + 2 < |hist| && Shown(hist, ins)
      && Latest(c, hist, base, ins, HashAt(c, hist, base + strstart), base + strstart, hashHead)
    }

    /** Whether a match of length `best` found for the current string is what a search that tries `tried` candidates
        after a match of length `previous` comes to. */
    ghost predicate Searched(previous: int, best: int, tried: nat)
      reads this`strstart, this`base, this`ins, this`lookahead, window
    {
      Thorough(c, window[..], base, strstart, ins, lookahead, best, tried, niceMatch, Patience(maxChain, previous, goodMatch))
    }

    /** A short match may not be worth it. */
    ghost predicate Discarded(best: int, found: int) {
      best == found || (found == MIN_MATCH - 1 && best <= 5 && (filtered || best == MIN_MATCH))
    }

    lemma SearchedNone(hashHead: int, previous: int)
      requires Data() && lookahead >= 3 && FromHead(hashHead) && (hashHead == NIL || strstart - hashHead > MaxDist(c))
      ensures Searched(previous, 2, 0)
    {
      hide Latest, Thorough, HashAt;
      NoneInReach(c, hist, window[..], base, strstart + lookahead, ins, strstart, hashHead, 0, niceMatch,
                  Patience(maxChain, previous, goodMatch));
    }

    /** Keeping the previous match and looking for a better one. */
    method Look(hashHead: int) returns (ghost best: int, ghost tried: nat)
      requires Shape() && Data() && Dict(strstart + 1) && Pending() && 2 <= matchLength <= MAX_MATCH
      requires strstart + MIN_LOOKAHEAD <= window.Length
      requires hashHead == NIL || (hashHead < strstart && 3 <= lookahead && 0 <= base && base + strstart + 2 < |hist|
        && Entry(c, hist, base, ins, hashHead, HashAt(c, hist, base + strstart)))
      requires lookahead >= MIN_MATCH ==> FromHead(hashHead)
      modifies this`prevLength, this`prevMatch, this`matchLength, this`matchStart
      ensures Kept() && Found() && 2 <= matchLength <= MAX_MATCH && 2 <= prevLength <= MAX_MATCH
      ensures prevLength == old(matchLength) && prevMatch == old(matchStart) && Discarded(best, matchLength)
      ensures lookahead >= MIN_MATCH && prevLength < maxLazy ==> Searched(prevLength, best, tried)
    {
      hide Latest, Thorough, Chained, Shows, Before, Primed, Entry, HashAt, MatchAt, GoodMatch, Proper;
      prevLength, prevMatch := matchLength, matchStart;
      matchLength := MIN_MATCH - 1;
      best, tried := matchLength, 0;
      if lookahead >= MIN_MATCH && (hashHead == NIL || strstart - hashHead > MaxDist(c)) { SearchedNone(hashHead, prevLength); }
      if hashHead != NIL && prevLength < maxLazy && strstart - hashHead <= MaxDist(c) {
        ghost var candidates;
        matchLength, matchStart, candidates := LongestMatch(window, prev, c, strstart, lookahead, hashHead, prevLength, maxChain,
          goodMatch, niceMatch, matchStart, hist, base, ins, head[..]);
        best, tried := matchLength, |candidates|;
        if matchLength >= MIN_MATCH && matchLength > prevLength {
          MatchShown(c, window[..], hist, base, strstart, lookahead, matchStart, matchLength);
        }
        if matchLength <= 5 && (filtered || (matchLength == MIN_MATCH && strstart - matchStart > TOO_FAR)) {
          matchLength := MIN_MATCH - 1;
        }
      }
    }

    /** The previous match is not beaten: it is emitted, and its strings are inserted. */
    method TakePrevious() returns (bflush: bool)
      requires Shape() && Data() && Dict(strstart + 1) && Kept() && MIN_MATCH <= prevLength <= MAX_MATCH
      requires Stand(c, tokens, hist, base + strstart - Pend())
      modifies this`tokens, this`symNext, this`strstart, this`lookahead, this`prevLength, this`matchAvailable,
               this`matchLength, this`insH, this`ins, head, prev
      ensures Valid() && matchLength == 2 && lookahead < old(lookahead) && !matchAvailable && old(ins) <= ins
      ensures tokens == old(tokens) + [Match(old(strstart) - 1 - prevMatch, old(prevLength))]
      ensures forall a :: base + old(strstart) < a < base + strstart && a + 2 < |hist| ==> a in ins
      ensures base + strstart + lookahead == old(base + strstart + lookahead)
    {
      hide Chained, Shows, Before, Primed, Entry, HashAt, MatchAt, Proper, Stand, Sorted, Keyed, Latest, Shown;
      ghost var end, n := strstart + lookahead, base + strstart - 1;
      MatchBounds(c, hist, n, strstart - 1 - prevMatch, prevLength);
      var maxInsert := strstart + lookahead - MIN_MATCH;
      StandMatch(c, tokens, hist, n, strstart - 1 - prevMatch, prevLength);
      bflush := Tally(Match(strstart - 1 - prevMatch, prevLength));
      lookahead := lookahead - (prevLength - 1);
      prevLength := prevLength - 2;
      InsertBehind(maxInsert, end);
      matchAvailable := false;
      matchLength := MIN_MATCH - 1;
      strstart := strstart + 1;
    }

    /** The strings inside the match that have three bytes are inserted. */
    method InsertBehind(maxInsert: int, ghost end: int)
      requires Shape() && 0 <= strstart && 0 <= prevLength && Shows(window[..], hist, base, end) && |hist| == base + end
      requires Dict(strstart + 1) && maxInsert == end - MIN_MATCH
      modifies this`strstart, this`prevLength, this`insH, this`ins, head, prev
      ensures Dict(strstart + 1) && prevLength == 0 && strstart == old(strstart) + old(prevLength) && old(ins) <= ins
      ensures forall a :: base + old(strstart) < a <= base + strstart && a + 2 < |hist| ==> a in ins
    {
      hide Shape, Shows, Sorted, Keyed, Entry, HashAt, Latest, Shown;
      while prevLength != 0
        invariant 0 <= prevLength && strstart + prevLength == old(strstart) + old(prevLength) && 0 <= strstart
        invariant Dict(strstart + 1) && old(ins) <= ins
        invariant forall a :: base + old(strstart) < a <= base + strstart && a + 2 < |hist| ==> a in ins
        decreases prevLength
      {
        strstart := strstart + 1;
        if strstart <= maxInsert {
          var hashHead := Insert(strstart, end);
        } else {
          SkipInsert(strstart, strstart + 1);
        }
        prevLength := prevLength - 1;
      }
    }

    lemma MatchBounds(c: Config, hist: seq<byte>, at: int, dist: int, len: int)
      requires MatchAt(c, hist, at, dist, len)
      ensures 3 <= len <= MAX_MATCH && at + len <= |hist| && 1 <= dist <= at
    {
    }

    /** The byte before the current one goes out as a literal, if it is still to be accounted for. */
    method TakeLiteral() returns (bflush: bool)
      requires Shape() && Data() && strstart >= 1 && Stand(c, tokens, hist, base + strstart - 1)
      modifies this`tokens, this`symNext
      ensures Stand(c, tokens, hist, base + strstart) && tokens == old(tokens) + [Literal(window[strstart - 1])]
    {
      hide Stand, Shows;
      ShownAt(window[..], hist, base, strstart + lookahead, strstart - 1);
      StandLiteral(c, tokens, hist, base + strstart - 1);
      bflush := Tally(Literal(window[strstart - 1]));
    }

    /** What every step of deflate_slow and deflate_fast keeps, and how it moves on: `end` is where the input
        read so far ends. */
    ghost predicate Running()
      reads this, window, head, prev
    {
      Valid() && insert == 0 && 0 <= highWater
    }

    lemma RunningBounds()
      requires Running()
      ensures 0 <= lookahead
    {
    }

    /** The body of deflate_slow's loop, with lookahead in place; `stop` when the output is full. */
    method SlowStep() returns (stop: bool, ghost best: int, ghost found: int, ghost tried: nat)
      requires Running() && 2 <= matchLength <= MAX_MATCH && lookahead >= 1 && strstart + MIN_LOOKAHEAD <= window.Length
      modifies this`tokens, this`symNext, this`strstart, this`lookahead, this`prevLength, this`prevMatch, this`matchAvailable,
               this`matchLength, this`matchStart, this`insH, this`ins, head, prev
      ensures Running() && 2 <= matchLength <= MAX_MATCH && lookahead < old(lookahead)
      ensures base + strstart + lookahead == old(base + strstart + lookahead)
      ensures Discarded(best, found) && old(ins) <= ins
      ensures forall a :: base + old(strstart) <= a < base + strstart && a + 2 < |hist| ==> a in ins
      ensures old(lookahead) >= MIN_MATCH && old(matchLength) < maxLazy ==>
        Thorough(c, window[..], base, old(strstart), old(ins), old(lookahead), best, tried, niceMatch,
                 Patience(maxChain, old(matchLength), goodMatch))
      ensures old(matchLength) >= MIN_MATCH && found <= old(matchLength) ==>
        tokens == old(tokens) + [Match(old(strstart) - 1 - old(matchStart), old(matchLength))] && matchLength == 2 && !matchAvailable
      ensures !(old(matchLength) >= MIN_MATCH && found <= old(matchLength)) ==>
        && matchLength == found && matchAvailable && (old(matchAvailable) ==> old(strstart) >= 1)
        && tokens == old(tokens) + if old(matchAvailable) then [Literal(window[old(strstart) - 1])] else []
    {
      hide Shape, Data, Dict, Pending, Stand, Kept, Found, Entry, HashAt, FromHead, Thorough, Discarded;
      Bounds();
      ghost var s, ins0, len := strstart, ins, lookahead;
      var hashHead := InsertCurrent();
      best, tried := Look(hashHead);
      found := matchLength;
      if lookahead >= MIN_MATCH && prevLength < maxLazy {
        ThoroughLess(c, window[..], base, s, ins0, ins, len, best, tried, niceMatch, Patience(maxChain, prevLength, goodMatch));
      }
      stop := false;
      if prevLength >= MIN_MATCH && matchLength <= prevLength {
        var bflush := TakePrevious();
        if bflush { stop := FlushBlock(); }
      } else {
        stop := Defer();
      }
    }

    /** INSERT_STRING for the current string, if there are three bytes of it. */
    method InsertCurrent() returns (hashHead: int)
      requires Shape() && Data() && Dict(strstart)
      modifies this`insH, this`ins, head, prev
      ensures Dict(strstart + 1)
      ensures hashHead == NIL || (hashHead < strstart && 3 <= lookahead && 0 <= base && base + strstart + 2 < |hist|
        && Entry(c, hist, base, ins, hashHead, HashAt(c, hist, base + strstart)))
      ensures old(ins) <= ins && (lookahead >= MIN_MATCH ==> base + strstart in ins && FromHead(hashHead))
    {
      hide Shape, Sorted, Keyed, Shows, Entry, HashAt, Latest;
      hashHead := NIL;
      if lookahead >= MIN_MATCH {
        hashHead := Insert(strstart, strstart + lookahead);
      } else {
        SkipInsert(strstart, strstart + 1);
      }
    }

    /** The current match has to wait for the next byte: the previous byte, if pending, is a literal. */
    method Defer() returns (stop: bool)
      requires Shape() && Data() && Dict(strstart + 1) && Kept() && Found() && lookahead >= 1
      requires Stand(c, tokens, hist, base + strstart - Pend()) && !(prevLength >= MIN_MATCH && matchLength <= prevLength)
      modifies this`tokens, this`symNext, this`strstart, this`lookahead, this`matchAvailable
      ensures Valid() && lookahead < old(lookahead) && matchAvailable && strstart == old(strstart) + 1
      ensures if old(matchAvailable) then old(strstart) >= 1 && tokens == old(tokens) + [Literal(window[old(strstart) - 1])]
              else tokens == old(tokens)
      ensures base + strstart + lookahead == old(base + strstart + lookahead)
    {
      hide Shape, Dict, LastMatch, Stand, Shows;
      Promote();
      stop := false;
      if matchAvailable {
        KeptStart();
        var bflush := TakeLiteral();
        if bflush { stop := FlushBlock(); }
        strstart := strstart + 1;
        lookahead := lookahead - 1;
        stop := *;
      } else {
        matchAvailable := true;
        strstart := strstart + 1;
        lookahead := lookahead - 1;
      }
    }

    lemma KeptStart()
      requires Kept() && matchAvailable
      ensures strstart >= 1
    {
    }

    /** A match found at the current byte is the previous match of the next one. */
    lemma Promote()
      requires Kept() && Found() && Data() && !(prevLength >= MIN_MATCH && matchLength <= prevLength)
      ensures LastMatch(c, hist, base + strstart, true, strstart + 1, matchStart, matchLength)
    {
      hide MatchAt;
    }

    /** deflate_slow. Whenever it returns, the tokens stand for the input up to the current byte, less one if
        a decision is pending; when it says so, it has processed everything. */
    method DeflateSlow(flush: Flush) returns (state: BlockState)
      requires Running() && 2 <= matchLength <= MAX_MATCH
      modifies this, window, head, prev
      ensures Valid() && 0 <= highWater && 2 <= matchLength <= MAX_MATCH
      ensures hist + input == old(hist + input)
      ensures state == NeedMore ==> insert == 0
      ensures state == NeedMore ==> (flush == NoFlush && input == []) || |input| + lookahead < |old(input)| + old(lookahead)
      ensures state != NeedMore ==> flush == Finish && input == [] && lookahead == 0 && Stand(c, tokens, hist, |hist|)
    {
      hide Shape, Data, Dict, Pending, Stand;
      ghost var start := |input| + lookahead;
      while true
        invariant Running() && 2 <= matchLength <= MAX_MATCH && hist + input == old(hist + input)
        invariant |input| + lookahead <= start
        decreases |input| + lookahead
      {
        Bounds();
        if lookahead < MIN_LOOKAHEAD {
          FillWindow();
          if lookahead < MIN_LOOKAHEAD && flush == NoFlush { return NeedMore; }
          if lookahead == 0 { break; }
        }
        Bounds();
        var stop;
        ghost var best, found, tried;
        stop, best, found, tried := SlowStep();
        Bounds();
        if stop { return NeedMore; }
      }
      Bounds();
      TakeLast();
      insert := if strstart < MIN_MATCH - 1 then strstart else MIN_MATCH - 1;
      var full := FlushBlock();
      state := if full then FinishStarted else FinishDone;
    }

    /** The end of the input: a pending byte goes out. */
    method TakeLast()
      requires Valid() && lookahead == 0
      modifies this`tokens, this`symNext, this`matchAvailable
      ensures Valid() && !matchAvailable && Stand(c, tokens, hist, |hist|)
    {
      hide Shape, Data, Dict, LastMatch, Stand;
      Bounds();
      if matchAvailable {
        LastStart();
        var bflush := TakeLiteral();
        matchAvailable := false;
        NoMatch();
      }
    }

    lemma LastStart()
      requires Pending() && matchAvailable && |hist| == base + strstart
      ensures strstart >= 1 && matchLength < MIN_MATCH
    {
    }

    lemma NoMatch()
      requires matchLength < MIN_MATCH && !matchAvailable
      ensures Pending()
    {
    }

    // ----- deflate_fast

    /** What deflate_fast finds between steps: nothing is pending. */
    ghost predicate Idle()
      reads this`matchLength, this`prevLength, this`matchAvailable
    {
      matchLength < MIN_MATCH && prevLength == MIN_MATCH - 1 && !matchAvailable
    }

    /** The search of deflate_fast. */
    method FastLook(hashHead: int) returns (ghost tried: nat)
      requires Shape() && Data() && Dict(strstart + 1) && Idle() && strstart + MIN_LOOKAHEAD <= window.Length
      requires hashHead == NIL || (hashHead < strstart && 3 <= lookahead && 0 <= base && base + strstart + 2 < |hist|
        && Entry(c, hist, base, ins, hashHead, HashAt(c, hist, base + strstart)))
      requires lookahead >= MIN_MATCH ==> FromHead(hashHead)
      modifies this`matchLength, this`matchStart
      ensures lookahead >= MIN_MATCH ==> Searched(prevLength, if matchLength < MIN_MATCH then 2 else matchLength, tried)
      ensures matchLength >= MIN_MATCH ==>
        matchLength <= lookahead && MatchAt(c, hist, base + strstart, strstart - matchStart, matchLength)
    {
      hide Latest, Thorough, Chained, Shows, Before, Primed, Entry, HashAt, MatchAt, GoodMatch, Proper;
      tried := 0;
      if lookahead >= MIN_MATCH && (hashHead == NIL || strstart - hashHead > MaxDist(c)) { SearchedNone(hashHead, prevLength); }
      if hashHead != NIL && strstart - hashHead <= MaxDist(c) {
        ghost var candidates;
        matchLength, matchStart, candidates := LongestMatch(window, prev, c, strstart, lookahead, hashHead, prevLength, maxChain,
          goodMatch, niceMatch, matchStart, hist, base, ins, head[..]);
        tried := |candidates|;
        if matchLength >= MIN_MATCH {
          MatchShown(c, window[..], hist, base, strstart, lookahead, matchStart, matchLength);
        }
      }
    }

    /** A match is emitted; its strings are inserted if it is short enough. */
    method TakeMatch() returns (bflush: bool)
      requires Shape() && Data() && Dict(strstart + 1) && strstart + MIN_LOOKAHEAD <= window.Length
      requires MIN_MATCH <= matchLength <= lookahead && MatchAt(c, hist, base + strstart, strstart - matchStart, matchLength)
      requires !matchAvailable && prevLength == 2 && Stand(c, tokens, hist, base + strstart)
      modifies this`tokens, this`symNext, this`strstart, this`lookahead, this`matchLength, this`insH, this`ins, head, prev
      ensures Shape() && Data() && Dict(strstart) && Idle() && Stand(c, tokens, hist, base + strstart)
      ensures tokens == old(tokens) + [Match(old(strstart) - matchStart, old(matchLength))]
      ensures lookahead < old(lookahead) && base + strstart + lookahead == old(base + strstart + lookahead)
    {
      hide Sorted, Keyed, Shows, MatchAt, Stand;
      ghost var end := strstart + lookahead;
      MatchBounds(c, hist, base + strstart, strstart - matchStart, matchLength);
      StandMatch(c, tokens, hist, base + strstart, strstart - matchStart, matchLength);
      bflush := Tally(Match(strstart - matchStart, matchLength));
      lookahead := lookahead - matchLength;
      if matchLength <= maxLazy && lookahead >= MIN_MATCH {
        InsertAll(end);
      } else {
        SortedAdvance(strstart + 1, strstart + matchLength);
        strstart := strstart + matchLength;
        matchLength := 0;
        Rekey();
      }
    }

    /** The strings of a match are inserted; all of them have three bytes. */
    method InsertAll(ghost end: int)
      requires Shape() && 0 <= strstart && Shows(window[..], hist, base, end) && |hist| == base + end && Dict(strstart + 1)
      requires matchLength >= MIN_MATCH && strstart + matchLength + lookahead == end && lookahead >= MIN_MATCH
      modifies this`strstart, this`matchLength, this`insH, this`ins, head, prev
      ensures Dict(strstart) && matchLength == 0 && strstart == old(strstart + matchLength)
    {
      hide Shape, Sorted, Keyed, Shows, HashAt, Entry;
      ghost var target := strstart + matchLength;
      matchLength := matchLength - 1;
      while matchLength != 0
        invariant 0 <= matchLength && strstart + matchLength + 1 == target && 0 <= strstart && Dict(strstart + 1)
        decreases matchLength
      {
        strstart := strstart + 1;
        var hashHead := Insert(strstart, end);
        matchLength := matchLength - 1;
      }
      strstart := strstart + 1;
    }

    lemma SortedAdvance(t: int, t': int)
      requires Sorted(t) && t <= t'
      ensures Sorted(t') && 0 <= base
    {
      hide Chained;
      ChainedAdvance(c, hist, base, t, t', ins, head[..], prev[..]);
    }

    /** The running key starts afresh; beyond the lookahead it is garbage, and is not used. */
    method Rekey()
      requires Shape() && Data() && strstart + 1 < window.Length && 0 <= base
      modifies this`insH
      ensures Keyed(strstart)
    {
      hide Primed, Update, Shows;
      if lookahead >= MIN_MATCH {
        ShownAt(window[..], hist, base, strstart + lookahead, strstart);
        ShownAt(window[..], hist, base, strstart + lookahead, strstart + 1);
      }
      PrimedFresh(c.hash, window[strstart], window[strstart + 1]);
      insH := window[strstart];
      insH := Update(c.hash, insH, window[strstart + 1]);
    }

    /** The current byte goes out as a literal. */
    method TakeByte() returns (bflush: bool)
      requires Shape() && Data() && Dict(strstart + 1) && lookahead >= 1 && Stand(c, tokens, hist, base + strstart)
      modifies this`tokens, this`symNext, this`strstart, this`lookahead
      ensures Data() && Dict(strstart) && Stand(c, tokens, hist, base + strstart)
      ensures tokens == old(tokens) + [Literal(window[old(strstart)])]
      ensures lookahead == old(lookahead) - 1 && base + strstart + lookahead == old(base + strstart + lookahead)
    {
      hide Shape, Sorted, Keyed, Stand, Shows;
      ShownAt(window[..], hist, base, strstart + lookahead, strstart);
      StandLiteral(c, tokens, hist, base + strstart);
      bflush := Tally(Literal(window[strstart]));
      lookahead := lookahead - 1;
      strstart := strstart + 1;
    }

    /** The body of deflate_fast's loop, with lookahead in place. */
    method FastStep() returns (stop: bool, ghost found: int, ghost tried: nat)
      requires Running() && Idle() && lookahead >= 1 && strstart + MIN_LOOKAHEAD <= window.Length
      modifies this`tokens, this`symNext, this`strstart, this`lookahead, this`matchLength, this`matchStart,
               this`insH, this`ins, head, prev
      ensures Running() && Idle() && lookahead < old(lookahead)
      ensures base + strstart + lookahead == old(base + strstart + lookahead)
      ensures old(lookahead) >= MIN_MATCH ==>
        Thorough(c, window[..], base, old(strstart), old(ins), old(lookahead), found, tried, niceMatch,
                 Patience(maxChain, MIN_MATCH - 1, goodMatch))
      ensures 0 <= old(strstart) < window.Length && tokens == old(tokens) +
        [if found >= MIN_MATCH then Match(old(strstart) - matchStart, found) else Literal(window[old(strstart)])]
    {
      hide Shape, Data, Dict, LastMatch, Stand, Entry, HashAt, MatchAt, FromHead, Thorough;
      Bounds();
      ghost var ins0 := ins;
      var hashHead := InsertCurrent();
      tried := FastLook(hashHead);
      found := if matchLength < MIN_MATCH then 2 else matchLength;
      if lookahead >= MIN_MATCH {
        ThoroughLess(c, window[..], base, strstart, ins0, ins, lookahead, found, tried, niceMatch,
                     Patience(maxChain, MIN_MATCH - 1, goodMatch));
      }
      var bflush;
      if matchLength >= MIN_MATCH {
        bflush := TakeMatch();
      } else {
        bflush := TakeByte();
      }
      NoMatch();
      stop := false;
      if bflush { stop := FlushBlock(); }
    }

    /** deflate_fast. Whenever it returns, the tokens stand for the input up to the current byte; when it says
        so, for all of it. */
    method DeflateFast(flush: Flush) returns (state: BlockState)
      requires Running() && Idle()
      modifies this, window, head, prev
      ensures Valid() && 0 <= highWater && Idle()
      ensures hist + input == old(hist + input)
      ensures state == NeedMore ==> insert == 0
      ensures state == NeedMore ==> (flush == NoFlush && input == []) || |input| + lookahead < |old(input)| + old(lookahead)
      ensures state != NeedMore ==> flush == Finish && input == [] && lookahead == 0 && Stand(c, tokens, hist, |hist|)
    {
      hide Shape, Data, Dict, Pending, Stand;
      ghost var start := |input| + lookahead;
      while true
        invariant Running() && Idle() && hist + input == old(hist + input)
        invariant |input| + lookahead <= start
        decreases |input| + lookahead
      {
        Bounds();
        if lookahead < MIN_LOOKAHEAD {
          FillWindow();
          if lookahead < MIN_LOOKAHEAD && flush == NoFlush { return NeedMore; }
          if lookahead == 0 { break; }
        }
        Bounds();
        var stop;
        ghost var found, tried;
        stop, found, tried := FastStep();
        Bounds();
        if stop { return NeedMore; }
      }
      Bounds();
      insert := if strstart < MIN_MATCH - 1 then strstart else MIN_MATCH - 1;
      var full := FlushBlock();
      state := if full then FinishStarted else FinishDone;
    }

    /** The next chunk of input. */
    method Feed(s: seq<byte>)
      requires Running()
      modifies this`input
      ensures Running() && input == old(input) + s
    {
      hide Shape, Data, Dict, Pending, Stand;
      input := input + s;
    }
  }

  // ----- whole runs

  ghost function Concat(chunks: seq<seq<byte>>): seq<byte> {
    if chunks == [] then [] else Concat(chunks[..|chunks| - 1]) + chunks[|chunks| - 1]
  }

  /** Any run of deflate_slow: any number of calls, each adding any chunk of input (or none) to what is left over,
      and calls that finish, the first of which may still bring input. The output may be full at any time. The tokens
      stand for exactly the input, with legal lengths and distances. */
  method RunSlow(c: Config, tuning: Tuning, symEnd: nat, chunks: seq<seq<byte>>, last: seq<byte>)
    returns (tokens: seq<Token>)
    requires ProperConfig(c)
    ensures Expand(tokens) == Some(Concat(chunks) + last) && AllLegal(tokens, c.wsize)
  {
    hide Compressor.Valid;
    var z := new Compressor(c, tuning, symEnd);
    assert z.Running();
    var k := 0;
    assert chunks[..0] == [];
    while k < |chunks|
      invariant 0 <= k <= |chunks| && z.Running() && 2 <= z.matchLength <= MAX_MATCH
      invariant z.hist + z.input == Concat(chunks[..k])
    {
      assert chunks[..k + 1][..k] == chunks[..k];
      ghost var sofar := z.hist + z.input;
      z.Feed(chunks[k]);
      assert z.hist + z.input == sofar + chunks[k];
      z.RunningBounds();
      var state := z.DeflateSlow(NoFlush);
      z.RunningBounds();
      k := k + 1;
    }
    assert chunks[..k] == chunks;
    ghost var sofar := z.hist + z.input;
    z.Feed(last);
    assert z.hist + z.input == sofar + last;
    var state := NeedMore;
    while state == NeedMore
      invariant state == NeedMore ==> z.Running() && 2 <= z.matchLength <= MAX_MATCH
      invariant z.hist + z.input == Concat(chunks) + last
      invariant state != NeedMore ==> z.input == [] && Stand(z.c, z.tokens, z.hist, |z.hist|)
      decreases if state == NeedMore then |z.input| + z.lookahead + 1 else 0
    {
      z.RunningBounds();
      state := z.DeflateSlow(Finish);
      if state == NeedMore { z.RunningBounds(); }
    }
    assert z.hist + [] == z.hist;
    assert z.hist[..|z.hist|] == z.hist;
    tokens := z.tokens;
  }

  /** Any run of deflate_fast. */
  method RunFast(c: Config, tuning: Tuning, symEnd: nat, chunks: seq<seq<byte>>, last: seq<byte>)
    returns (tokens: seq<Token>)
    requires ProperConfig(c)
    ensures Expand(tokens) == Some(Concat(chunks) + last) && AllLegal(tokens, c.wsize)
  {
    hide Compressor.Valid;
    var z := new Compressor(c, tuning, symEnd);
    assert z.Running();
    var k := 0;
    assert chunks[..0] == [];
    while k < |chunks|
      invariant 0 <= k <= |chunks| && z.Running() && z.Idle()
      invariant z.hist + z.input == Concat(chunks[..k])
    {
      assert chunks[..k + 1][..k] == chunks[..k];
      ghost var sofar := z.hist + z.input;
      z.Feed(chunks[k]);
      assert z.hist + z.input == sofar + chunks[k];
      z.RunningBounds();
      var state := z.DeflateFast(NoFlush);
      z.RunningBounds();
      k := k + 1;
    }
    assert chunks[..k] == chunks;
    ghost var sofar := z.hist + z.input;
    z.Feed(last);
    assert z.hist + z.input == sofar + last;
    var state := NeedMore;
    while state == NeedMore
      invariant state == NeedMore ==> z.Running() && z.Idle()
      invariant z.hist + z.input == Concat(chunks) + last
      invariant state != NeedMore ==> z.input == [] && Stand(z.c, z.tokens, z.hist, |z.hist|)
      decreases if state == NeedMore then |z.input| + z.lookahead + 1 else 0
    {
      z.RunningBounds();
      state := z.DeflateFast(Finish);
      if state == NeedMore { z.RunningBounds(); }
    }
    assert z.hist + [] == z.hist;
    assert z.hist[..|z.hist|] == z.hist;
    tokens := z.tokens;
  }

  /** zmemcpy into the window: it then shows more of the input. */
  method CopyIn(window: array<byte>, at: int, s: seq<byte>, ghost hist: seq<byte>, ghost base: int)
    requires 0 <= at && at + |s| <= window.Length && Shows(window[..], hist, base, at) && |hist| == base + at
    modifies window
    ensures Shows(window[..], hist + s, base, at + |s|)
  {
    hide Shows;
    ghost var w0 := window[..];
    var k := 0;
    while k < |s|
      invariant 0 <= k <= |s| && window[..at] == w0[..at]
      invariant forall j :: 0 <= j < k ==> window[at + j] == s[j]
    {
      ghost var w := window[..];
      window[at + k] := s[k];
      assert window[..] == w[at + k := s[k]];
      k := k + 1;
    }
    ShowsMore(w0, window[..], hist, base, at, s);
  }

  method Zero(window: array<byte>, at: int, n: int)
    requires 0 <= at && 0 <= n && at + n <= window.Length
    modifies window
    ensures window[..at] == old(window[..at])
  {
    var k := 0;
    while k < n
      invariant 0 <= k <= n && window[..at] == old(window[..at])
    {
      ghost var w := window[..];
      window[at + k] := 0;
      assert window[..] == w[at + k := 0];
      k := k + 1;
    }
  }

  lemma ShowsMore(w: seq<byte>, w': seq<byte>, hist: seq<byte>, base: int, end: int, bytes: seq<byte>)
    requires Shows(w, hist, base, end) && |hist| == base + end && |w'| == |w| && end + |bytes| <= |w|
    requires w'[..end] == w[..end] && w'[end..end + |bytes|] == bytes
    ensures Shows(w', hist + bytes, base, end + |bytes|)
  {
    assert w'[..end + |bytes|] == w'[..end] + w'[end..end + |bytes|];
    assert (hist + bytes)[base..base + end + |bytes|] == hist[base..base + end] + bytes;
  }

  lemma ShowsKept(w: seq<byte>, w': seq<byte>, hist: seq<byte>, base: int, end: int)
    requires Shows(w, hist, base, end) && |w'| == |w| && exists at :: end <= at <= |w| && w'[..at] == w[..at]
    ensures Shows(w', hist, base, end)
  {
    var at :| end <= at <= |w| && w'[..at] == w[..at];
    assert w'[..end] == w'[..at][..end] && w[..end] == w[..at][..end];
  }

  /** zmemcpy within the window: `n` bytes from `from` on go to the start. */
  method MoveDown(window: array<byte>, from: int, n: int)
    requires 0 <= n <= from && from + n <= window.Length
    modifies window
    ensures window[..n] == old(window[from..from + n]) && window[from..] == old(window[from..])
  {
    ghost var w := window[..];
    var k := 0;
    while k < n
      invariant 0 <= k <= n
      invariant forall j :: 0 <= j < k ==> window[j] == w[from + j]
      invariant forall j :: k <= j < window.Length ==> window[j] == w[j]
    {
      window[k] := window[from + k];
      k := k + 1;
    }
  }

  lemma ShowsMoved(w: seq<byte>, w': seq<byte>, hist: seq<byte>, base: int, end: int, wsize: int)
    requires Shows(w, hist, base, end) && 0 < wsize <= end && |w'| == |w|
    requires w'[..end - wsize] == w[wsize..end]
    ensures Shows(w', hist, base + wsize, end - wsize)
  {
    SliceOfSlice(w, 0, end, wsize, end);
    SliceOfSlice(hist, base, base + end, wsize, end);
    assert w[0..end] == w[..end];
  }
}
