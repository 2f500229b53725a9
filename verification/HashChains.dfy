/** The string dictionary of deps/zlib/deflate.c: INSERT_STRING, slide_hash and longest_match.
    Positions are window indices; `base` is the place of window index 0 in the whole input `hist`. */
module HashChains {
  import opened Counting
  import opened Powers
  import opened RollingHash

  const MIN_MATCH := 3
  const MAX_MATCH := 258
  const MIN_LOOKAHEAD := MAX_MATCH + MIN_MATCH + 1
  const NIL := 0

  /** Window size and hash parameters. */
  datatype Config = Config(wsize: nat, hash: HashSize)

  /** What deflateInit2_ sets up: windows of 512 to 32768 bytes. */
  ghost predicate ProperConfig(c: Config) {
    512 <= c.wsize <= 0x8000 && Proper(c.hash)
  }

  /** MAX_DIST */
  function MaxDist(c: Config): int { c.wsize - MIN_LOOKAHEAD }

  /** The key of the three bytes at `a`. */
  ghost function HashAt(c: Config, hist: seq<byte>, a: int): nat
    requires 0 <= a && a + 2 < |hist|
  {
    Hash3(c.hash, hist[a], hist[a + 1], hist[a + 2])
  }

  /** `q` is the index of an inserted string with key `key`. */
  ghost predicate Entry(c: Config, hist: seq<byte>, base: int, ins: set<int>, q: int, key: nat) {
    && 0 < q && base + q in ins && 0 <= base + q && base + q + 2 < |hist|
    && HashAt(c, hist, base + q) == key
  }

  /** The link of the string at `a` ends the chain, or leads to an earlier string with the same key. */
  ghost predicate LinkOK(c: Config, hist: seq<byte>, base: int, ins: set<int>, prev: seq<int>, a: int)
    requires c.wsize > 0 && |prev| == c.wsize
  {
    var q := prev[a % c.wsize];
    && 0 <= a && a + 2 < |hist|
    && (q == NIL || (base + q < a && Entry(c, hist, base, ins, q, HashAt(c, hist, a))))
  }

  /** The dictionary is in order when the current string is at index `s`: `head` starts chains of
      the right key, and the links of strings less than a window away are good. `ins` holds the
      places in `hist` of all strings inserted so far. */
  ghost predicate Chained(c: Config, hist: seq<byte>, base: int, s: int, ins: set<int>, head: seq<int>, prev: seq<int>) {
    && 0 < c.wsize && |head| == Pow2(c.hash.bits) && |prev| == c.wsize && 0 <= base && base % c.wsize == 0
    && (forall h :: 0 <= h < |head| ==> head[h] == NIL || Entry(c, hist, base, ins, head[h], h))
    && (forall a :: a in ins && base < a && base + s < a + c.wsize ==> LinkOK(c, hist, base, ins, prev, a))
    && Shown(hist, ins) && NoneBehind(c, hist, base, ins, head) && NoneBetween(c, hist, base, s, ins, prev)
  }

  /** All strings inserted have three bytes. */
  ghost predicate Shown(hist: seq<byte>, ins: set<int>) {
    forall a :: a in ins ==> 0 <= a && a + 2 < |hist|
  }

  /** No string with key `key` before `s` was inserted after the one at index `q`; if `q` is NIL, none but at index 0 or
      before the window. */
  ghost predicate Latest(c: Config, hist: seq<byte>, base: int, ins: set<int>, key: int, s: int, q: int)
    requires Shown(hist, ins)
  {
    forall b :: b in ins && b < s && HashAt(c, hist, b) == key ==> b <= base + q
  }

  /** Every chain starts with the last string that has its key. */
  ghost predicate NoneBehind(c: Config, hist: seq<byte>, base: int, ins: set<int>, head: seq<int>)
    requires Shown(hist, ins)
  {
    forall h :: 0 <= h < |head| ==> Latest(c, hist, base, ins, h, |hist|, head[h])
  }

  /** Every link leads to the last string before it that has the same key. */
  ghost predicate NoneBetween(c: Config, hist: seq<byte>, base: int, s: int, ins: set<int>, prev: seq<int>)
    requires c.wsize > 0 && |prev| == c.wsize && Shown(hist, ins)
  {
    forall a :: a in ins && base < a && base + s < a + c.wsize ==>
      Latest(c, hist, base, ins, HashAt(c, hist, a), a, prev[a % c.wsize])
  }

  /** All strings were inserted before `t`. */
  ghost predicate Before(ins: set<int>, t: int) {
    forall a :: a in ins ==> a < t
  }

  /** CLEAR_HASH leaves an empty dictionary. */
  lemma ChainedEmpty(c: Config, head: seq<int>, prev: seq<int>)
    requires 0 < c.wsize && |head| == Pow2(c.hash.bits) && |prev| == c.wsize
    requires forall h :: 0 <= h < |head| ==> head[h] == NIL
    ensures Chained(c, [], 0, 0, {}, head, prev)
  {
  }

  /** More input does not disturb the dictionary. */
  lemma ChainedGrow(c: Config, hist: seq<byte>, more: seq<byte>, base: int, s: int, ins: set<int>, head: seq<int>, prev: seq<int>)
    requires Chained(c, hist, base, s, ins, head, prev)
    ensures Chained(c, hist + more, base, s, ins, head, prev)
  {
    forall h | 0 <= h < |head| && head[h] != NIL ensures Entry(c, hist + more, base, ins, head[h], h) {
      assert Entry(c, hist, base, ins, head[h], h);
    }
    forall a | a in ins && base < a && base + s < a + c.wsize ensures LinkOK(c, hist + more, base, ins, prev, a) {
      assert LinkOK(c, hist, base, ins, prev, a);
    }
    LatestGrow(c, hist, more, base, s, ins, head, prev);
  }

  lemma LatestGrow(c: Config, hist: seq<byte>, more: seq<byte>, base: int, s: int, ins: set<int>, head: seq<int>, prev: seq<int>)
    requires 0 < c.wsize == |prev| && Shown(hist, ins)
    requires NoneBehind(c, hist, base, ins, head) && NoneBetween(c, hist, base, s, ins, prev)
    ensures Shown(hist + more, ins)
    ensures NoneBehind(c, hist + more, base, ins, head) && NoneBetween(c, hist + more, base, s, ins, prev)
  {
    hide Hash3;
    forall h | 0 <= h < |head| ensures Latest(c, hist + more, base, ins, h, |hist + more|, head[h]) {
      forall b | b in ins && HashAt(c, hist + more, b) == h ensures b <= base + head[h] {
        assert HashAt(c, hist, b) == h;
        assert Latest(c, hist, base, ins, h, |hist|, head[h]);
      }
    }
    forall a | a in ins && base < a && base + s < a + c.wsize
      ensures Latest(c, hist + more, base, ins, HashAt(c, hist + more, a), a, prev[a % c.wsize])
    {
      assert Latest(c, hist, base, ins, HashAt(c, hist, a), a, prev[a % c.wsize]);
      forall b | b in ins && b < a && HashAt(c, hist + more, b) == HashAt(c, hist + more, a) ensures b <= base + prev[a % c.wsize] {
        assert HashAt(c, hist, b) == HashAt(c, hist, a);
      }
    }
  }

  /** Moving on only makes fewer links matter. */
  lemma ChainedAdvance(c: Config, hist: seq<byte>, base: int, s: int, s': int, ins: set<int>, head: seq<int>, prev: seq<int>)
    requires Chained(c, hist, base, s, ins, head, prev) && s <= s'
    ensures Chained(c, hist, base, s', ins, head, prev)
  {
  }

  // ----- INSERT_STRING

  lemma ModBase(base: int, x: int, w: int)
    requires w > 0 && base % w == 0
    ensures (base + x) % w == x % w
  {
    var q, r := x / w, x % w;
    assert base == (base / w) * w;
    assert (base / w) * w + q * w == (base / w + q) * w;
    DivUnique(base + x, w, base / w + q, r);
  }

  /** Two strings less than a window apart use different slots of `prev`. */
  lemma SlotsDiffer(a: int, b: int, w: int)
    requires w > 0 && a < b < a + w
    ensures a % w != b % w
  {
    var q, r := a / w, a % w;
    var d := b - a;
    if r + d < w {
      DivUnique(b, w, q, r + d);
    } else {
      assert (q + 1) * w == q * w + w;
      DivUnique(b, w, q + 1, r + d - w);
    }
  }

  lemma InsertKeeps(c: Config, hist: seq<byte>, base: int, s: int, ins: set<int>, head: seq<int>, prev: seq<int>, key: nat)
    requires Chained(c, hist, base, s, ins, head, prev) && Before(ins, base + s)
    requires 0 <= s && base + s + 2 < |hist| && key == HashAt(c, hist, base + s) < |head|
    ensures 0 <= s % c.wsize < |prev|
    ensures Chained(c, hist, base, s, ins + {base + s}, head[key := s], prev[s % c.wsize := head[key]])
    ensures Before(ins + {base + s}, base + s + 1)
    ensures Latest(c, hist, base, ins, key, base + s, head[key])
  {
    hide HashAt, NoneBehind, NoneBetween, Latest;
    LatestInsert(c, hist, base, s, ins, head, prev, key);
    var ins', head', prev' := ins + {base + s}, head[key := s], prev[s % c.wsize := head[key]];
    ModBase(base, s, c.wsize);
    forall h | 0 <= h < |head'| && head'[h] != NIL ensures Entry(c, hist, base, ins', head'[h], h) {
      if h != key { assert Entry(c, hist, base, ins, head[h], h); }
    }
    forall a | a in ins' && base < a && base + s < a + c.wsize ensures LinkOK(c, hist, base, ins', prev', a) {
      if a == base + s {
        assert head[key] == NIL || Entry(c, hist, base, ins, head[key], key);
      } else {
        SlotsDiffer(a, base + s, c.wsize);
        assert LinkOK(c, hist, base, ins, prev, a);
      }
    }
  }

  lemma LatestInsert(c: Config, hist: seq<byte>, base: int, s: int, ins: set<int>, head: seq<int>, prev: seq<int>, key: nat)
    requires 0 < c.wsize == |prev| && 0 <= base && base % c.wsize == 0 && Shown(hist, ins) && Before(ins, base + s)
    requires NoneBehind(c, hist, base, ins, head) && NoneBetween(c, hist, base, s, ins, prev)
    requires 0 <= s && base + s + 2 < |hist| && key == HashAt(c, hist, base + s) < |head|
    ensures 0 <= s % c.wsize < |prev| && Shown(hist, ins + {base + s})
    ensures NoneBehind(c, hist, base, ins + {base + s}, head[key := s])
    ensures NoneBetween(c, hist, base, s, ins + {base + s}, prev[s % c.wsize := head[key]])
    ensures Latest(c, hist, base, ins, key, base + s, head[key])
  {
    hide HashAt;
    var ins', head', prev' := ins + {base + s}, head[key := s], prev[s % c.wsize := head[key]];
    ModBase(base, s, c.wsize);
    assert Latest(c, hist, base, ins, key, |hist|, head[key]);
    forall h | 0 <= h < |head'| ensures Latest(c, hist, base, ins', h, |hist|, head'[h]) {
      assert Latest(c, hist, base, ins, h, |hist|, head[h]);
    }
    forall a | a in ins' && base < a && base + s < a + c.wsize
      ensures Latest(c, hist, base, ins', HashAt(c, hist, a), a, prev'[a % c.wsize])
    {
      if a != base + s {
        SlotsDiffer(a, base + s, c.wsize);
        assert Latest(c, hist, base, ins, HashAt(c, hist, a), a, prev[a % c.wsize]);
      }
    }
  }

  /** INSERT_STRING: the string at index `str` becomes the head of its chain. */
  method InsertString(head: array<int>, prev: array<int>, insH: nat, str: int, last: byte, c: Config,
                      ghost hist: seq<byte>, ghost base: int, ghost ins: set<int>)
    returns (insH': nat, matchHead: int)
    requires head != prev && Proper(c.hash) && Chained(c, hist, base, str, ins, head[..], prev[..])
    requires Before(ins, base + str) && 0 <= str && base + str + 2 < |hist| && last == hist[base + str + 2]
    requires Primed(c.hash, insH, hist[base + str], hist[base + str + 1])
    modifies head, prev
    ensures Chained(c, hist, base, str, ins + {base + str}, head[..], prev[..])
    ensures Before(ins + {base + str}, base + str + 1)
    ensures matchHead == NIL || (matchHead < str && Entry(c, hist, base, ins, matchHead, HashAt(c, hist, base + str)))
    ensures Latest(c, hist, base, ins, HashAt(c, hist, base + str), base + str, matchHead)
    ensures Primed(c.hash, insH', hist[base + str + 1], hist[base + str + 2])
  {
    hide Update, Hash3;
    PrimedStep(c.hash, insH, hist[base + str], hist[base + str + 1], last);
    assert Update(c.hash, insH, last) == HashAt(c, hist, base + str);
    insH' := Update(c.hash, insH, last);
    InsertKeeps(c, hist, base, str, ins, head[..], prev[..], insH');
    ghost var h, p := head[..], prev[..];
    matchHead := head[insH'];
    prev[str % c.wsize] := matchHead;
    head[insH'] := str;
    assert head[..] == h[insH' := str] && prev[..] == p[str % c.wsize := matchHead];
  }

  // ----- slide_hash

  /** An index after the window has moved up by `wsize`. */
  function Slid(m: int, wsize: int): int {
    if m >= wsize then m - wsize else NIL
  }

  method SlideTable(t: array<int>, wsize: int)
    modifies t
    ensures forall k :: 0 <= k < t.Length ==> t[k] == Slid(old(t[k]), wsize)
  {
    var n := t.Length;
    while n > 0
      invariant 0 <= n <= t.Length
      invariant forall k :: 0 <= k < n ==> t[k] == old(t[k])
      invariant forall k :: n <= k < t.Length ==> t[k] == Slid(old(t[k]), wsize)
    {
      n := n - 1;
      var m := t[n];
      t[n] := if m >= wsize then m - wsize else NIL;
    }
  }

  lemma SlideKeeps(c: Config, hist: seq<byte>, base: int, s: int, ins: set<int>, head: seq<int>, prev: seq<int>,
                   head': seq<int>, prev': seq<int>)
    requires Chained(c, hist, base, s, ins, head, prev) && |head'| == |head| && |prev'| == |prev|
    requires forall h :: 0 <= h < |head| ==> head'[h] == Slid(head[h], c.wsize)
    requires forall k :: 0 <= k < |prev| ==> prev'[k] == Slid(prev[k], c.wsize)
    ensures Chained(c, hist, base + c.wsize, s - c.wsize, ins, head', prev')
  {
    hide HashAt, NoneBehind, NoneBetween, Latest;
    var base' := base + c.wsize;
    LatestSlide(c, hist, base, s, ins, head, prev, head', prev');
    ModBase(base, c.wsize, c.wsize);
    assert c.wsize % c.wsize == 0 by { DivUnique(c.wsize, c.wsize, 1, 0); }
    forall h | 0 <= h < |head'| && head'[h] != NIL ensures Entry(c, hist, base', ins, head'[h], h) {
      assert Entry(c, hist, base, ins, head[h], h);
    }
    forall a | a in ins && base' < a && base' + (s - c.wsize) < a + c.wsize ensures LinkOK(c, hist, base', ins, prev', a) {
      assert LinkOK(c, hist, base, ins, prev, a);
    }
  }

  lemma LatestSlide(c: Config, hist: seq<byte>, base: int, s: int, ins: set<int>, head: seq<int>, prev: seq<int>,
                    head': seq<int>, prev': seq<int>)
    requires 0 < c.wsize == |prev| && Shown(hist, ins) && |head'| == |head| && |prev'| == |prev|
    requires NoneBehind(c, hist, base, ins, head) && NoneBetween(c, hist, base, s, ins, prev)
    requires forall h :: 0 <= h < |head| ==> head'[h] == Slid(head[h], c.wsize)
    requires forall k :: 0 <= k < |prev| ==> prev'[k] == Slid(prev[k], c.wsize)
    ensures NoneBehind(c, hist, base + c.wsize, ins, head') && NoneBetween(c, hist, base + c.wsize, s - c.wsize, ins, prev')
  {
    hide HashAt;
    forall h | 0 <= h < |head'| ensures Latest(c, hist, base + c.wsize, ins, h, |hist|, head'[h]) {
      assert Latest(c, hist, base, ins, h, |hist|, head[h]);
    }
    forall a | a in ins && base + c.wsize < a && base + s < a + c.wsize
      ensures Latest(c, hist, base + c.wsize, ins, HashAt(c, hist, a), a, prev'[a % c.wsize])
    {
      assert Latest(c, hist, base, ins, HashAt(c, hist, a), a, prev[a % c.wsize]);
    }
  }

  /** slide_hash: all chains survive, cut off where they leave the window. */
  method SlideHash(head: array<int>, prev: array<int>, c: Config, ghost hist: seq<byte>, ghost base: int, ghost s: int, ghost ins: set<int>)
    requires head != prev && Chained(c, hist, base, s, ins, head[..], prev[..])
    modifies head, prev
    ensures Chained(c, hist, base + c.wsize, s - c.wsize, ins, head[..], prev[..])
  {
    hide Chained;
    ghost var h, p := head[..], prev[..];
    SlideTable(head, c.wsize);
    SlideTable(prev, c.wsize);
    ChainedSizes(c, hist, base, s, ins, h, p);
    SlideKeeps(c, hist, base, s, ins, h, p, head[..], prev[..]);
  }

  lemma ChainedSizes(c: Config, hist: seq<byte>, base: int, s: int, ins: set<int>, head: seq<int>, prev: seq<int>)
    requires Chained(c, hist, base, s, ins, head, prev)
    ensures Shown(hist, ins)
    ensures 0 < c.wsize == |prev| && |head| == Pow2(c.hash.bits) && 0 <= base
  {
  }

  // ----- longest_match

  /** The window shows the input from `base` on, up to index `end`. */
  ghost predicate Shows(window: seq<byte>, hist: seq<byte>, base: int, end: int) {
    0 <= base && 0 <= end <= |window| && base + end <= |hist| && window[..end] == hist[base..base + end]
  }

  /** The first `n` bytes at `p` and `q` are equal. */
  ghost predicate Equal(window: seq<byte>, p: int, q: int, n: int) {
    0 <= n && 0 <= p && p + n <= |window| && 0 <= q && q + n <= |window| && window[p..p + n] == window[q..q + n]
  }

  /** No match with the string at `q`, cut at `most`, is longer than `len`. */
  ghost predicate Beaten(window: seq<byte>, s: int, q: int, len: int, most: int) {
    forall n :: Equal(window, s, q, n) && n <= most ==> n <= len
  }

  /** These candidates follow each other on the chain that starts at `first`. */
  ghost predicate OnChain(prev: seq<int>, first: int, tried: seq<int>)
    requires |prev| > 0
  {
    && tried != [] && tried[0] == first
    && forall k {:trigger tried[k]} :: 0 < k < |tried| ==> tried[k] == prev[tried[k - 1] % |prev|]
  }

  ghost predicate AllBeaten(window: seq<byte>, s: int, tried: seq<int>, len: int, most: int) {
    forall k :: 0 <= k < |tried| ==> Beaten(window, s, tried[k], len, most)
  }

  lemma BeatenBy(window: seq<byte>, s: int, tried: seq<int>, len: int, len': int, most: int, cut: int)
    requires AllBeaten(window, s, tried, len, most) && cut <= most && Least(len, cut) <= len'
    ensures AllBeaten(window, s, tried, len', cut)
  {
    hide Equal;
    forall k | 0 <= k < |tried| ensures Beaten(window, s, tried[k], len', cut) {
      assert Beaten(window, s, tried[k], len, most);
    }
  }

  function Least(a: int, b: int): int { if a <= b then a else b }

  /** Where two strings differ, no match is longer. */
  lemma DifferAt(window: seq<byte>, s: int, q: int, k: int, most: int)
    requires 0 <= k && 0 <= s && s + k < |window| && 0 <= q && q + k < |window| && window[s + k] != window[q + k]
    ensures Beaten(window, s, q, k, most)
  {
    hide Equal;
    forall n | Equal(window, s, q, n) && n <= most ensures n <= k {
      EqualAt(window, s, q, n, k);
    }
  }

  lemma EqualAt(window: seq<byte>, p: int, q: int, n: int, k: int)
    ensures Equal(window, p, q, n) && 0 <= k < n ==>
      0 <= p && p + n <= |window| && 0 <= q && q + n <= |window| && window[p + k] == window[q + k]
  {
    if Equal(window, p, q, n) && 0 <= k < n {
      assert window[p..p + n][k] == window[q..q + n][k];
    }
  }

  lemma EqualNext(window: seq<byte>, p: int, q: int, n: int)
    requires Equal(window, p, q, n) && p + n < |window| && q + n < |window| && window[p + n] == window[q + n]
    ensures Equal(window, p, q, n + 1)
  {
    assert window[p..p + n + 1] == window[p..p + n] + [window[p + n]];
    assert window[q..q + n + 1] == window[q..q + n] + [window[q + n]];
  }

  lemma ShownAt(window: seq<byte>, hist: seq<byte>, base: int, end: int, k: int)
    requires Shows(window, hist, base, end) && 0 <= k < end
    ensures k < |window| && 0 <= base + k < |hist| && window[k] == hist[base + k]
  {
    assert window[..end][k] == hist[base..base + end][k];
  }

  /** The third byte of a candidate is never compared: equal keys vouch for it. */
  lemma ThirdByteEqual(c: Config, hist: seq<byte>, window: seq<byte>, base: int, end: int, ins: set<int>, s: int, cur: int)
    requires Proper(c.hash) && Shows(window, hist, base, end) && 0 <= s && s + 3 <= end && cur < s
    requires base + s + 2 < |hist| && Entry(c, hist, base, ins, cur, HashAt(c, hist, base + s))
    requires window[cur] == window[s] && window[cur + 1] == window[s + 1]
    ensures Equal(window, s, cur, 3)
  {
    hide Hash3, Shows;
    ShownAt(window, hist, base, end, s);
    ShownAt(window, hist, base, end, s + 1);
    ShownAt(window, hist, base, end, s + 2);
    ShownAt(window, hist, base, end, cur);
    ShownAt(window, hist, base, end, cur + 1);
    ShownAt(window, hist, base, end, cur + 2);
    ThirdByte(c.hash, window[s], window[s + 1], window[s + 2], window[cur + 2]);
    EqualNext(window, s, cur, 0);
    EqualNext(window, s, cur, 1);
    EqualNext(window, s, cur, 2);
  }

  /** The unrolled comparison: eight bytes at a time, from index 3 up to 258. */
  method MatchLength(window: array<byte>, scan0: int, match0: int) returns (len: int)
    requires 0 <= match0 < scan0 && scan0 + MAX_MATCH < window.Length && Equal(window[..], scan0, match0, 3)
    ensures 3 <= len <= MAX_MATCH && Equal(window[..], scan0, match0, len)
    ensures len == MAX_MATCH || window[scan0 + len] != window[match0 + len]
  {
    hide Equal;
    EqualHead(window[..], scan0, match0);
    var scan := 2;
    var go := true;
    while go
      invariant 2 <= scan <= MAX_MATCH && Equal(window[..], scan0, match0, scan)
      invariant go ==> scan % 8 == 2 && scan < MAX_MATCH && window[scan0 + scan] == window[match0 + scan]
      invariant !go ==> scan >= 3 && (scan == MAX_MATCH || window[scan0 + scan] != window[match0 + scan])
      decreases MAX_MATCH - scan, if go then 1 else 0
    {
      ghost var start := scan;
      var n := 0;
      while n < 8 && go
        invariant 0 <= n <= 8 && scan == start + n && Equal(window[..], scan0, match0, scan)
        invariant go <==> window[scan0 + scan] == window[match0 + scan]
        invariant !go ==> n >= 1
        decreases 8 - n
      {
        EqualNext(window[..], scan0, match0, scan);
        scan := scan + 1;
        n := n + 1;
        go := window[scan0 + scan] == window[match0 + scan];
      }
      if scan >= MAX_MATCH { go := false; }
    }
    len := scan;
  }

  lemma EqualHead(window: seq<byte>, p: int, q: int)
    requires Equal(window, p, q, 3)
    ensures Equal(window, p, q, 2) && window[p + 2] == window[q + 2]
  {
    assert window[p..p + 2] == window[p..p + 3][..2] && window[q..q + 2] == window[q..q + 3][..2];
    assert window[p + 2] == window[p..p + 3][2] && window[q + 2] == window[q..q + 3][2];
  }

  /** A good match: within reach, and as long as claimed. */
  ghost predicate GoodMatch(c: Config, window: seq<byte>, s: int, start: int, len: int) {
    0 <= start < s && s - start <= MaxDist(c) && Equal(window, s, start, len)
  }

  /** A candidate within reach has a good link. */
  lemma NextCandidate(c: Config, hist: seq<byte>, base: int, s: int, ins: set<int>, head: seq<int>, prev: seq<int>, cur: int, key: nat)
    requires Chained(c, hist, base, s, ins, head, prev) && Entry(c, hist, base, ins, cur, key)
    requires s - cur < c.wsize
    ensures 0 <= cur % c.wsize < |prev|
    ensures var q := prev[cur % c.wsize]; q == NIL || (q < cur && Entry(c, hist, base, ins, q, key))
    ensures Shown(hist, ins) && Latest(c, hist, base, ins, key, base + cur, prev[cur % c.wsize])
  {
    hide HashAt, Latest;
    ModBase(base, cur, c.wsize);
    assert LinkOK(c, hist, base, ins, prev, base + cur);
  }

  /** The tests on one candidate: two bytes at the end of the best match so far, the first two bytes,
      then the rest. The result is 0 when a test fails. */
  method TryCandidate(window: array<byte>, c: Config, s: int, lookahead: int, cur: int, bestLen: int,
                      ghost hist: seq<byte>, ghost base: int, ghost ins: set<int>)
    returns (l: int)
    requires Proper(c.hash) && 0 <= s && s + MIN_LOOKAHEAD <= window.Length && 3 <= lookahead && s + lookahead <= window.Length
    requires Shows(window[..], hist, base, s + lookahead) && base + s + 2 < |hist|
    requires 0 <= cur < s && Entry(c, hist, base, ins, cur, HashAt(c, hist, base + s)) && 1 <= bestLen <= MAX_MATCH
    ensures l == 0 || (3 <= l <= MAX_MATCH && Equal(window[..], s, cur, l))
    ensures Beaten(window[..], s, cur, if l <= bestLen then bestLen else l, MAX_MATCH)
  {
    hide Entry, HashAt, Shows, Equal;
    l := 0;
    Differing(window[..], s, cur, bestLen);
    if window[cur + bestLen] == window[s + bestLen] && window[cur + bestLen - 1] == window[s + bestLen - 1] {
      if window[cur] == window[s] && window[cur + 1] == window[s + 1] {
        ThirdByteEqual(c, hist, window[..], base, s + lookahead, ins, s, cur);
        l := MatchLength(window, s, cur);
        if l < MAX_MATCH { DifferAt(window[..], s, cur, l, MAX_MATCH); }
      }
    }
  }

  /** A candidate that fails one of the tests cannot do better. */
  lemma Differing(window: seq<byte>, s: int, q: int, bestLen: int)
    requires 0 <= q < s && s + MAX_MATCH < |window| && 1 <= bestLen <= MAX_MATCH
    ensures (window[q + bestLen] != window[s + bestLen] || window[q + bestLen - 1] != window[s + bestLen - 1]
             || window[q] != window[s] || window[q + 1] != window[s + 1]) ==> Beaten(window, s, q, bestLen, MAX_MATCH)
  {
    hide Equal;
    if window[q + bestLen] != window[s + bestLen] { DifferAt(window, s, q, bestLen, MAX_MATCH); }
    if window[q + bestLen - 1] != window[s + bestLen - 1] { DifferAt(window, s, q, bestLen - 1, MAX_MATCH); }
    if window[q] != window[s] { DifferAt(window, s, q, 0, MAX_MATCH); }
    if window[q + 1] != window[s + 1] { DifferAt(window, s, q, 1, MAX_MATCH); }
  }

  /** How many candidates are tried at most; a count of 0 stands for no limit. */
  function Patience(maxChain: nat, prevLength: int, goodMatch: int): nat {
    if prevLength >= goodMatch then maxChain / 4 else maxChain
  }

  /** The index below which candidates are too far back. */
  function Limit(c: Config, s: int): int { if s > MaxDist(c) then s - MaxDist(c) else NIL }

  /** The next candidate on the chain. */
  method FollowLink(prev: array<int>, c: Config, cur: int, ghost s: int, ghost hist: seq<byte>, ghost base: int,
                    ghost ins: set<int>, ghost head: seq<int>, ghost key: nat)
    returns (q: int)
    requires Chained(c, hist, base, s, ins, head, prev[..]) && Entry(c, hist, base, ins, cur, key) && s - cur < c.wsize
    ensures q == NIL || (0 < q < cur && Entry(c, hist, base, ins, q, key))
    ensures prev.Length == c.wsize > 0 && q == prev[cur % c.wsize]
    ensures Shown(hist, ins) && Latest(c, hist, base, ins, key, base + cur, q)
  {
    hide Chained, Entry;
    ChainedSizes(c, hist, base, s, ins, head, prev[..]);
    NextCandidate(c, hist, base, s, ins, head, prev[..], cur, key);
    q := prev[cur % c.wsize];
    if q != NIL { EntryBounds(c, hist, base, ins, q, key); }
  }

  lemma FoundGood(c: Config, window: seq<byte>, s: int, cur: int, l: int)
    requires 0 < cur < s && s - cur <= MaxDist(c) && Equal(window, s, cur, l)
    ensures GoodMatch(c, window, s, cur, l)
  {
  }

  /** Every inserted string with this key, before `s` and after index `q`, has been tried. */
  ghost predicate Reached(c: Config, hist: seq<byte>, base: int, ins: set<int>, key: int, s: int, q: int, tried: seq<int>)
    requires Shown(hist, ins)
  {
    forall b :: b in ins && b < s && base + q < b && HashAt(c, hist, b) == key ==> b - base in tried
  }

  lemma ReachedStart(c: Config, hist: seq<byte>, base: int, ins: set<int>, key: int, s: int, q: int)
    requires Shown(hist, ins) && Latest(c, hist, base, ins, key, s, q)
    ensures Reached(c, hist, base, ins, key, s, q, [])
  {
    hide HashAt;
  }

  lemma ReachedNext(c: Config, hist: seq<byte>, base: int, ins: set<int>, key: int, s: int, cur: int, q: int, tried: seq<int>)
    requires Shown(hist, ins) && Latest(c, hist, base, ins, key, base + cur, q)
    requires Reached(c, hist, base, ins, key, s, cur, tried)
    ensures Reached(c, hist, base, ins, key, s, q, tried + [cur])
  {
    hide HashAt;
    forall b | b in ins && b < s && base + q < b && HashAt(c, hist, b) == key ensures b - base in tried + [cur] {
      if b > base + cur {
        assert b - base in tried;
      } else {
        assert (tried + [cur])[|tried|] == cur;
      }
    }
  }

  /** No match with an inserted string in reach is longer, if it is worth anything at all. */
  ghost predicate Longest(c: Config, window: seq<byte>, base: int, s: int, ins: set<int>, len: int, most: int) {
    forall a :: a in ins && Limit(c, s) < a - base < s ==> Beaten(window, s, a - base, if len < 2 then 2 else len, most)
  }

  lemma SameByte(hist: seq<byte>, window: seq<byte>, base: int, end: int, s: int, q: int, n: int, k: int)
    requires Shows(window, hist, base, end) && 0 <= q < s && s + k < end && Equal(window, s, q, n) && 0 <= k < n
    ensures 0 <= base + q + k < base + s + k < |hist| && hist[base + q + k] == hist[base + s + k]
  {
    hide Shows;
    ShownAt(window, hist, base, end, s + k);
    ShownAt(window, hist, base, end, q + k);
    assert window[s..s + n][k] == window[q..q + n][k];
  }

  /** What a search comes to: the result is nice enough, as many candidates have been tried as patience allows, or there
      is nothing longer among the inserted strings in reach. */
  ghost predicate Thorough(c: Config, window: seq<byte>, base: int, s: int, ins: set<int>, lookahead: int, len: int,
                           tried: nat, nice: int, patience: nat)
  {
    || len >= Least(nice, lookahead) || (patience > 0 && tried == patience)
    || Longest(c, window, base, s, ins, len, Least(lookahead, MAX_MATCH))
  }

  lemma ThoroughLess(c: Config, window: seq<byte>, base: int, s: int, ins: set<int>, ins': set<int>, lookahead: int, len: int,
                     tried: nat, nice: int, patience: nat)
    requires Thorough(c, window, base, s, ins', lookahead, len, tried, nice, patience) && ins <= ins'
    ensures Thorough(c, window, base, s, ins, lookahead, len, tried, nice, patience)
  {
    hide Beaten;
    if Longest(c, window, base, s, ins', len, Least(lookahead, MAX_MATCH)) {
      forall a | a in ins && Limit(c, s) < a - base < s
        ensures Beaten(window, s, a - base, if len < 2 then 2 else len, Least(lookahead, MAX_MATCH))
      {
        assert a in ins';
      }
    }
  }

  /** Without a candidate in reach there is nothing to find. */
  lemma NoneInReach(c: Config, hist: seq<byte>, window: seq<byte>, base: int, end: int, ins: set<int>, s: int, q: int,
                    tried: nat, nice: int, patience: nat)
    requires Shown(hist, ins) && Shows(window, hist, base, end) && 0 <= s && s + 3 <= end && 0 <= base && base + s + 2 < |hist|
    requires Latest(c, hist, base, ins, HashAt(c, hist, base + s), base + s, q) && (q == NIL || s - q > MaxDist(c))
    ensures Thorough(c, window, base, s, ins, end - s, 2, tried, nice, patience)
  {
    hide Shows, HashAt, Latest, Reached, Longest, AllBeaten, Beaten;
    ReachedStart(c, hist, base, ins, HashAt(c, hist, base + s), base + s, q);
    NoneBeaten(window, s, 2);
    BeatenBy(window, s, [], 2, 2, MAX_MATCH, Least(end - s, MAX_MATCH));
    TriedAll(c, hist, window, base, end, ins, s, q, [], 2, Least(end - s, MAX_MATCH));
  }

  /** Strings that agree in three bytes have the same key. */
  lemma SameKey(c: Config, hist: seq<byte>, window: seq<byte>, base: int, end: int, s: int, q: int, n: int)
    requires Shows(window, hist, base, end) && 0 <= q < s && s + 3 <= end && Equal(window, s, q, n) && n >= 3
    ensures 0 <= base + q && base + s + 2 < |hist| && HashAt(c, hist, base + q) == HashAt(c, hist, base + s)
  {
    hide Hash3, Shows, Equal;
    SameByte(hist, window, base, end, s, q, n, 0);
    SameByte(hist, window, base, end, s, q, n, 1);
    SameByte(hist, window, base, end, s, q, n, 2);
  }

  /** When all strings with the key have been tried, down to the limit, the best of them is the longest. */
  lemma TriedAll(c: Config, hist: seq<byte>, window: seq<byte>, base: int, end: int, ins: set<int>, s: int, cur: int,
                 tried: seq<int>, len: int, most: int)
    requires Shown(hist, ins) && Shows(window, hist, base, end) && 0 <= s && s + 3 <= end && base + s + 2 < |hist|
    requires Reached(c, hist, base, ins, HashAt(c, hist, base + s), base + s, cur, tried) && cur <= Limit(c, s)
    requires AllBeaten(window, s, tried, len, most)
    ensures Longest(c, window, base, s, ins, len, most)
  {
    hide Shows, HashAt, Equal;
    forall a | a in ins && Limit(c, s) < a - base < s
      ensures Beaten(window, s, a - base, if len < 2 then 2 else len, most)
    {
      var q := a - base;
      forall n | Equal(window, s, q, n) && n <= most ensures n <= if len < 2 then 2 else len {
        if n >= 3 {
          SameKey(c, hist, window, base, end, s, q, n);
          assert q in tried;
          var k :| 0 <= k < |tried| && tried[k] == q;
          assert Beaten(window, s, tried[k], len, most);
        }
      }
    }
  }

  /** longest_match: a result longer than `prevLength` comes with a good match, and no candidate that was tried has a
      longer one. Candidates are tried along the chain until a match is nice enough or patience has run out; otherwise
      the result is the longest match there is in reach. */
  method LongestMatch(window: array<byte>, prev: array<int>, c: Config, strstart: int, lookahead: int, curMatch0: int,
                      prevLength: int, maxChain: nat, goodMatch: int, nice: int, matchStart0: int,
                      ghost hist: seq<byte>, ghost base: int, ghost ins: set<int>, ghost head: seq<int>)
    returns (len: int, matchStart: int, ghost tried: seq<int>)
    requires ProperConfig(c) && 0 <= strstart && strstart + MIN_LOOKAHEAD <= window.Length
    requires 3 <= lookahead && strstart + lookahead <= window.Length && Shows(window[..], hist, base, strstart + lookahead)
    requires 0 <= base && base + strstart + 2 < |hist|
    requires Chained(c, hist, base, strstart + 1, ins, head, prev[..])
    requires Entry(c, hist, base, ins, curMatch0, HashAt(c, hist, base + strstart))
    requires curMatch0 < strstart && strstart - curMatch0 <= MaxDist(c)
    requires Latest(c, hist, base, ins, HashAt(c, hist, base + strstart), base + strstart, curMatch0)
    requires 1 <= prevLength <= MAX_MATCH
    ensures len <= lookahead && len <= MAX_MATCH && (prevLength >= 2 ==> len >= 2)
    ensures len > prevLength ==> GoodMatch(c, window[..], strstart, matchStart, len)
    ensures prev.Length > 0 && OnChain(prev[..], curMatch0, tried)
    ensures AllBeaten(window[..], strstart, tried, len, Least(lookahead, MAX_MATCH))
    ensures Thorough(c, window[..], base, strstart, ins, lookahead, len, |tried|, nice, Patience(maxChain, prevLength, goodMatch))
  {
    hide Latest, Reached, Longest, Shown, Chained, HashAt, Entry, Shows, Equal, GoodMatch, Proper, Beaten, AllBeaten;
    ChainedSizes(c, hist, base, strstart + 1, ins, head, prev[..]);
    tried := [];
    NoneBeaten(window[..], strstart, prevLength);
    ghost var key := HashAt(c, hist, base + strstart);
    var chainLength: int := maxChain;  // a count of 0 would wrap around: the chain's own end stops the loop
    var bestLen := prevLength;
    var niceMatch := nice;
    var limit := Limit(c, strstart);
    if prevLength >= goodMatch { chainLength := chainLength / 4; }
    if niceMatch > lookahead { niceMatch := lookahead; }
    matchStart := matchStart0;
    var curMatch := curMatch0;
    EntryBounds(c, hist, base, ins, curMatch, key);
    ReachedStart(c, hist, base, ins, key, base + strstart, curMatch);
    ghost var left := false;
    while true
      invariant 0 < curMatch < strstart && strstart - curMatch <= MaxDist(c)
      invariant Entry(c, hist, base, ins, curMatch, key)
      invariant prevLength <= bestLen <= MAX_MATCH
      invariant bestLen > prevLength ==> GoodMatch(c, window[..], strstart, matchStart, bestLen)
      invariant OnChain(prev[..], curMatch0, tried + [curMatch])
      invariant !left && Reached(c, hist, base, ins, key, base + strstart, curMatch, tried)
      invariant AllBeaten(window[..], strstart, tried, bestLen, MAX_MATCH)
      invariant chainLength == Patience(maxChain, prevLength, goodMatch) - |tried|
      decreases curMatch
    {
      ghost var best := bestLen;
      var l := TryCandidate(window, c, strstart, lookahead, curMatch, bestLen, hist, base, ins);
      MoreBeaten(window[..], strstart, tried, curMatch, best, if l <= bestLen then bestLen else l);
      tried := tried + [curMatch];
      if l > bestLen {
        FoundGood(c, window[..], strstart, curMatch, l);
        matchStart := curMatch;
        bestLen := l;
        if l >= niceMatch { break; }
      }
      ghost var cur := curMatch;
      curMatch := FollowLink(prev, c, curMatch, strstart + 1, hist, base, ins, head, key);
      ReachedNext(c, hist, base, ins, key, base + strstart, cur, curMatch, tried[..|tried| - 1]);
      assert tried[..|tried| - 1] + [cur] == tried;
      if curMatch <= limit { left := true; break; }
      chainLength := chainLength - 1;
      if chainLength == 0 { break; }
    }
    len := if bestLen <= lookahead then bestLen else lookahead;
    BeatenBy(window[..], strstart, tried, bestLen, len, MAX_MATCH, Least(lookahead, MAX_MATCH));
    if left {
      TriedAll(c, hist, window[..], base, strstart + lookahead, ins, strstart, curMatch, tried, len, Least(lookahead, MAX_MATCH));
    }
    if len > prevLength { Shorten(c, window[..], strstart, matchStart, bestLen, len); }
  }

  lemma NoneBeaten(window: seq<byte>, s: int, len: int)
    ensures AllBeaten(window, s, [], len, MAX_MATCH)
  {
  }

  lemma MoreBeaten(window: seq<byte>, s: int, tried: seq<int>, cur: int, len: int, len': int)
    requires AllBeaten(window, s, tried, len, MAX_MATCH) && Beaten(window, s, cur, len', MAX_MATCH) && len <= len'
    ensures AllBeaten(window, s, tried + [cur], len', MAX_MATCH)
  {
    hide Beaten;
    BeatenBy(window, s, tried, len, len', MAX_MATCH, MAX_MATCH);
  }

  lemma Shorten(c: Config, window: seq<byte>, s: int, start: int, len: int, len': int)
    requires GoodMatch(c, window, s, start, len) && 0 <= len' <= len
    ensures GoodMatch(c, window, s, start, len')
  {
    assert window[s..s + len'] == window[s..s + len][..len'];
    assert window[start..start + len'] == window[start..start + len][..len'];
  }

  lemma EntryBounds(c: Config, hist: seq<byte>, base: int, ins: set<int>, q: int, key: nat)
    requires Entry(c, hist, base, ins, q, key)
    ensures 0 < q && base + q in ins && 0 <= base + q && base + q + 2 < |hist| && HashAt(c, hist, base + q) == key
  {
  }
}
