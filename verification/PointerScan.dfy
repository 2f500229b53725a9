/** Step 2 of mainSort: sorted buckets from one scan. */
module PointerScan {
  import opened Counting
  import opened FallbackQSort
  import opened MainQSort
  import opened Permutations
  import opened QuadrantCache
  import opened Rotations
  import opened SmallBuckets

  // ----- going one place back

  /** The position before `i`, going round the block. */
  function Prev(i: int, n: int): (r: int)
    requires 0 <= i < n
    ensures 0 <= r < n && Next(r, n) == i
  {
    if i == 0 then n - 1 else i - 1
  }

  lemma PrevNext(i: int, n: int)
    requires 0 <= i < n
    ensures Prev(Next(i, n), n) == i
  {
  }

  ghost predicate Positions(b: seq<int>, xs: seq<int>) {
    forall p :: 0 <= p < |xs| ==> 0 <= xs[p] < |b|
  }

  /** The rotations one place before those of `xs` that start with byte `t`, in the order of `xs`. */
  ghost function Preds(b: seq<int>, xs: seq<int>, t: int): seq<int>
    requires Positions(b, xs)
    decreases |xs|
  {
    if xs == [] then []
    else
      var x := xs[|xs| - 1];
      Preds(b, xs[..|xs| - 1], t) + if b[Prev(x, |b|)] == t then [Prev(x, |b|)] else []
  }

  lemma {:induction false} PredsPush(b: seq<int>, xs: seq<int>, x: int, t: int)
    requires Positions(b, xs) && 0 <= x < |b|
    ensures Positions(b, xs + [x])
    ensures Preds(b, xs + [x], t) == Preds(b, xs, t) + if b[Prev(x, |b|)] == t then [Prev(x, |b|)] else []
  {
    assert (xs + [x])[..|xs|] == xs;
  }

  lemma {:induction false} PredsJoin(b: seq<int>, xs: seq<int>, ys: seq<int>, t: int)
    requires Positions(b, xs) && Positions(b, ys)
    ensures Positions(b, xs + ys) && Preds(b, xs + ys, t) == Preds(b, xs, t) + Preds(b, ys, t)
    decreases |ys|
  {
    hide Prev;
    if ys == [] {
      assert xs + ys == xs;
    } else {
      var q, y := ys[..|ys| - 1], ys[|ys| - 1];
      assert y in ys && ys == q + [y] && xs + ys == (xs + q) + [y];
      PredsJoin(b, xs, q, t);
      PredsPush(b, q, y, t);
      PredsPush(b, xs + q, y, t);
    }
  }

  /** Which rotations these are. */
  lemma {:induction false} PredsMember(b: seq<int>, xs: seq<int>, t: int, y: int)
    requires Positions(b, xs)
    ensures y in Preds(b, xs, t) <==> 0 <= y < |b| && b[y] == t && Next(y, |b|) in xs
    decreases |xs|
  {
    if xs != [] {
      var q, x := xs[..|xs| - 1], xs[|xs| - 1];
      assert x in xs && xs == q + [x];
      PredsMember(b, q, t, y);
      PredsPush(b, q, x, t);
      if 0 <= y < |b| { PrevNext(y, |b|); }
    }
  }

  lemma PredsPositions(b: seq<int>, xs: seq<int>, t: int)
    requires Positions(b, xs)
    ensures Positions(b, Preds(b, xs, t))
  {
    var ys := Preds(b, xs, t);
    forall p | 0 <= p < |ys| ensures 0 <= ys[p] < |b| { PredsMember(b, xs, t, ys[p]); }
  }

  lemma {:induction false} PredsDistinct(b: seq<int>, xs: seq<int>, t: int)
    requires Positions(b, xs) && Distinct(xs)
    ensures Distinct(Preds(b, xs, t))
    decreases |xs|
  {
    hide Preds, Prev;
    if xs == [] {
      PredsNone(b, t);
    } else {
      var q, x := xs[..|xs| - 1], xs[|xs| - 1];
      assert x in xs && xs == q + [x] && x !in q;
      PredsDistinct(b, q, t);
      PredsPush(b, q, x, t);
      PredsMember(b, q, t, Prev(x, |b|));
    }
  }

  lemma {:induction false} PredsNone(b: seq<int>, t: int)
    ensures Preds(b, [], t) == []
  {
  }

  // ----- their order

  /** Rotations in non-decreasing order. */
  ghost predicate Rising(b: seq<int>, xs: seq<int>) {
    forall p, q :: 0 <= p < q < |xs| ==> Key(Ranks(b), xs[p]) <= Key(Ranks(b), xs[q])
  }

  /** One place further back, rotations that start with the same byte stand in the same order. */
  lemma PrevOrder(b: seq<int>, x: int, y: int)
    requires 0 <= x < |b| && 0 <= y < |b| && b[Prev(x, |b|)] == b[Prev(y, |b|)]
    requires Key(Ranks(b), x) <= Key(Ranks(b), y)
    ensures Key(Ranks(b), Prev(x, |b|)) <= Key(Ranks(b), Prev(y, |b|))
  {
    hide Ranks, Key;
    var n := |b|;
    RankOrder(b, x, y);
    BackOne(b, Prev(x, n), Prev(y, n));
    RankOrder(b, Prev(x, n), Prev(y, n));
  }

  lemma BackOne(b: seq<int>, x: int, y: int)
    requires 0 <= x < |b| && 0 <= y < |b| && b[x] == b[y]
    ensures Cmp(b, x, y, |b|) == Cmp(b, Next(x, |b|), Next(y, |b|), |b|)
  {
    DeeperIsSame(b, x, y, |b| + 1);
    assert Cmp(b, x, y, |b| + 1) == Cmp(b, Next(x, |b|), Next(y, |b|), |b|);
  }

  lemma {:induction false} PredsRising(b: seq<int>, xs: seq<int>, t: int)
    requires Positions(b, xs) && Rising(b, xs)
    ensures Rising(b, Preds(b, xs, t))
    decreases |xs|
  {
    hide Preds, Prev, Ranks, Key;
    if xs == [] {
      PredsNone(b, t);
    } else {
      var q, x := xs[..|xs| - 1], xs[|xs| - 1];
      assert x in xs && xs == q + [x];
      PredsRising(b, q, t);
      PredsPush(b, q, x, t);
      if b[Prev(x, |b|)] == t {
        forall y | y in Preds(b, q, t) ensures Key(Ranks(b), y) <= Key(Ranks(b), Prev(x, |b|)) { PredBelow(b, xs, t, y); }
        RisingPush(b, Preds(b, q, t), Prev(x, |b|));
      }
    }
  }

  lemma PredBelow(b: seq<int>, xs: seq<int>, t: int, y: int)
    requires xs != [] && Positions(b, xs) && Rising(b, xs) && y in Preds(b, xs[..|xs| - 1], t)
    requires xs[|xs| - 1] in xs && b[Prev(xs[|xs| - 1], |b|)] == t
    ensures Key(Ranks(b), y) <= Key(Ranks(b), Prev(xs[|xs| - 1], |b|))
  {
    hide Preds, Ranks, Key;
    var q := xs[..|xs| - 1];
    PredsMember(b, q, t, y);
    var m :| 0 <= m < |q| && q[m] == Next(y, |b|);
    assert xs[m] == q[m];
    PrevNext(y, |b|);
    PrevOrder(b, Next(y, |b|), xs[|xs| - 1]);
  }

  lemma RisingPush(b: seq<int>, xs: seq<int>, x: int)
    requires Rising(b, xs) && forall y :: y in xs ==> Key(Ranks(b), y) <= Key(Ranks(b), x)
    ensures Rising(b, xs + [x])
  {
    hide Ranks, Key;
    forall p, q | 0 <= p < q < |xs + [x]| ensures Key(Ranks(b), (xs + [x])[p]) <= Key(Ranks(b), (xs + [x])[q]) {
      assert (xs + [x])[p] == xs[p] && xs[p] in xs;
    }
  }

  lemma RisingJoin(b: seq<int>, xs: seq<int>, ys: seq<int>)
    requires Rising(b, xs) && Rising(b, ys)
    requires forall x, y :: x in xs && y in ys ==> Key(Ranks(b), x) <= Key(Ranks(b), y)
    ensures Rising(b, xs + ys)
  {
    hide Ranks, Key;
    var zs := xs + ys;
    forall p, q | 0 <= p < q < |zs| ensures Key(Ranks(b), zs[p]) <= Key(Ranks(b), zs[q]) {
      if p < |xs| <= q { assert xs[p] in xs && ys[q - |xs|] in ys; }
    }
  }

  // ----- falling and climbing rotations

  /** The run of equal bytes a rotation starts with ends in a smaller byte. */
  ghost predicate Falling(b: seq<int>, x: int) {
    0 <= x < |b| && Cmp(b, x, Next(x, |b|), |b|) > 0
  }

  /** It ends in a greater byte. */
  ghost predicate Climbing(b: seq<int>, x: int) {
    0 <= x < |b| && Cmp(b, x, Next(x, |b|), |b|) < 0
  }

  lemma RunEnds(b: seq<int>, x: int)
    requires 0 <= x < |b|
    ensures b[x] > b[Next(x, |b|)] ==> Falling(b, x)
    ensures b[x] < b[Next(x, |b|)] ==> Climbing(b, x)
    ensures b[x] == b[Next(x, |b|)] && Falling(b, Next(x, |b|)) ==> Falling(b, x)
    ensures b[x] == b[Next(x, |b|)] && Climbing(b, Next(x, |b|)) ==> Climbing(b, x)
  {
    if b[x] == b[Next(x, |b|)] { BackOne(b, x, Next(x, |b|)); }
  }

  /** Every rotation of a block of equal bytes is the same. */
  lemma {:induction false} ConstantTie(b: seq<int>, i: int, j: int, h: nat)
    requires 0 <= i < |b| && 0 <= j < |b| && forall k :: 0 <= k < |b| ==> b[k] == b[i]
    ensures Cmp(b, i, j, h) == 0
    decreases h
  {
    if h > 0 { ConstantTie(b, Next(i, |b|), Next(j, |b|), h - 1); }
  }

  /** Going on from a position one comes to every other. */
  lemma Comes(b: seq<int>, x: int, i: int) returns (k: nat)
    requires 0 <= x < |b| && 0 <= i < |b|
    ensures k < |b| && Adv(x, k, |b|) == i
  {
    k := if i >= x then i - x else i + |b| - x;
    AdvValue(x, k, |b|);
  }

  /** Rotations one further, in the situation that cannot be. */
  lemma Further(b: seq<int>, x: int, y: int)
    requires Falling(b, x) && Climbing(b, y) && b[x] == b[y] && Cmp(b, x, y, |b|) >= 0
    ensures var x', y' := Next(x, |b|), Next(y, |b|);
            Falling(b, x') && Climbing(b, y') && b[x] == b[x'] == b[y'] && Cmp(b, x', y', |b|) >= 0
  {
    var x', y' := Next(x, |b|), Next(y, |b|);
    BackOne(b, x, y);
    assert b[x'] >= b[y'] && b[x] >= b[x'] && b[y] <= b[y'];
    BackOne(b, x, x');
    BackOne(b, y, y');
  }

  lemma {:induction false} NeverEqual(b: seq<int>, x0: int, x: int, y: int, h: nat)
    requires Falling(b, x) && Climbing(b, y) && b[x] == b[y] && Cmp(b, x, y, |b|) >= 0
    requires 0 <= x0 < |b| && h <= |b| && x == Adv(x0, h, |b|) && forall k :: 0 <= k < h ==> b[Adv(x0, k, |b|)] == b[x]
    ensures false
    decreases |b| - h
  {
    hide Cmp, Adv;
    if h == |b| {
      forall i | 0 <= i < |b| ensures b[i] == b[x] { var k := Comes(b, x0, i); }
      ConstantTie(b, x, Next(x, |b|), |b|);
    } else {
      Further(b, x, y);
      AdvAdd(x0, h, 1, |b|);
      AdvOne(x, |b|);
      NeverEqual(b, x0, Next(x, |b|), Next(y, |b|), h + 1);
    }
  }

  lemma AdvOne(x: int, n: int)
    requires 0 <= x < n
    ensures Adv(x, 1, n) == Next(x, n) && Adv(x, 0, n) == x
  {
    assert Adv(x, 1, n) == Adv(Next(x, n), 0, n);
  }

  /** Among rotations that start with the same byte, the falling ones come before the climbing ones. */
  lemma FallingFirst(b: seq<int>, x: int, y: int)
    requires Falling(b, x) && Climbing(b, y) && b[x] == b[y]
    ensures Key(Ranks(b), x) < Key(Ranks(b), y)
  {
    hide Cmp, Key, Ranks;
    if Cmp(b, x, y, |b|) >= 0 {
      AdvOne(x, |b|);
      NeverEqual(b, x, x, y, 0);
    }
    RankOrder(b, x, y);
  }

  // ----- one big bucket

  /** Big bucket `s` of block `b`: the listing `f0` before the scan, and which big buckets are done. */
  datatype Bucket = Bucket(b: seq<int>, f0: seq<int>, s: int, done: seq<bool>) {
    ghost function K(): seq<int> { Keys(b) }

    /** The stretch of small bucket `t`, `s`. */
    ghost function Lo(t: nat): int
      requires 0 <= s
    {
      Start(K(), t * 256 + s)
    }

    ghost function Hi(t: nat): int
      requires 0 <= s
    {
      Start(K(), t * 256 + s + 1)
    }

    /** The stretch of the big bucket. */
    ghost function First(): int
      requires 0 <= s
    {
      Start(K(), s * 256)
    }

    ghost function Last(): int
      requires 0 <= s
    {
      Start(K(), (s + 1) * 256)
    }

    /** All small buckets `s`, `v` with `v` other than `s` are in order. */
    ghost predicate Good() {
      && IsBytes(b) && |b| >= 2 && |done| == 256 && 0 <= s < 256 && !done[s] && Classed(K(), f0)
      && forall v: nat {:trigger RowOrdered(v)} :: v < 256 && v != s ==> RowOrdered(v)
    }

    ghost predicate RowOrdered(v: nat)
      requires 0 <= s
    {
      Ordered(f0, Ranks(b), Start(K(), s * 256 + v), Start(K(), s * 256 + v + 1))
    }
  }

  /** The order of the stretches, and that they lie inside the listing. */
  lemma Stretches(c: Bucket, t: nat)
    requires c.Good() && t < 256
    ensures |c.f0| == |c.b| && 0 <= c.Lo(t) <= c.Hi(t) <= |c.f0|
    ensures 0 <= c.First() <= c.Lo(c.s) <= c.Hi(c.s) <= c.Last() <= |c.f0|
    ensures t != c.s ==> c.Hi(t) <= c.First() || c.Last() <= c.Lo(t)
  {
    hide Start, Keys, Ordered, Ranks;
    var k, s := c.K(), c.s;
    ClassBounds(k, c.f0, t * 256 + s, t * 256 + s + 1);
    ClassBounds(k, c.f0, s * 256, s * 256 + s);
    ClassBounds(k, c.f0, s * 256 + s, s * 256 + s + 1);
    ClassBounds(k, c.f0, s * 256 + s + 1, (s + 1) * 256);
    if t < s { ClassBounds(k, c.f0, t * 256 + s + 1, s * 256); }
    if t > s { ClassBounds(k, c.f0, (s + 1) * 256, t * 256 + s); }
  }

  lemma StretchesApart(c: Bucket, t: nat, u: nat)
    requires c.Good() && t < 256 && u < 256 && t != u
    ensures c.Hi(t) <= c.Lo(u) || c.Hi(u) <= c.Lo(t)
  {
    hide Start, Keys, Ordered, Ranks;
    if t < u { ClassBounds(c.K(), c.f0, t * 256 + c.s + 1, u * 256 + c.s); }
    if t > u { ClassBounds(c.K(), c.f0, u * 256 + c.s + 1, t * 256 + c.s); }
  }

  /** Distinct rotations that start with `s`, in non-decreasing order. */
  ghost predicate Zone(c: Bucket, xs: seq<int>) {
    && Positions(c.b, xs) && Distinct(xs) && Rising(c.b, xs)
    && forall p :: 0 <= p < |xs| ==> c.b[xs[p]] == c.s
  }

  ghost predicate FallZone(c: Bucket, xs: seq<int>) {
    Zone(c, xs) && forall p :: 0 <= p < |xs| ==> Falling(c.b, xs[p])
  }

  ghost predicate ClimbZone(c: Bucket, xs: seq<int>) {
    Zone(c, xs) && forall p :: 0 <= p < |xs| ==> Climbing(c.b, xs[p])
  }

  /** The small buckets before and after the middle one. */
  ghost function Before(c: Bucket): seq<int>
    requires c.Good()
  {
    Stretches(c, 0);
    c.f0[c.First()..c.Lo(c.s)]
  }

  ghost function Behind(c: Bucket): seq<int>
    requires c.Good()
  {
    Stretches(c, 0);
    c.f0[c.Hi(c.s)..c.Last()]
  }

  /** Part of the row, the middle small bucket left out, is in order. */
  lemma RowRising(c: Bucket, lo: int, hi: int, p: int, q: int)
    requires c.Good() && ((lo, hi) == (c.First(), c.Lo(c.s)) || (lo, hi) == (c.Hi(c.s), c.Last()))
    requires lo <= p < q < hi && 0 <= lo && hi <= |c.f0|
    ensures Key(Ranks(c.b), c.f0[p]) <= Key(Ranks(c.b), c.f0[q])
  {
    hide Start, Keys, Ranks, Key;
    var k, s, f := c.K(), c.s, c.f0;
    ClassRange(k, f, p, s * 256, (s + 1) * 256);
    ClassRange(k, f, q, s * 256, (s + 1) * 256);
    ClassRange(k, f, p, s * 256, s * 256 + s);
    ClassRange(k, f, q, s * 256, s * 256 + s);
    Stretches(c, 0);
    var v := k[f[p]] - s * 256;
    if k[f[p]] < k[f[q]] {
      KeyOrder(c.b, f[p], f[q]);
    } else if k[f[p]] > k[f[q]] {
      ClassRange(k, f, p, k[f[p]], (s + 1) * 256);
      ClassRange(k, f, q, k[f[p]], (s + 1) * 256);
      assert false;
    } else {
      assert v != s && c.RowOrdered(v);
      ClassRange(k, f, p, s * 256 + v, s * 256 + v + 1);
      ClassRange(k, f, q, s * 256 + v, s * 256 + v + 1);
    }
  }

  lemma RowKeys(c: Bucket, p: int)
    requires c.Good() && 0 <= p < |c.f0| && c.First() <= p < c.Last()
    ensures 0 <= c.f0[p] < |c.b| && c.b[c.f0[p]] == c.s
    ensures p < c.Lo(c.s) ==> c.K()[c.f0[p]] < c.s * 256 + c.s && c.b[Next(c.f0[p], |c.b|)] < c.s
    ensures p >= c.Hi(c.s) ==> c.K()[c.f0[p]] > c.s * 256 + c.s && c.b[Next(c.f0[p], |c.b|)] > c.s
  {
    hide Start, Keys, Ranks, Ordered;
    var k, s, f := c.K(), c.s, c.f0;
    ClassRange(k, f, p, s * 256, (s + 1) * 256);
    ClassRange(k, f, p, s * 256, s * 256 + s);
    ClassRange(k, f, p, s * 256, s * 256 + s + 1);
    KeyParts(c.b, f[p]);
  }

  lemma BeforeZone(c: Bucket)
    requires c.Good()
    ensures FallZone(c, Before(c))
  {
    hide Start, Keys, Ranks, Key, Falling, Classed;
    Stretches(c, 0);
    var lo, hi, xs := c.First(), c.Lo(c.s), Before(c);
    SliceDistinct(c.K(), c.f0, lo, hi);
    forall p | 0 <= p < |xs| ensures 0 <= xs[p] < |c.b| && c.b[xs[p]] == c.s && Falling(c.b, xs[p]) {
      RowKeys(c, lo + p);
      RunEnds(c.b, xs[p]);
    }
    forall p, q | 0 <= p < q < |xs| ensures Key(Ranks(c.b), xs[p]) <= Key(Ranks(c.b), xs[q]) {
      RowRising(c, lo, hi, lo + p, lo + q);
    }
  }

  lemma BehindZone(c: Bucket)
    requires c.Good()
    ensures ClimbZone(c, Behind(c))
  {
    hide Start, Keys, Ranks, Key, Climbing, Classed;
    Stretches(c, 0);
    var lo, hi, xs := c.Hi(c.s), c.Last(), Behind(c);
    SliceDistinct(c.K(), c.f0, lo, hi);
    forall p | 0 <= p < |xs| ensures 0 <= xs[p] < |c.b| && c.b[xs[p]] == c.s && Climbing(c.b, xs[p]) {
      RowKeys(c, lo + p);
      RunEnds(c.b, xs[p]);
    }
    forall p, q | 0 <= p < q < |xs| ensures Key(Ranks(c.b), xs[p]) <= Key(Ranks(c.b), xs[q]) {
      RowRising(c, lo, hi, lo + p, lo + q);
    }
  }

  // ----- the two scans, as lists

  lemma Part(b: seq<int>, xs: seq<int>, lo: int, hi: int)
    requires Positions(b, xs) && 0 <= lo <= hi <= |xs|
    ensures Positions(b, xs[lo..hi])
    ensures Distinct(xs) ==> Distinct(xs[lo..hi])
    ensures Rising(b, xs) ==> Rising(b, xs[lo..hi])
  {
    hide Ranks, Key;
  }

  /** Scanning up: `ls` is the bucket so far, the first `m` of it have been looked at. */
  ghost predicate UpChain(c: Bucket, ls: seq<int>, m: nat)
    requires c.Good()
  {
    FallZone(c, ls) && m <= |ls| && Positions(c.b, ls[..m]) && ls == Before(c) + Preds(c.b, ls[..m], c.s)
  }

  /** Scanning down: the last `m` of `hs` have been looked at. */
  ghost predicate DownChain(c: Bucket, hs: seq<int>, m: nat)
    requires c.Good()
  {
    && ClimbZone(c, hs) && m <= |hs| && Positions(c.b, hs[|hs| - m..])
    && hs == Preds(c.b, hs[|hs| - m..], c.s) + Behind(c)
  }

  lemma ChainsStart(c: Bucket)
    requires c.Good()
    ensures UpChain(c, Before(c), 0) && DownChain(c, Behind(c), 0)
  {
    hide Start, Ranks, Key, Falling, Climbing, Before, Behind, Zone;
    BeforeZone(c);
    BehindZone(c);
    PredsNone(c.b, c.s);
    var xs, ys := Before(c), Behind(c);
    assert xs[..0] == [] && ys[|ys| - 0..] == [];
    assert xs == xs + [] && ys == [] + ys;
  }

  /** The middle small bucket's key. */
  lemma MiddleKey(c: Bucket, k: int)
    requires c.Good() && 0 <= k < |c.b| && c.b[k] == c.s && c.b[Next(k, |c.b|)] == c.s
    ensures c.K()[k] == c.s * 256 + c.s
  {
    KeyParts(c.b, k);
  }

  /** A rotation found in the middle bucket comes after everything found so far. */
  lemma UpNew(c: Bucket, ls: seq<int>, m: nat, z: int)
    requires c.Good() && UpChain(c, ls, m) && m < |ls| && z in ls && c.b[Prev(ls[m], |c.b|)] == c.s
    ensures var k := Prev(ls[m], |c.b|); z != k && Key(Ranks(c.b), z) <= Key(Ranks(c.b), k)
  {
    hide Start, Ranks, Key, Falling, Preds, Cmp;
    var n, x := |c.b|, ls[m];
    var k := Prev(x, n);
    var xs := Before(c);
    MiddleKey(c, k);
    if z in xs {
      var q :| 0 <= q < |xs| && xs[q] == z;
      Stretches(c, 0);
      RowKeys(c, c.First() + q);
      KeyOrder(c.b, z, k);
    } else {
      assert z in Preds(c.b, ls[..m], c.s);
      PredsMember(c.b, ls[..m], c.s, z);
      var q :| 0 <= q < m && ls[..m][q] == Next(z, n);
      assert ls[q] == Next(z, n) && ls[q] != x;
      PrevNext(z, n);
      PrevOrder(c.b, ls[q], x);
    }
  }

  lemma UpStep(c: Bucket, ls: seq<int>, m: nat)
    requires c.Good() && UpChain(c, ls, m) && m < |ls|
    ensures 0 <= ls[m] < |c.b|
    ensures c.b[Prev(ls[m], |c.b|)] != c.s ==> UpChain(c, ls, m + 1)
    ensures c.b[Prev(ls[m], |c.b|)] == c.s ==> UpChain(c, ls + [Prev(ls[m], |c.b|)], m + 1)
  {
    hide Start, Ranks, Key, Falling, Preds, Cmp, Before;
    var n, x := |c.b|, ls[m];
    var k := Prev(x, n);
    Part(c.b, ls, 0, m);
    assert ls[..m + 1] == ls[..m] + [x] && ls[..m] == ls[0..m];
    PredsPush(c.b, ls[..m], x, c.s);
    if c.b[k] == c.s {
      var ls' := ls + [k];
      assert ls'[..m + 1] == ls[..m + 1];
      assert ls' == Before(c) + Preds(c.b, ls'[..m + 1], c.s);
      forall z | z in ls ensures z != k && Key(Ranks(c.b), z) <= Key(Ranks(c.b), k) { UpNew(c, ls, m, z); }
      RisingPush(c.b, ls, k);
      assert Distinct(ls') by {
        forall p, q | 0 <= p < q < |ls'| ensures ls'[p] != ls'[q] { assert ls[p] in ls; }
      }
      assert Falling(c.b, x);
      RunEnds(c.b, k);
    }
  }

  lemma DownNew(c: Bucket, hs: seq<int>, m: nat, z: int)
    requires c.Good() && DownChain(c, hs, m) && m < |hs| && z in hs && c.b[Prev(hs[|hs| - m - 1], |c.b|)] == c.s
    ensures var k := Prev(hs[|hs| - m - 1], |c.b|); z != k && Key(Ranks(c.b), k) <= Key(Ranks(c.b), z)
  {
    hide Start, Ranks, Key, Climbing, Preds, Cmp;
    var n, x, ys := |c.b|, hs[|hs| - m - 1], hs[|hs| - m..];
    var k := Prev(x, n);
    var xs := Behind(c);
    MiddleKey(c, k);
    if z in xs {
      var q :| 0 <= q < |xs| && xs[q] == z;
      Stretches(c, 0);
      RowKeys(c, c.Hi(c.s) + q);
      KeyOrder(c.b, k, z);
    } else {
      assert z in Preds(c.b, ys, c.s);
      PredsMember(c.b, ys, c.s, z);
      var q :| 0 <= q < m && ys[q] == Next(z, n);
      assert hs[|hs| - m + q] == Next(z, n) && hs[|hs| - m + q] != x;
      PrevNext(z, n);
      PrevOrder(c.b, x, hs[|hs| - m + q]);
    }
  }

  lemma DownStep(c: Bucket, hs: seq<int>, m: nat)
    requires c.Good() && DownChain(c, hs, m) && m < |hs|
    ensures 0 <= hs[|hs| - m - 1] < |c.b|
    ensures c.b[Prev(hs[|hs| - m - 1], |c.b|)] != c.s ==> DownChain(c, hs, m + 1)
    ensures c.b[Prev(hs[|hs| - m - 1], |c.b|)] == c.s ==> DownChain(c, [Prev(hs[|hs| - m - 1], |c.b|)] + hs, m + 1)
  {
    hide Start, Ranks, Key, Climbing, Preds, Cmp, Behind, ClimbZone, Bucket.Good, Prev;
    ZoneAt(c, hs, |hs| - m - 1);
    var n, x, ys := |c.b|, hs[|hs| - m - 1], hs[|hs| - m..];
    var k := Prev(x, n);
    assert hs[|hs| - m - 1..] == [x] + ys;
    PredsJoin(c.b, [x], ys, c.s);
    PredsOne(c.b, x, c.s);
    if c.b[k] == c.s {
      var hs' := [k] + hs;
      assert hs'[|hs'| - (m + 1)..] == [x] + ys;
      assert hs' == Preds(c.b, hs'[|hs'| - (m + 1)..], c.s) + Behind(c);
      forall z | z in hs ensures z != k && Key(Ranks(c.b), k) <= Key(Ranks(c.b), z) { DownNew(c, hs, m, z); }
      RunEnds(c.b, k);
      ZoneFront(c, hs, k);
    }
  }

  lemma ZoneAt(c: Bucket, hs: seq<int>, p: int)
    requires ClimbZone(c, hs) && 0 <= p < |hs|
    ensures 0 <= hs[p] < |c.b| && c.b[hs[p]] == c.s && Climbing(c.b, hs[p])
  {
  }

  lemma ZoneFront(c: Bucket, hs: seq<int>, k: int)
    requires ClimbZone(c, hs) && Climbing(c.b, k) && 0 <= k < |c.b| && c.b[k] == c.s
    requires forall z :: z in hs ==> z != k && Key(Ranks(c.b), k) <= Key(Ranks(c.b), z)
    ensures ClimbZone(c, [k] + hs)
  {
    hide Ranks, Key, Climbing, Cmp;
    RisingFront(c.b, k, hs);
    var hs' := [k] + hs;
    forall p, q | 0 <= p < q < |hs'| ensures hs'[p] != hs'[q] { assert hs[q - 1] in hs; }
  }

  lemma {:induction false} PredsOne(b: seq<int>, x: int, t: int)
    requires 0 <= x < |b|
    ensures Positions(b, [x]) && Preds(b, [x], t) == if b[Prev(x, |b|)] == t then [Prev(x, |b|)] else []
  {
    PredsNone(b, t);
    assert [x] == [] + [x];
    PredsPush(b, [], x, t);
  }

  lemma RisingFront(b: seq<int>, x: int, xs: seq<int>)
    requires Rising(b, xs) && forall y :: y in xs ==> Key(Ranks(b), x) <= Key(Ranks(b), y)
    ensures Rising(b, [x] + xs)
  {
    hide Ranks, Key;
    var zs := [x] + xs;
    forall p, q | 0 <= p < q < |zs| ensures Key(Ranks(b), zs[p]) <= Key(Ranks(b), zs[q]) { assert xs[q - 1] in xs; }
  }

  // ----- the two scans, in the array

  /** Rotations that start with `s`, each once. */
  ghost predicate Starters(c: Bucket, xs: seq<int>) {
    Positions(c.b, xs) && Distinct(xs) && forall p :: 0 <= p < |xs| ==> c.b[xs[p]] == c.s
  }

  lemma PredKey(c: Bucket, xs: seq<int>, t: nat, y: int)
    requires c.Good() && Starters(c, xs) && t < 256
    ensures y in Preds(c.b, xs, t) ==> 0 <= y < |c.b| && c.K()[y] == t * 256 + c.s && Next(y, |c.b|) in xs
    ensures 0 <= y < |c.b| && c.K()[y] == t * 256 + c.s && Next(y, |c.b|) in xs ==> y in Preds(c.b, xs, t)
  {
    hide Preds, Distinct, Classed, Start, Ordered;
    PredsMember(c.b, xs, t, y);
    if 0 <= y < |c.b| { KeyParts(c.b, y); }
  }

  /** They never need more room than there is, and all of it if every one of them is there. */
  lemma Room(c: Bucket, xs: seq<int>, t: nat)
    requires c.Good() && Starters(c, xs) && t < 256
    ensures |Preds(c.b, xs, t)| <= c.Hi(t) - c.Lo(t)
    ensures (forall y :: 0 <= y < |c.b| && c.b[y] == c.s ==> y in xs) ==> |Preds(c.b, xs, t)| == c.Hi(t) - c.Lo(t)
  {
    hide Preds, Classed, Start, Ordered, Keys;
    var ys, v := Preds(c.b, xs, t), t * 256 + c.s;
    PredsDistinct(c.b, xs, t);
    forall y | y in ys ensures 0 <= y < |c.b| && v <= c.K()[y] < v + 1 { PredKey(c, xs, t, y); }
    if forall y :: 0 <= y < |c.b| && c.b[y] == c.s ==> y in xs {
      forall y | 0 <= y < |c.K()| && v <= c.K()[y] < v + 1 ensures y in ys {
        KeyParts(c.b, y);
        PredKey(c, xs, t, y);
      }
    }
    ClassSize(c.K(), c.f0, ys, v, v + 1);
  }

  /** What has been looked at from both ends. */
  lemma BothScans(c: Bucket, ls: seq<int>, m: nat, hs: seq<int>, m': nat)
    requires c.Good() && FallZone(c, ls) && ClimbZone(c, hs) && m <= |ls| && m' <= |hs|
    ensures Starters(c, ls[..m] + hs[|hs| - m'..]) && Positions(c.b, ls[..m]) && Positions(c.b, hs[|hs| - m'..])
  {
    hide Start, Classed, Ordered, Rising, Keys;
    var xs := ls[..m] + hs[|hs| - m'..];
    forall p, q | 0 <= p < q < |xs| ensures xs[p] != xs[q] {
      if p < m <= q { assert Falling(c.b, ls[p]) && Climbing(c.b, hs[|hs| - m' + (q - m)]); }
    }
  }

  /** Small bucket `t`, `s`: filled up to `v` and from behind `w`, and between them as it was. */
  ghost predicate Filled(c: Bucket, f: seq<int>, t: nat, v: int, w: int, xs: seq<int>, ys: seq<int>)
    requires c.Good() && |f| == |c.f0| && Positions(c.b, xs) && Positions(c.b, ys)
  {
    && 0 <= c.Lo(t) <= v <= w + 1 <= c.Hi(t) <= |f|
    && f[c.Lo(t)..v] == Preds(c.b, xs, t) && f[w + 1..c.Hi(t)] == Preds(c.b, ys, t) && f[v..w + 1] == c.f0[v..w + 1]
  }

  /** The place belongs to a small bucket that is being filled. */
  ghost predicate InScope(c: Bucket, p: int)
    requires c.Good() && 0 <= p < |c.f0|
  {
    c.K()[c.f0[p]] % 256 == c.s && !c.done[c.K()[c.f0[p]] / 256]
  }

  /** Everything else is as it was. */
  ghost predicate OthersAsWere(c: Bucket, f: seq<int>)
    requires c.Good() && |f| == |c.f0|
  {
    forall p :: 0 <= p < |f| && !InScope(c, p) ==> f[p] == c.f0[p]
  }

  /** The state of the scan: `ls` from the first place on and `hs` up to the last are the bucket so far; `m` and `m'` of
      them have been looked at. */
  ghost predicate Scanned(c: Bucket, f: seq<int>, cs: seq<int>, ce: seq<int>, ls: seq<int>, m: nat, hs: seq<int>, m': nat)
    requires c.Good()
  {
    && UpChain(c, ls, m) && DownChain(c, hs, m') && |f| == |c.f0| && |cs| == |ce| == 256
    && OthersAsWere(c, f)
    && forall t: nat {:trigger cs[t]} :: t < 256 && !c.done[t] ==> Filled(c, f, t, cs[t], ce[t], ls[..m], hs[|hs| - m'..])
  }

  lemma ScopeOf(c: Bucket, t: nat, p: int)
    requires c.Good() && t < 256 && c.Lo(t) <= p < c.Hi(t)
    ensures 0 <= p < |c.f0| && (InScope(c, p) <==> !c.done[t])
  {
    hide Start, Keys, Ordered, Ranks;
    Stretches(c, t);
    ClassAt(c.K(), c.f0, p, t * 256 + c.s);
  }

  lemma OutOfScope(c: Bucket, p: int)
    requires c.Good() && (c.First() <= p < c.Lo(c.s) || c.Hi(c.s) <= p < c.Last())
    ensures 0 <= p < |c.f0| && !InScope(c, p)
  {
    hide Start, Keys, Ordered, Ranks;
    Stretches(c, 0);
    RowKeys(c, p);
    KeyParts(c.b, c.f0[p]);
  }

  /** The bucket so far stands in the array. */
  lemma Standing(c: Bucket, f: seq<int>, cs: seq<int>, ce: seq<int>, ls: seq<int>, m: nat, hs: seq<int>, m': nat)
    requires c.Good() && Scanned(c, f, cs, ce, ls, m, hs, m')
    ensures 0 <= c.First() <= c.Lo(c.s) <= cs[c.s] <= ce[c.s] + 1 <= c.Hi(c.s) <= c.Last() <= |f| == |c.b|
    ensures f[c.First()..cs[c.s]] == ls && f[ce[c.s] + 1..c.Last()] == hs
  {
    hide Start, Keys, Ordered, Ranks, Preds, FallZone, ClimbZone, InScope;
    Stretches(c, 0);
    var s := c.s;
    assert Filled(c, f, s, cs[s], ce[s], ls[..m], hs[|hs| - m'..]) by { assert cs[s] == cs[s]; }
    assert f[c.First()..c.Lo(s)] == Before(c) by {
      forall p | c.First() <= p < c.Lo(s) ensures f[p] == c.f0[p] { OutOfScope(c, p); }
    }
    assert f[c.Hi(s)..c.Last()] == Behind(c) by {
      forall p | c.Hi(s) <= p < c.Last() ensures f[p] == c.f0[p] { OutOfScope(c, p); }
    }
    assert f[c.First()..cs[s]] == f[c.First()..c.Lo(s)] + f[c.Lo(s)..cs[s]];
    assert f[ce[s] + 1..c.Last()] == f[ce[s] + 1..c.Hi(s)] + f[c.Hi(s)..c.Last()];
  }

  /** A write outside a small bucket. */
  lemma FilledKept(c: Bucket, f: seq<int>, t: nat, v: int, w: int, xs: seq<int>, ys: seq<int>, p: int, k: int)
    requires c.Good() && |f| == |c.f0| && Positions(c.b, xs) && Positions(c.b, ys) && Filled(c, f, t, v, w, xs, ys)
    requires 0 <= p < |f| && (p < c.Lo(t) || c.Hi(t) <= p)
    ensures Filled(c, f[p := k], t, v, w, xs, ys)
  {
    hide Start, Keys, Ordered, Ranks, Preds, Classed;
  }

  lemma FilledUp(c: Bucket, f: seq<int>, t: nat, v: int, w: int, xs: seq<int>, ys: seq<int>, x: int)
    requires c.Good() && |f| == |c.f0| && Positions(c.b, xs) && Positions(c.b, ys) && Filled(c, f, t, v, w, xs, ys)
    requires 0 <= x < |c.b|
    ensures Positions(c.b, xs + [x])
    ensures c.b[Prev(x, |c.b|)] != t ==> Filled(c, f, t, v, w, xs + [x], ys)
    ensures c.b[Prev(x, |c.b|)] == t && v <= w ==> Filled(c, f[v := Prev(x, |c.b|)], t, v + 1, w, xs + [x], ys)
  {
    hide Start, Keys, Ordered, Ranks, Preds, Classed;
    PredsPush(c.b, xs, x, t);
    if c.b[Prev(x, |c.b|)] == t && v <= w {
      var g := f[v := Prev(x, |c.b|)];
      assert g[c.Lo(t)..v + 1] == f[c.Lo(t)..v] + [Prev(x, |c.b|)];
      assert g[w + 1..c.Hi(t)] == f[w + 1..c.Hi(t)];
      assert g[v + 1..w + 1] == f[v..w + 1][1..] == c.f0[v + 1..w + 1];
    }
  }

  lemma FilledDown(c: Bucket, f: seq<int>, t: nat, v: int, w: int, xs: seq<int>, ys: seq<int>, x: int)
    requires c.Good() && |f| == |c.f0| && Positions(c.b, xs) && Positions(c.b, ys) && Filled(c, f, t, v, w, xs, ys)
    requires 0 <= x < |c.b|
    ensures Positions(c.b, [x] + ys)
    ensures c.b[Prev(x, |c.b|)] != t ==> Filled(c, f, t, v, w, xs, [x] + ys)
    ensures c.b[Prev(x, |c.b|)] == t && v <= w ==> Filled(c, f[w := Prev(x, |c.b|)], t, v, w - 1, xs, [x] + ys)
  {
    hide Start, Keys, Ordered, Ranks, Preds, Classed;
    PredsOne(c.b, x, t);
    PredsJoin(c.b, [x], ys, t);
    if c.b[Prev(x, |c.b|)] == t && v <= w {
      var g := f[w := Prev(x, |c.b|)];
      assert g[w..c.Hi(t)] == [Prev(x, |c.b|)] + f[w + 1..c.Hi(t)];
      assert g[c.Lo(t)..v] == f[c.Lo(t)..v];
      assert g[v..w] == f[v..w + 1][..w - v] == c.f0[v..w];
    } else if c.b[Prev(x, |c.b|)] != t {
      assert [] + Preds(c.b, ys, t) == Preds(c.b, ys, t);
    }
  }

  /** There is a place left for the rotation before `x`. */
  lemma PlaceLeft(c: Bucket, f: seq<int>, t: nat, v: int, w: int, xs: seq<int>, ys: seq<int>, x: int)
    requires c.Good() && t < 256 && |f| == |c.f0| && Positions(c.b, xs) && Positions(c.b, ys) && Filled(c, f, t, v, w, xs, ys)
    requires Starters(c, xs + [x] + ys) && 0 <= x < |c.b| && c.b[Prev(x, |c.b|)] == t
    ensures v <= w
  {
    hide Start, Keys, Ordered, Ranks, Preds, Classed, Starters;
    Room(c, xs + [x] + ys, t);
    PredsPush(c.b, xs, x, t);
    PredsJoin(c.b, xs + [x], ys, t);
  }

  /** One step of the upward scan. */
  lemma UpScan(c: Bucket, f: seq<int>, cs: seq<int>, ce: seq<int>, ls: seq<int>, m: nat, hs: seq<int>, m': nat)
    requires c.Good() && Scanned(c, f, cs, ce, ls, m, hs, m') && m < |ls|
    ensures 0 <= ls[m] < |c.b| && |f| == |c.b| && |cs| == |ce| == 256
    ensures var k := Prev(ls[m], |c.b|); var t := c.b[k];
            && 0 <= t < 256
            && if c.done[t] then Scanned(c, f, cs, ce, ls, m + 1, hs, m')
               else 0 <= cs[t] < |f| && Scanned(c, f[cs[t] := k], cs[t := cs[t] + 1], ce, if t == c.s then ls + [k] else ls, m + 1, hs, m')
  {
    hide Start, Keys, Ordered, Ranks, Preds, Classed, FallZone, ClimbZone, Before, Behind, Starters, Filled, InScope;
    Stretches(c, 0);
    UpStep(c, ls, m);
    BothScans(c, ls, m + 1, hs, m');
    var x, xs, ys := ls[m], ls[..m], hs[|hs| - m'..];
    var k := Prev(x, |c.b|);
    var t: nat := c.b[k];
    assert ls[..m + 1] == xs + [x];
    forall u: nat | u < 256 && !c.done[u] ensures Filled(c, f, u, cs[u], ce[u], xs, ys) { assert cs[u] == cs[u]; }
    if c.done[t] {
      forall u: nat {:trigger cs[u]} | u < 256 && !c.done[u] ensures Filled(c, f, u, cs[u], ce[u], ls[..m + 1], ys) {
        FilledUp(c, f, u, cs[u], ce[u], xs, ys, x);
      }
    } else {
      PlaceLeft(c, f, t, cs[t], ce[t], xs, ys, x);
      FilledBounds(c, f, t, cs[t], ce[t], xs, ys);
      var g, cs', ls' := f[cs[t] := k], cs[t := cs[t] + 1], if t == c.s then ls + [k] else ls;
      assert ls'[..m + 1] == xs + [x];
      forall u: nat {:trigger cs'[u]} | u < 256 && !c.done[u] ensures Filled(c, g, u, cs'[u], ce[u], ls'[..m + 1], ys) {
        FilledUp(c, f, u, cs[u], ce[u], xs, ys, x);
        if u != t {
          StretchesApart(c, t, u);
          FilledKept(c, f, u, cs[u], ce[u], xs + [x], ys, cs[t], k);
        }
      }
      ScopeOf(c, t, cs[t]);
      assert OthersAsWere(c, g);
    }
  }

  lemma FilledBounds(c: Bucket, f: seq<int>, t: nat, v: int, w: int, xs: seq<int>, ys: seq<int>)
    requires c.Good() && |f| == |c.f0| && Positions(c.b, xs) && Positions(c.b, ys) && Filled(c, f, t, v, w, xs, ys)
    ensures 0 <= c.Lo(t) <= v <= w + 1 <= c.Hi(t) <= |f|
  {
  }

  /** One step of the downward scan. */
  lemma DownScan(c: Bucket, f: seq<int>, cs: seq<int>, ce: seq<int>, ls: seq<int>, m: nat, hs: seq<int>, m': nat)
    requires c.Good() && Scanned(c, f, cs, ce, ls, m, hs, m') && m' < |hs|
    ensures 0 <= hs[|hs| - m' - 1] < |c.b| && |f| == |c.b| && |cs| == |ce| == 256
    ensures var k := Prev(hs[|hs| - m' - 1], |c.b|); var t := c.b[k];
            && 0 <= t < 256
            && if c.done[t] then Scanned(c, f, cs, ce, ls, m, hs, m' + 1)
               else 0 <= ce[t] < |f| && Scanned(c, f[ce[t] := k], cs, ce[t := ce[t] - 1], ls, m, if t == c.s then [k] + hs else hs, m' + 1)
  {
    hide Start, Keys, Ordered, Ranks, Preds, Classed, FallZone, ClimbZone, Before, Behind, Starters, Filled, InScope;
    Stretches(c, 0);
    DownStep(c, hs, m');
    BothScans(c, ls, m, hs, m' + 1);
    var x, xs, ys := hs[|hs| - m' - 1], ls[..m], hs[|hs| - m'..];
    var k := Prev(x, |c.b|);
    var t: nat := c.b[k];
    assert hs[|hs| - (m' + 1)..] == [x] + ys;
    assert xs + ([x] + ys) == xs + [x] + ys;
    forall u: nat | u < 256 && !c.done[u] ensures Filled(c, f, u, cs[u], ce[u], xs, ys) { assert cs[u] == cs[u]; }
    if c.done[t] {
      forall u: nat {:trigger cs[u]} | u < 256 && !c.done[u] ensures Filled(c, f, u, cs[u], ce[u], xs, hs[|hs| - (m' + 1)..]) {
        FilledDown(c, f, u, cs[u], ce[u], xs, ys, x);
      }
    } else {
      PlaceLeft(c, f, t, cs[t], ce[t], xs, ys, x);
      FilledBounds(c, f, t, cs[t], ce[t], xs, ys);
      var g, ce', hs' := f[ce[t] := k], ce[t := ce[t] - 1], if t == c.s then [k] + hs else hs;
      assert hs'[|hs'| - (m' + 1)..] == [x] + ys;
      forall u: nat {:trigger cs[u]} | u < 256 && !c.done[u] ensures Filled(c, g, u, cs[u], ce'[u], xs, hs'[|hs'| - (m' + 1)..]) {
        FilledDown(c, f, u, cs[u], ce[u], xs, ys, x);
        if u != t {
          StretchesApart(c, t, u);
          FilledKept(c, f, u, cs[u], ce[u], xs, [x] + ys, ce[t], k);
        }
      }
      ScopeOf(c, t, ce[t]);
      assert OthersAsWere(c, g);
    }
  }

  // ----- the end of the scan

  /** Everything that starts with `s` is found, unless there is nothing else in the block. */
  lemma {:induction false} Found(c: Bucket, ls: seq<int>, hs: seq<int>, x: int, w: int, m: nat)
    requires c.Good() && UpChain(c, ls, |ls|) && DownChain(c, hs, |hs|)
    requires 0 <= x < |c.b| && c.b[x] == c.s && 0 <= w < |c.b| && c.b[w] != c.s && Adv(x, m, |c.b|) == w
    ensures x in ls || x in hs
    decreases m
  {
    hide Start, Keys, Ordered, Ranks, Preds, Classed, FallZone, ClimbZone, Before, Behind, Adv;
    var n, s := |c.b|, c.s;
    assert ls[..|ls|] == ls && hs[|hs| - |hs|..] == hs;
    if m == 0 {
      AdvOne(x, n);
    } else if c.b[Next(x, n)] == s {
      AdvAdd(x, 1, m - 1, n);
      AdvOne(x, n);
      Found(c, ls, hs, Next(x, n), w, m - 1);
      PredsMember(c.b, ls, s, x);
      PredsMember(c.b, hs, s, x);
    } else {
      FoundFirst(c, x);
    }
  }

  lemma FoundFirst(c: Bucket, x: int)
    requires c.Good() && 0 <= x < |c.b| && c.b[x] == c.s && c.b[Next(x, |c.b|)] != c.s
    ensures x in Before(c) || x in Behind(c)
  {
    hide Start, Keys, Ordered, Ranks;
    var k, s := c.K(), c.s;
    KeyParts(c.b, x);
    Stretches(c, 0);
    if k[x] < s * 256 + s {
      var p := ClassFind(k, c.f0, x, s * 256, s * 256 + s);
      assert Before(c)[p - c.First()] == x;
    } else {
      var p := ClassFind(k, c.f0, x, s * 256 + s + 1, (s + 1) * 256);
      assert Behind(c)[p - c.Hi(s)] == x;
    }
  }

  /** The whole big bucket. */
  lemma AllFound(c: Bucket, ls: seq<int>, hs: seq<int>, w: int)
    requires c.Good() && UpChain(c, ls, |ls|) && DownChain(c, hs, |hs|) && 0 <= w < |c.b| && c.b[w] != c.s
    ensures Starters(c, ls + hs) && Positions(c.b, ls) && Positions(c.b, hs) && Rising(c.b, ls + hs)
    ensures forall y :: 0 <= y < |c.b| && c.b[y] == c.s ==> y in ls + hs
  {
    hide Start, Keys, Ordered, Ranks, Preds, Classed, Before, Behind, Key, Starters;
    BothScans(c, ls, |ls|, hs, |hs|);
    assert ls[..|ls|] == ls && hs[|hs| - |hs|..] == hs;
    forall y | 0 <= y < |c.b| && c.b[y] == c.s ensures y in ls + hs {
      var m := Comes(c.b, y, w);
      Found(c, ls, hs, y, w, m);
    }
    forall x, y | x in ls && y in hs ensures Key(Ranks(c.b), x) <= Key(Ranks(c.b), y) { FallingFirst(c.b, x, y); }
    RisingJoin(c.b, ls, hs);
  }

  /** When both scans have come to their ends in a block that is not all `s`, every bucket that was to be filled is full,
      with its rotations in order; assertion 1007. */
  lemma BucketFull(c: Bucket, f: seq<int>, cs: seq<int>, ce: seq<int>, ls: seq<int>, hs: seq<int>, w: int, t: nat)
    requires c.Good() && Scanned(c, f, cs, ce, ls, |ls|, hs, |hs|) && 0 <= w < |c.b| && c.b[w] != c.s && t < 256 && !c.done[t]
    ensures 0 <= c.Lo(t) <= cs[t] == ce[t] + 1 <= c.Hi(t) <= |f| == |c.b|
    ensures Starters(c, ls + hs) && Rising(c.b, ls + hs) && Positions(c.b, ls + hs) && f[c.Lo(t)..c.Hi(t)] == Preds(c.b, ls + hs, t)
  {
    hide Start, Keys, Ordered, Ranks, Preds, Classed, Before, Behind, Key, Starters, FallZone, ClimbZone, InScope, Filled,
         OthersAsWere, UpChain, DownChain, Rising, Bucket.Good, Distinct;
    EndChains(c, f, cs, ce, ls, hs, t);
    AllFound(c, ls, hs, w);
    Stretches(c, t);
    Room(c, ls + hs, t);
    FilledFull(c, f, t, cs[t], ce[t], ls, hs);
  }

  lemma EndChains(c: Bucket, f: seq<int>, cs: seq<int>, ce: seq<int>, ls: seq<int>, hs: seq<int>, t: nat)
    requires c.Good() && Scanned(c, f, cs, ce, ls, |ls|, hs, |hs|) && t < 256 && !c.done[t]
    ensures UpChain(c, ls, |ls|) && DownChain(c, hs, |hs|) && |f| == |c.f0| && |cs| == |ce| == 256
    ensures Positions(c.b, ls) && Positions(c.b, hs) && Filled(c, f, t, cs[t], ce[t], ls, hs)
  {
    hide Start, Keys, Ordered, Ranks, Preds, Classed, Before, Behind, Rising, Distinct, InScope, Filled;
    assert ls[..|ls|] == ls && hs[|hs| - |hs|..] == hs;
    assert cs[t] == cs[t];
  }

  lemma FilledFull(c: Bucket, f: seq<int>, t: nat, v: int, w: int, xs: seq<int>, ys: seq<int>)
    requires c.Good() && |f| == |c.f0| && Positions(c.b, xs) && Positions(c.b, ys) && Filled(c, f, t, v, w, xs, ys)
    requires Positions(c.b, xs + ys) && |Preds(c.b, xs + ys, t)| == c.Hi(t) - c.Lo(t)
    ensures v == w + 1 && 0 <= c.Lo(t) <= v <= c.Hi(t) <= |f| && f[c.Lo(t)..c.Hi(t)] == Preds(c.b, xs + ys, t)
  {
    hide Start, Keys, Ordered, Ranks, Preds, Classed;
    PredsJoin(c.b, xs, ys, t);
    assert f[c.Lo(t)..c.Hi(t)] == f[c.Lo(t)..v] + f[v..c.Hi(t)];
  }

  /** What the scan leaves behind: every rotation once, in the stretch of its key, and every bucket it filled in order. */
  ghost predicate Result(c: Bucket, f: seq<int>)
    requires c.Good()
  {
    && Classed(c.K(), f) && |f| == |c.f0| && OthersAsWere(c, f)
    && forall t: nat {:trigger c.done[t]} :: t < 256 && !c.done[t] ==> Ordered(f, Ranks(c.b), c.Lo(t), c.Hi(t))
  }

  /** Which small bucket a place belongs to. */
  lemma PlaceOf(c: Bucket, p: int) returns (t: nat)
    requires c.Good() && 0 <= p < |c.f0| && InScope(c, p)
    ensures t < 256 && !c.done[t] && c.Lo(t) <= p < c.Hi(t) && c.K()[c.f0[p]] == t * 256 + c.s
  {
    hide Start, Ordered, Ranks, Keys;
    KeyParts(c.b, c.f0[p]);
    t := c.K()[c.f0[p]] / 256;
    assert c.K()[c.f0[p]] == t * 256 + c.s;
  }

  /** A place keeps its key. */
  lemma PlaceKey(c: Bucket, f: seq<int>, cs: seq<int>, ce: seq<int>, ls: seq<int>, hs: seq<int>, w: int, p: int)
    requires c.Good() && Scanned(c, f, cs, ce, ls, |ls|, hs, |hs|) && 0 <= w < |c.b| && c.b[w] != c.s && 0 <= p < |f|
    ensures |f| == |c.f0| == |c.b| && 0 <= c.f0[p] < |c.b| && 0 <= f[p] < |c.b| && c.K()[f[p]] == c.K()[c.f0[p]]
  {
    hide Start, Keys, Ordered, Ranks, Preds, Rising, Starters, Filled, Before, Behind, FallZone, ClimbZone;
    Stretches(c, 0);
    if InScope(c, p) {
      var t := PlaceOf(c, p);
      BucketFull(c, f, cs, ce, ls, hs, w, t);
      assert f[p] == f[c.Lo(t)..c.Hi(t)][p - c.Lo(t)];
      assert f[p] in Preds(c.b, ls + hs, t);
      PredKey(c, ls + hs, t, f[p]);
    }
  }

  /** No rotation stands in two places. */
  lemma PlacesDiffer(c: Bucket, f: seq<int>, cs: seq<int>, ce: seq<int>, ls: seq<int>, hs: seq<int>, w: int, p: int, q: int)
    requires c.Good() && Scanned(c, f, cs, ce, ls, |ls|, hs, |hs|) && 0 <= w < |c.b| && c.b[w] != c.s && 0 <= p < q < |f|
    ensures f[p] != f[q]
  {
    hide Start, Keys, Ordered, Ranks, Preds, Rising, Filled, Before, Behind, FallZone, ClimbZone;
    PlaceKey(c, f, cs, ce, ls, hs, w, p);
    PlaceKey(c, f, cs, ce, ls, hs, w, q);
    if c.K()[c.f0[p]] == c.K()[c.f0[q]] && InScope(c, p) {
      var t := PlaceOf(c, p);
      var u := PlaceOf(c, q);
      BucketFull(c, f, cs, ce, ls, hs, w, t);
      PredsDistinct(c.b, ls + hs, t);
      var ys := f[c.Lo(t)..c.Hi(t)];
      assert ys[p - c.Lo(t)] != ys[q - c.Lo(t)];
    }
  }

  lemma ScanResult(c: Bucket, f: seq<int>, cs: seq<int>, ce: seq<int>, ls: seq<int>, hs: seq<int>, w: int)
    requires c.Good() && Scanned(c, f, cs, ce, ls, |ls|, hs, |hs|) && 0 <= w < |c.b| && c.b[w] != c.s
    ensures Result(c, f)
  {
    hide Start, Keys, Ranks, Key, Preds, Filled, Before, Behind, FallZone, ClimbZone, InScope, Starters;
    Stretches(c, 0);
    forall p | 0 <= p < |f|
      ensures 0 <= f[p] < |c.K()| && Start(c.K(), c.K()[f[p]]) <= p < Start(c.K(), c.K()[f[p]] + 1)
    {
      PlaceKey(c, f, cs, ce, ls, hs, w, p);
    }
    forall p, q | 0 <= p < q < |f| ensures f[p] != f[q] { PlacesDiffer(c, f, cs, ce, ls, hs, w, p, q); }
    forall t: nat {:trigger c.done[t]} | t < 256 && !c.done[t] ensures Ordered(f, Ranks(c.b), c.Lo(t), c.Hi(t)) {
      BucketFull(c, f, cs, ce, ls, hs, w, t);
      PredsRising(c.b, ls + hs, t);
      RisingOrdered(c.b, f, c.Lo(t), c.Hi(t));
    }
  }

  lemma RisingOrdered(b: seq<int>, f: seq<int>, lo: int, hi: int)
    requires 0 <= lo <= hi <= |f| && Rising(b, f[lo..hi])
    ensures Ordered(f, Ranks(b), lo, hi)
  {
    hide Ranks, Key;
    forall p, q | lo <= p < q < hi ensures Key(Ranks(b), f[p]) <= Key(Ranks(b), f[q]) {
      assert f[lo..hi][p - lo] == f[p] && f[lo..hi][q - lo] == f[q];
    }
  }

  /** A block that is all `s`: nothing is scanned, and there is nothing to put in order. */
  lemma AllSame(c: Bucket)
    requires c.Good() && forall i :: 0 <= i < |c.b| ==> c.b[i] == c.s
    ensures c.First() == c.Lo(c.s) == 0 && c.Hi(c.s) == c.Last() == |c.b| && Result(c, c.f0)
  {
    hide Start, Keys, Ranks, Key;
    var k, s := c.K(), c.s;
    Stretches(c, 0);
    forall i | 0 <= i < |c.b| ensures k[i] == s * 256 + s { KeyParts(c.b, i); }
    ClassRange(k, c.f0, 0, s * 256 + s, s * 256 + s + 1);
    ClassRange(k, c.f0, |c.b| - 1, s * 256 + s, s * 256 + s + 1);
    forall p, q | 0 <= p < q < |c.f0| ensures Key(Ranks(c.b), c.f0[p]) <= Key(Ranks(c.b), c.f0[q]) {
      ConstantTie(c.b, c.f0[p], c.f0[q], |c.b|);
      RankOrder(c.b, c.f0[p], c.f0[q]);
    }
    forall t: nat {:trigger c.done[t]} | t < 256 && !c.done[t] ensures Ordered(c.f0, Ranks(c.b), c.Lo(t), c.Hi(t)) {
      Stretches(c, t);
    }
  }

  /** Where the scan starts. */
  lemma ScanStart(c: Bucket, cs: seq<int>, ce: seq<int>)
    requires c.Good() && |cs| == |ce| == 256
    requires forall t: nat {:trigger cs[t]} :: t < 256 ==> cs[t] == c.Lo(t)
    requires forall t: nat {:trigger ce[t]} :: t < 256 ==> ce[t] == c.Hi(t) - 1
    ensures Scanned(c, c.f0, cs, ce, Before(c), 0, Behind(c), 0)
  {
    hide Start, Keys, Ranks, Key, UpChain, DownChain, Before, Behind, Ordered, Preds;
    ChainsStart(c);
    var ls, hs := Before(c), Behind(c);
    ChainParts(c, ls, hs);
    forall t: nat {:trigger cs[t]} | t < 256 && !c.done[t] ensures Filled(c, c.f0, t, cs[t], ce[t], ls[..0], hs[|hs| - 0..]) {
      Stretches(c, t);
      PredsNone(c.b, t);
      assert ce[t] == c.Hi(t) - 1;
      assert ls[..0] == [] && hs[|hs| - 0..] == [];
    }
  }

  lemma ChainParts(c: Bucket, ls: seq<int>, hs: seq<int>)
    requires c.Good() && UpChain(c, ls, 0) && DownChain(c, hs, 0)
    ensures Positions(c.b, ls[..0]) && Positions(c.b, hs[|hs| - 0..])
  {
    hide Start, Keys, Ranks, Key, Before, Behind, Ordered, Preds;
  }

  // ----- the scan itself

  const SETMASK := 0x20_0000

  /** ftab: where every small bucket starts, with a mark on those that are in order. */
  ghost predicate Table(ftab: seq<int>, k: seq<int>) {
    && |ftab| == 65537
    && forall sb: nat {:trigger ftab[sb]} :: sb < 65537 ==> 0 <= ftab[sb] && ftab[sb] % SETMASK == Start(k, sb)
  }

  /** `& CLEARMASK` */
  function Cleared(v: nat): (r: nat) { v % SETMASK }

  /** copyStart and copyEnd. */
  method CopyBounds(ftab: array<int>, ss: nat, ghost k: seq<int>) returns (copyStart: array<int>, copyEnd: array<int>)
    requires Table(ftab[..], k) && ss < 256
    ensures fresh(copyStart) && fresh(copyEnd) && copyStart != copyEnd && copyStart.Length == copyEnd.Length == 256
    ensures forall t: nat {:trigger copyStart[t]} :: t < 256 ==> copyStart[t] == Start(k, t * 256 + ss)
    ensures forall t: nat {:trigger copyEnd[t]} :: t < 256 ==> copyEnd[t] == Start(k, t * 256 + ss + 1) - 1
  {
    hide Start;
    copyStart, copyEnd := new int[256], new int[256];
    for j := 0 to 256
      invariant forall t: nat {:trigger copyStart[t]} :: t < j ==> copyStart[t] == Start(k, t * 256 + ss)
      invariant forall t: nat {:trigger copyEnd[t]} :: t < j ==> copyEnd[t] == Start(k, t * 256 + ss + 1) - 1
    {
      assert ftab[..][j * 256 + ss] == ftab[j * 256 + ss] && ftab[..][j * 256 + ss + 1] == ftab[j * 256 + ss + 1];
      copyStart[j] := Cleared(ftab[j * 256 + ss]);
      copyEnd[j] := Cleared(ftab[j * 256 + ss + 1]) - 1;
    }
  }

  /** One pointer of the scan: the rotation before it goes to its bucket, unless that is done. */
  method PutUp(ptr: array<int>, block: array<int>, bigDone: array<bool>, copyStart: array<int>, nblock: nat, j: nat,
               ghost c: Bucket, ghost ce: seq<int>, ghost ls: seq<int>, ghost m: nat, ghost hs: seq<int>) returns (ghost ls': seq<int>)
    requires ptr != block && ptr != copyStart && nblock <= ptr.Length && nblock <= block.Length
    requires copyStart.Length == 256 && block[..nblock] == c.b && bigDone[..] == c.done && c.Good()
    requires Scanned(c, ptr[..nblock], copyStart[..], ce, ls, m, hs, 0) && m < |ls| && j == c.First() + m
    modifies ptr, copyStart
    ensures Scanned(c, ptr[..nblock], copyStart[..], ce, ls', m + 1, hs, 0) && m + 1 <= |ls'|
  {
    hide Start, Keys, Ordered, Ranks, Preds, Classed, UpChain, DownChain, OthersAsWere, Filled;
    ghost var f, cs := ptr[..nblock], copyStart[..];
    Standing(c, f, cs, ce, ls, m, hs, 0);
    assert f[c.First()..cs[c.s]][m] == ptr[j] == ls[m];
    UpScan(c, f, cs, ce, ls, m, hs, 0);
    var k := ptr[j] - 1;
    if k < 0 { k := k + nblock; }
    var c1 := block[k];
    assert k == Prev(ls[m], |c.b|) && c.b[k] == c1;
    ls' := ls;
    if !bigDone[c1] {
      ptr[copyStart[c1]] := k;
      copyStart[c1] := copyStart[c1] + 1;
      assert ptr[..nblock] == f[cs[c1] := k] && copyStart[..] == cs[c1 := cs[c1] + 1];
      if c1 == c.s { ls' := ls + [k]; }
    }
  }

  method PutDown(ptr: array<int>, block: array<int>, bigDone: array<bool>, copyEnd: array<int>, nblock: nat, j: nat,
                 ghost c: Bucket, ghost cs: seq<int>, ghost ls: seq<int>, ghost m: nat, ghost hs: seq<int>, ghost m': nat)
    returns (ghost hs': seq<int>)
    requires ptr != block && ptr != copyEnd && nblock <= ptr.Length && nblock <= block.Length
    requires copyEnd.Length == 256 && block[..nblock] == c.b && bigDone[..] == c.done && c.Good()
    requires Scanned(c, ptr[..nblock], cs, copyEnd[..], ls, m, hs, m') && m' < |hs| && j == c.Last() - 1 - m'
    modifies ptr, copyEnd
    ensures Scanned(c, ptr[..nblock], cs, copyEnd[..], ls, m, hs', m' + 1) && m' + 1 <= |hs'|
  {
    hide Start, Keys, Ordered, Ranks, Preds, Classed, UpChain, DownChain, OthersAsWere, Filled;
    ghost var f, ce := ptr[..nblock], copyEnd[..];
    Standing(c, f, cs, ce, ls, m, hs, m');
    assert f[ce[c.s] + 1..c.Last()][|hs| - m' - 1] == ptr[j] == hs[|hs| - m' - 1];
    DownScan(c, f, cs, ce, ls, m, hs, m');
    var k := ptr[j] - 1;
    if k < 0 { k := k + nblock; }
    var c1 := block[k];
    assert k == Prev(hs[|hs| - m' - 1], |c.b|) && c.b[k] == c1;
    hs' := hs;
    if !bigDone[c1] {
      ptr[copyEnd[c1]] := k;
      copyEnd[c1] := copyEnd[c1] - 1;
      assert ptr[..nblock] == f[ce[c1] := k] && copyEnd[..] == ce[c1 := ce[c1] - 1];
      if c1 == c.s { hs' := [k] + hs; }
    }
  }

  /** Step 2: one scan of big bucket `ss` from each end puts all small buckets `t`, `ss` in order, `ss`, `ss` included. */
  method ScanBucket(ptr: array<int>, block: array<int>, bigDone: array<bool>, ftab: array<int>, nblock: nat, ss: nat, ghost c: Bucket)
    requires ptr != block && nblock <= ptr.Length && nblock <= block.Length && Table(ftab[..], c.K()) && ftab != ptr
    requires c.Good() && c.s == ss < 256 && ptr[..nblock] == c.f0 && block[..nblock] == c.b && bigDone[..] == c.done
    modifies ptr
    ensures Result(c, ptr[..nblock])
  {
    hide Start, Keys, Ordered, Ranks, Preds, Classed, UpChain, DownChain, OthersAsWere, Filled, Before, Behind, Result, Bucket.Good;
    var copyStart, copyEnd := CopyBounds(ftab, ss, c.K());
    ghost var ls, m: nat, hs, m': nat := Before(c), 0, Behind(c), 0;
    ScanStart(c, copyStart[..], copyEnd[..]);
    ghost var ce := copyEnd[..];
    Standing(c, ptr[..nblock], copyStart[..], ce, ls, m, hs, 0);
    TableAt(ftab[..], c.K(), ss * 256);
    TableAt(ftab[..], c.K(), (ss + 1) * 256);
    var j := Cleared(ftab[ss * 256]);
    while j < copyStart[ss]
      invariant Scanned(c, ptr[..nblock], copyStart[..], ce, ls, m, hs, 0) && copyEnd[..] == ce
      invariant j == c.First() + m && m <= |ls| && copyStart[ss] == c.First() + |ls| <= nblock
      decreases nblock - j
    {
      ls := PutUp(ptr, block, bigDone, copyStart, nblock, j, c, ce, ls, m, hs);
      m := m + 1;
      Standing(c, ptr[..nblock], copyStart[..], ce, ls, m, hs, 0);
      j := j + 1;
    }
    ghost var cs := copyStart[..];
    Standing(c, ptr[..nblock], cs, copyEnd[..], ls, m, hs, 0);
    j := Cleared(ftab[(ss + 1) * 256]) - 1;
    while j > copyEnd[ss]
      invariant Scanned(c, ptr[..nblock], cs, copyEnd[..], ls, |ls|, hs, m') && copyStart[..] == cs
      invariant j == c.Last() - 1 - m' && m' <= |hs| && copyEnd[ss] == c.Last() - 1 - |hs| && copyEnd[ss] >= -1
      decreases j
    {
      hs := PutDown(ptr, block, bigDone, copyEnd, nblock, j, c, cs, ls, |ls|, hs, m');
      m' := m' + 1;
      Standing(c, ptr[..nblock], cs, copyEnd[..], ls, |ls|, hs, m');
      j := j - 1;
    }
    ScanEnd(c, ptr[..nblock], cs, copyEnd[..], ls, hs);
    // assertion 1007 of the source
    assert copyStart[ss] - 1 == copyEnd[ss] || (copyStart[ss] == 0 && copyEnd[ss] == nblock - 1);
  }

  lemma TableAt(ftab: seq<int>, k: seq<int>, sb: nat)
    requires Table(ftab, k) && sb < 65537
    ensures |ftab| == 65537 && 0 <= ftab[sb] && Cleared(ftab[sb]) == Start(k, sb)
  {
  }

  lemma ScanEnd(c: Bucket, f: seq<int>, cs: seq<int>, ce: seq<int>, ls: seq<int>, hs: seq<int>)
    requires c.Good() && Scanned(c, f, cs, ce, ls, |ls|, hs, |hs|)
    ensures Result(c, f) && |cs| == |ce| == 256 && (cs[c.s] - 1 == ce[c.s] || (cs[c.s] == 0 && ce[c.s] == |c.b| - 1))
  {
    hide Start, Keys, Ordered, Ranks, Preds, Classed, UpChain, DownChain, OthersAsWere, Filled, Before, Behind, Result;
    if w :| 0 <= w < |c.b| && c.b[w] != c.s {
      ScanResult(c, f, cs, ce, ls, hs, w);
      BucketFull(c, f, cs, ce, ls, hs, w, c.s);
    } else {
      AllSame(c);
      NothingScanned(c, f, cs, ce, ls, hs);
    }
  }

  lemma NothingScanned(c: Bucket, f: seq<int>, cs: seq<int>, ce: seq<int>, ls: seq<int>, hs: seq<int>)
    requires c.Good() && Scanned(c, f, cs, ce, ls, |ls|, hs, |hs|) && forall i :: 0 <= i < |c.b| ==> c.b[i] == c.s
    ensures f == c.f0 && cs[c.s] == 0 && ce[c.s] == |c.b| - 1
  {
    hide Start, Keys, Ordered, Ranks, Preds, Classed, Before, Behind, Result, Filled, Rising, Distinct;
    AllSame(c);
    if ls != [] { NotFalling(c, ls[0]); }
    if hs != [] { NotFalling(c, hs[0]); }
    Standing(c, f, cs, ce, ls, 0, hs, 0);
    EndChains(c, f, cs, ce, ls, hs, c.s);
    forall p | 0 <= p < |f| ensures f[p] == c.f0[p] {
      MiddlePart(c, f, cs[c.s], ce[c.s], ls, hs, p);
    }
  }

  lemma NotFalling(c: Bucket, x: int)
    requires forall i :: 0 <= i < |c.b| ==> c.b[i] == c.s
    ensures !Falling(c.b, x) && !Climbing(c.b, x)
  {
    if 0 <= x < |c.b| { ConstantTie(c.b, x, Next(x, |c.b|), |c.b|); }
  }

  lemma MiddlePart(c: Bucket, f: seq<int>, v: int, w: int, xs: seq<int>, ys: seq<int>, p: int)
    requires c.Good() && |f| == |c.f0| && Positions(c.b, xs) && Positions(c.b, ys) && Filled(c, f, c.s, v, w, xs, ys)
    requires v <= p < w + 1
    ensures f[p] == c.f0[p]
  {
    hide Start, Keys, Ordered, Ranks, Preds, Classed;
    assert f[v..w + 1][p - v] == c.f0[v..w + 1][p - v];
  }
}
