/** sendMTFValues of deps/bzip2/compress.c: choosing coding tables and writing the block's bits. */
module BlockEncoder {
  import opened BitStream
  import opened BlockFormat
  import opened Counting
  import opened HuffmanCodes
  import opened HuffmanLengths
  import opened MoveToFront
  import opened Permutations
  import opened Powers
  import opened TwoLevelMtf

  const LESSER_ICOST := 0
  const GREATER_ICOST := 15
  const N_ITERS := 4
  const MAX_SELECTORS := 18002
  const MAX_MTF := 900_001

  /** All six tables have one length for each symbol, and none is above 17. */
  ghost predicate Costs(len: seq<seq<int>>, alphaSize: nat) {
    |len| == 6 && forall t :: 0 <= t < 6 ==> |len[t]| == alphaSize && LengthsIn(len[t], 0, 17)
  }

  ghost predicate SymbolsIn(mtfv: seq<int>, alphaSize: nat) {
    forall i :: 0 <= i < |mtfv| ==> 0 <= mtfv[i] < alphaSize
  }

  // ----- the first guess

  /** Cheap for the symbols from `lo` up to `hi`, dear for all others. */
  ghost predicate Guessed(row: seq<int>, lo: int, hi: int) {
    forall v :: 0 <= v < |row| ==> row[v] == if lo <= v < hi then LESSER_ICOST else GREATER_ICOST
  }

  /** One table that is cheap for symbols `gs..ge` only. */
  method GuessTable(alphaSize: nat, gs: int, ge: int) returns (row: seq<int>)
    ensures |row| == alphaSize && LengthsIn(row, 0, 17) && Guessed(row, gs, ge + 1)
  {
    row := [];
    for v := 0 to alphaSize
      invariant |row| == v
      invariant forall u :: 0 <= u < v ==> row[u] == if gs <= u <= ge then LESSER_ICOST else GREATER_ICOST
    {
      row := row + [if v >= gs && v <= ge then LESSER_ICOST else GREATER_ICOST];
    }
  }

  /** Table `nGroups - 1 - k` is cheap for the symbols from `cuts[k]` up to `cuts[k + 1]` and dear for all others. */
  ghost predicate Cut(len: seq<seq<int>>, cuts: seq<int>, nGroups: nat, alphaSize: nat) {
    && |cuts| <= nGroups + 1 <= 7 && Costs(len, alphaSize) && cuts != [] && cuts[0] == 0
    && (forall k {:trigger cuts[k]} :: 0 < k < |cuts| ==> cuts[k - 1] <= cuts[k] <= alphaSize)
    && forall k {:trigger cuts[k]} :: 0 <= k < |cuts| - 1 ==> Guessed(len[nGroups - 1 - k], cuts[k], cuts[k + 1])
  }

  lemma CutMore(len: seq<seq<int>>, cuts: seq<int>, nGroups: nat, alphaSize: nat, row: seq<int>, next: int)
    requires Cut(len, cuts, nGroups, alphaSize) && |cuts| <= nGroups && cuts[|cuts| - 1] <= next <= alphaSize
    requires |row| == alphaSize && LengthsIn(row, 0, 17)
    requires Guessed(row, cuts[|cuts| - 1], next)
    ensures Cut(len[nGroups - |cuts| := row], cuts + [next], nGroups, alphaSize)
  {
    hide Guessed;
    var len', cuts' := len[nGroups - |cuts| := row], cuts + [next];
    forall k {:trigger cuts'[k]} | 0 <= k < |cuts'| - 1 ensures Guessed(len'[nGroups - 1 - k], cuts'[k], cuts'[k + 1]) {
      if k < |cuts| - 1 { assert Guessed(len[nGroups - 1 - k], cuts[k], cuts[k + 1]); }
    }
  }

  ghost function FreqSum(f: seq<int>, k: nat): int
    requires k <= |f|
  {
    if k == 0 then 0 else FreqSum(f, k - 1) + f[k - 1]
  }

  /** `gs..ge` is the shortest range from `gs` on that reaches the frequency aimed at, or all that is left. */
  ghost predicate Reaches(f: seq<int>, gs: int, ge: int, tFreq: int, alphaSize: nat)
    requires alphaSize <= |f|
  {
    && 0 <= gs <= ge + 1 <= alphaSize
    && (FreqSum(f, ge + 1) - FreqSum(f, gs) >= tFreq || ge == alphaSize - 1)
    && (ge >= gs ==> FreqSum(f, ge) - FreqSum(f, gs) < tFreq)
  }

  /** Range `k` takes its share of the frequency that is left, and every other one gives its last symbol away, unless
      it is the first or the last range or has no other symbol. */
  ghost predicate Shared(f: seq<int>, nMTF: int, nGroups: nat, alphaSize: nat, gs: int, next: int, k: nat)
    requires alphaSize <= |f| && k < nGroups
  {
    0 <= gs <= alphaSize && exists ge :: SharedUpTo(f, nMTF, nGroups, alphaSize, gs, ge, next, k)
  }

  ghost predicate SharedUpTo(f: seq<int>, nMTF: int, nGroups: nat, alphaSize: nat, gs: int, ge: int, next: int, k: nat)
    requires alphaSize <= |f| && k < nGroups && 0 <= gs <= alphaSize
  {
    && Reaches(f, gs, ge, (nMTF - FreqSum(f, gs)) / (nGroups - k), alphaSize)
    && next == if ge > gs && 0 < k < nGroups - 1 && k % 2 == 1 then ge else ge + 1
  }

  /** All ranges so far are cut off like that. */
  ghost predicate AllShared(f: seq<int>, nMTF: int, nGroups: nat, alphaSize: nat, cuts: seq<int>)
    requires alphaSize <= |f| && |cuts| <= nGroups + 1
  {
    forall k {:trigger cuts[k]} :: 0 <= k < |cuts| - 1 ==> Shared(f, nMTF, nGroups, alphaSize, cuts[k], cuts[k + 1], k)
  }

  lemma SharedMore(f: seq<int>, nMTF: int, nGroups: nat, alphaSize: nat, cuts: seq<int>, next: int)
    requires alphaSize <= |f| && 0 < |cuts| <= nGroups && AllShared(f, nMTF, nGroups, alphaSize, cuts)
    requires Shared(f, nMTF, nGroups, alphaSize, cuts[|cuts| - 1], next, |cuts| - 1)
    ensures AllShared(f, nMTF, nGroups, alphaSize, cuts + [next])
  {
    hide Shared;
    var cuts' := cuts + [next];
    forall k {:trigger cuts'[k]} | 0 <= k < |cuts'| - 1
      ensures Shared(f, nMTF, nGroups, alphaSize, cuts'[k], cuts'[k + 1], k)
    {
      if k < |cuts| - 1 { assert Shared(f, nMTF, nGroups, alphaSize, cuts[k], cuts[k + 1], k); }
    }
  }

  /** The initial set of tables: the symbols are cut into `nGroups` consecutive ranges of about equal frequency. When
      the frequencies are those of the symbols, no symbol that occurs is left out. */
  method InitialTables(mtfFreq: seq<int>, nMTF: int, nGroups: nat, alphaSize: nat) returns (len: seq<seq<int>>, ghost cuts: seq<int>)
    requires 2 <= nGroups <= 6 && |mtfFreq| >= alphaSize
    ensures Cut(len, cuts, nGroups, alphaSize) && |cuts| == nGroups + 1
    ensures AllShared(mtfFreq, nMTF, nGroups, alphaSize, cuts)
    ensures FreqSum(mtfFreq, alphaSize) == nMTF && (forall v :: 0 <= v < alphaSize ==> mtfFreq[v] >= 0) ==>
      forall v :: cuts[nGroups] <= v < alphaSize ==> mtfFreq[v] == 0
  {
    var row := GuessTable(alphaSize, 0, -1);
    len := [row, row, row, row, row, row];
    var nPart := nGroups;
    var remF := nMTF;
    var gs := 0;
    cuts := [0];
    while nPart > 0
      invariant nPart <= nGroups && 0 <= gs <= alphaSize && |cuts| == nGroups - nPart + 1 && cuts[nGroups - nPart] == gs
      invariant Cut(len, cuts, nGroups, alphaSize) && remF == nMTF - FreqSum(mtfFreq, gs)
      invariant AllShared(mtfFreq, nMTF, nGroups, alphaSize, cuts)
      invariant nPart == 0 ==> gs == alphaSize || FreqSum(mtfFreq, gs) >= nMTF
    {
      hide Cut, FreqSum, Shared, AllShared, Guessed;
      var next;
      row, next, remF := CutOff(mtfFreq, nMTF, nGroups, alphaSize, nPart, gs, remF);
      CutMore(len, cuts, nGroups, alphaSize, row, next);
      len := len[nPart - 1 := row];
      SharedMore(mtfFreq, nMTF, nGroups, alphaSize, cuts, next);
      cuts := cuts + [next];
      nPart := nPart - 1;
      gs := next;
    }
    if FreqSum(mtfFreq, alphaSize) == nMTF && forall v :: 0 <= v < alphaSize ==> mtfFreq[v] >= 0 {
      NothingLeft(mtfFreq, gs, alphaSize);
    }
  }

  lemma {:induction false} NothingLeft(f: seq<int>, gs: nat, k: nat)
    requires gs <= k <= |f| && FreqSum(f, gs) >= FreqSum(f, k) && forall v :: 0 <= v < k ==> f[v] >= 0
    ensures FreqSum(f, gs) == FreqSum(f, k) && forall v :: gs <= v < k ==> f[v] == 0
    decreases k
  {
    if gs < k { NothingLeft(f, gs, k - 1); }
  }

  /** One range, and its table. */
  method CutOff(mtfFreq: seq<int>, nMTF: int, nGroups: nat, alphaSize: nat, nPart: nat, gs: int, remF0: int)
    returns (row: seq<int>, next: int, remF: int)
    requires 0 <= gs <= alphaSize <= |mtfFreq| && 1 <= nPart <= nGroups && remF0 == nMTF - FreqSum(mtfFreq, gs)
    ensures |row| == alphaSize && LengthsIn(row, 0, 17) && gs <= next <= alphaSize && Guessed(row, gs, next)
    ensures remF == nMTF - FreqSum(mtfFreq, next)
    ensures Shared(mtfFreq, nMTF, nGroups, alphaSize, gs, next, nGroups - nPart)
    ensures nPart == 1 ==> next == alphaSize || FreqSum(mtfFreq, next) >= nMTF
  {
    var ge, aFreq := NextRange(mtfFreq, gs, remF0 / nPart, alphaSize);
    ghost var reached := ge;
    if ge > gs && nPart != nGroups && nPart != 1 && (nGroups - nPart) % 2 == 1 {
      aFreq := aFreq - mtfFreq[ge];
      ge := ge - 1;
    }
    row := GuessTable(alphaSize, gs, ge);
    next := ge + 1;
    remF := remF0 - aFreq;
    assert SharedUpTo(mtfFreq, nMTF, nGroups, alphaSize, gs, reached, next, nGroups - nPart);
  }

  /** The shortest range from `gs` on that reaches the frequency aimed at, or all that is left. */
  method NextRange(mtfFreq: seq<int>, gs: int, tFreq: int, alphaSize: nat) returns (ge: int, aFreq: int)
    requires 0 <= gs <= alphaSize <= |mtfFreq|
    ensures Reaches(mtfFreq, gs, ge, tFreq, alphaSize)
    ensures aFreq == FreqSum(mtfFreq, ge + 1) - FreqSum(mtfFreq, gs)
  {
    ge := gs - 1;
    aFreq := 0;
    while aFreq < tFreq && ge < alphaSize - 1
      invariant gs - 1 <= ge < alphaSize && aFreq == FreqSum(mtfFreq, ge + 1) - FreqSum(mtfFreq, gs)
      invariant ge >= gs ==> FreqSum(mtfFreq, ge) - FreqSum(mtfFreq, gs) < tFreq
      decreases alphaSize - ge
    {
      ge := ge + 1;
      aFreq := aFreq + mtfFreq[ge];
    }
  }

  // ----- the cost of a group

  /** What symbols `gs..ge-1` cost under one table. */
  ghost function CostOf(row: seq<int>, mtfv: seq<int>, gs: nat, ge: nat): int
    requires gs <= ge <= |mtfv| && SymbolsIn(mtfv, |row|)
    decreases ge
  {
    if ge == gs then 0 else CostOf(row, mtfv, gs, ge - 1) + row[mtfv[ge - 1]]
  }

  lemma {:induction false} CostBound(row: seq<int>, mtfv: seq<int>, gs: nat, ge: nat)
    requires gs <= ge <= |mtfv| && SymbolsIn(mtfv, |row|) && LengthsIn(row, 0, 17)
    ensures 0 <= CostOf(row, mtfv, gs, ge) <= 17 * (ge - gs)
    decreases ge
  {
    if ge > gs { CostBound(row, mtfv, gs, ge - 1); }
  }

  ghost predicate CostsOf(cost: seq<int>, len: seq<seq<int>>, nGroups: nat, mtfv: seq<int>, alphaSize: nat, gs: nat, ge: nat)
    requires Costs(len, alphaSize) && nGroups <= 6 && gs <= ge <= |mtfv| && SymbolsIn(mtfv, alphaSize)
  {
    |cost| == 6 && forall t :: 0 <= t < nGroups ==> cost[t] == CostOf(len[t], mtfv, gs, ge)
  }

  /** Two lengths in one word. */
  function Pack(hi: int, lo: int): int { hi * 0x1_0000 + lo }

  /** The fast track for six tables and a full group: two costs are summed up in one word. Sixteen
      bits are enough, so nothing carries over and the result is what the slow version computes. */
  method PackedCost(len: seq<seq<int>>, alphaSize: nat, mtfv: seq<int>, gs: nat, ge: nat) returns (cost: seq<int>)
    requires Costs(len, alphaSize) && SymbolsIn(mtfv, alphaSize) && gs <= ge <= |mtfv| && ge - gs == G_SIZE
    ensures CostsOf(cost, len, 6, mtfv, alphaSize, gs, ge)
  {
    hide CostOf, Pack;
    var cost01, cost23, cost45 := 0, 0, 0;
    var i := gs;
    CostNone(len, alphaSize, mtfv, gs);
    while i < ge
      invariant gs <= i <= ge
      invariant cost01 == Pack(CostOf(len[1], mtfv, gs, i), CostOf(len[0], mtfv, gs, i))
      invariant cost23 == Pack(CostOf(len[3], mtfv, gs, i), CostOf(len[2], mtfv, gs, i))
      invariant cost45 == Pack(CostOf(len[5], mtfv, gs, i), CostOf(len[4], mtfv, gs, i))
    {
      var icv := mtfv[i];
      CostStep(len, alphaSize, mtfv, gs, i, 0);
      CostStep(len, alphaSize, mtfv, gs, i, 2);
      CostStep(len, alphaSize, mtfv, gs, i, 4);
      cost01 := cost01 + Pack(len[1][icv], len[0][icv]);
      cost23 := cost23 + Pack(len[3][icv], len[2][icv]);
      cost45 := cost45 + Pack(len[5][icv], len[4][icv]);
      i := i + 1;
    }
    forall t | 0 <= t < 6 ensures 0 <= CostOf(len[t], mtfv, gs, ge) < 0x1_0000 {
      CostBound(len[t], mtfv, gs, ge);
    }
    Unpack(CostOf(len[1], mtfv, gs, ge), CostOf(len[0], mtfv, gs, ge));
    Unpack(CostOf(len[3], mtfv, gs, ge), CostOf(len[2], mtfv, gs, ge));
    Unpack(CostOf(len[5], mtfv, gs, ge), CostOf(len[4], mtfv, gs, ge));
    cost := [cost01 % 0x1_0000, cost01 / 0x1_0000, cost23 % 0x1_0000, cost23 / 0x1_0000,
             cost45 % 0x1_0000, cost45 / 0x1_0000];
  }

  lemma {:induction false} CostNone(len: seq<seq<int>>, alphaSize: nat, mtfv: seq<int>, gs: nat)
    requires Costs(len, alphaSize) && SymbolsIn(mtfv, alphaSize) && gs <= |mtfv|
    ensures forall t :: 0 <= t < 6 ==> CostOf(len[t], mtfv, gs, gs) == 0
    ensures Pack(0, 0) == 0
  {
  }

  /** One more symbol in a packed pair of costs. */
  lemma {:induction false} CostStep(len: seq<seq<int>>, alphaSize: nat, mtfv: seq<int>, gs: nat, i: nat, t: nat)
    requires Costs(len, alphaSize) && SymbolsIn(mtfv, alphaSize) && gs <= i < |mtfv| && t + 1 < 6
    ensures Pack(CostOf(len[t + 1], mtfv, gs, i + 1), CostOf(len[t], mtfv, gs, i + 1))
         == Pack(CostOf(len[t + 1], mtfv, gs, i), CostOf(len[t], mtfv, gs, i)) + Pack(len[t + 1][mtfv[i]], len[t][mtfv[i]])
  {
    assert |len[t]| == alphaSize && |len[t + 1]| == alphaSize;
  }

  lemma Unpack(hi: int, lo: int)
    requires 0 <= lo < 0x1_0000
    ensures Pack(hi, lo) % 0x1_0000 == lo && Pack(hi, lo) / 0x1_0000 == hi
  {
  }

  /** The slow version. */
  method PlainCost(len: seq<seq<int>>, nGroups: nat, alphaSize: nat, mtfv: seq<int>, gs: nat, ge: nat) returns (cost: seq<int>)
    requires Costs(len, alphaSize) && SymbolsIn(mtfv, alphaSize) && gs <= ge <= |mtfv| && nGroups <= 6
    ensures CostsOf(cost, len, nGroups, mtfv, alphaSize, gs, ge)
  {
    cost := [0, 0, 0, 0, 0, 0];
    var i := gs;
    while i < ge
      invariant gs <= i <= ge && CostsOf(cost, len, nGroups, mtfv, alphaSize, gs, i)
    {
      var icv := mtfv[i];
      ghost var c := cost;
      for t := 0 to nGroups
        invariant |cost| == 6
        invariant forall u :: 0 <= u < t ==> cost[u] == c[u] + len[u][icv]
        invariant forall u :: t <= u < nGroups ==> cost[u] == c[u]
      {
        cost := cost[t := cost[t] + len[t][icv]];
      }
      i := i + 1;
    }
  }

  /** The cheapest table, the first one among equals. */
  method BestTable(cost: seq<int>, nGroups: nat) returns (bt: int)
    requires 1 <= nGroups <= |cost| && forall t :: 0 <= t < nGroups ==> cost[t] < 999999999
    ensures 0 <= bt < nGroups && forall t :: 0 <= t < nGroups ==> cost[bt] <= cost[t] && (t < bt ==> cost[bt] < cost[t])
  {
    var bc := 999999999;
    bt := -1;
    for t := 0 to nGroups
      invariant bt == -1 ==> t == 0 && bc == 999999999
      invariant bt != -1 ==> 0 <= bt < t && bc == cost[bt]
      invariant bt != -1 ==> forall u :: 0 <= u < t ==> cost[bt] <= cost[u] && (u < bt ==> cost[bt] < cost[u])
    {
      if cost[t] < bc {
        bc := cost[t];
        bt := t;
      }
    }
  }

  // ----- symbol frequencies for each table

  lemma {:induction false} FreqSumAdd(f: seq<int>, v: nat, k: nat)
    requires v < |f| && k <= |f|
    ensures FreqSum(f[v := f[v] + 1], k) == FreqSum(f, k) + (if v < k then 1 else 0)
  {
    if k > 0 { FreqSumAdd(f, v, k - 1); }
  }

  lemma {:induction false} FreqSumWeight(f: seq<int>, k: nat)
    requires k <= |f| && forall v :: 0 <= v < k ==> f[v] >= 0
    ensures WeightSum(f, k) <= FreqSum(f, k) + k
  {
    if k > 0 { FreqSumWeight(f, k - 1); }
  }

  lemma {:induction false} FreqSumZero(f: seq<int>, k: nat)
    requires k <= |f| && forall v :: 0 <= v < k ==> f[v] == 0
    ensures FreqSum(f, k) == 0
  {
    if k > 0 { FreqSumZero(f, k - 1); }
  }

  /** Frequencies counted so far: never more than the symbols seen. */
  ghost predicate Tallies(rfreq: seq<seq<int>>, alphaSize: nat, seen: nat) {
    && |rfreq| == 6
    && forall t :: 0 <= t < 6 ==> Tally(rfreq[t], alphaSize, seen)
  }

  ghost predicate Tally(f: seq<int>, alphaSize: nat, seen: nat) {
    |f| == alphaSize && FreqSum(f, alphaSize) <= seen && forall v :: 0 <= v < alphaSize ==> f[v] >= 0
  }

  /** How often symbol `v` occurs among the first `k` symbols in groups that chose table `t`. */
  ghost function Chosen(selector: seq<int>, mtfv: seq<int>, t: int, v: int, k: nat): nat
    requires k <= |mtfv| && k <= G_SIZE * |selector|
  {
    if k == 0 then 0
    else Chosen(selector, mtfv, t, v, k - 1) + (if selector[(k - 1) / G_SIZE] == t && mtfv[k - 1] == v then 1 else 0)
  }

  lemma {:induction false} ChosenKept(selector: seq<int>, bt: int, mtfv: seq<int>, t: int, v: int, k: nat)
    requires k <= |mtfv| && k <= G_SIZE * |selector|
    ensures Chosen(selector + [bt], mtfv, t, v, k) == Chosen(selector, mtfv, t, v, k)
    decreases k
  {
    if k > 0 { ChosenKept(selector, bt, mtfv, t, v, k - 1); }
  }

  /** The frequencies are exactly those of the groups that chose each table. */
  ghost predicate Counted(rfreq: seq<seq<int>>, selector: seq<int>, mtfv: seq<int>, alphaSize: nat, seen: nat) {
    && |rfreq| == 6 && seen <= |mtfv| && seen <= G_SIZE * |selector|
    && (forall t :: 0 <= t < 6 ==> |rfreq[t]| == alphaSize)
    && forall t, v :: 0 <= t < 6 && 0 <= v < alphaSize ==> rfreq[t][v] == Chosen(selector, mtfv, t, v, seen)
  }

  lemma CountedKept(rfreq: seq<seq<int>>, selector: seq<int>, bt: int, mtfv: seq<int>, alphaSize: nat, seen: nat)
    requires Counted(rfreq, selector, mtfv, alphaSize, seen)
    ensures Counted(rfreq, selector + [bt], mtfv, alphaSize, seen)
  {
    hide Chosen;
    forall t, v | 0 <= t < 6 && 0 <= v < alphaSize ensures rfreq[t][v] == Chosen(selector + [bt], mtfv, t, v, seen) {
      ChosenKept(selector, bt, mtfv, t, v, seen);
    }
  }

  lemma CountedOne(rfreq: seq<seq<int>>, selector: seq<int>, mtfv: seq<int>, alphaSize: nat, i: nat, bt: int)
    requires Counted(rfreq, selector, mtfv, alphaSize, i) && i < |mtfv| && i < G_SIZE * |selector|
    requires selector[i / G_SIZE] == bt && 0 <= bt < 6 && 0 <= mtfv[i] < alphaSize
    ensures Counted(rfreq[bt := rfreq[bt][mtfv[i] := rfreq[bt][mtfv[i]] + 1]], selector, mtfv, alphaSize, i + 1)
  {
    var r := rfreq[bt := rfreq[bt][mtfv[i] := rfreq[bt][mtfv[i]] + 1]];
    forall t, v | 0 <= t < 6 && 0 <= v < alphaSize ensures r[t][v] == Chosen(selector, mtfv, t, v, i + 1) {
      assert rfreq[t][v] == Chosen(selector, mtfv, t, v, i);
    }
  }

  method CountGroup(rfreq: seq<seq<int>>, alphaSize: nat, bt: int, mtfv: seq<int>, gs: nat, ge: nat, ghost selector: seq<int>)
    returns (r: seq<seq<int>>)
    requires Tallies(rfreq, alphaSize, gs) && 0 <= bt < 6 && gs <= ge <= |mtfv| && SymbolsIn(mtfv, alphaSize)
    requires Counted(rfreq, selector, mtfv, alphaSize, gs) && ge <= G_SIZE * |selector|
    requires forall i :: gs <= i < ge ==> selector[i / G_SIZE] == bt
    ensures Tallies(r, alphaSize, ge) && Counted(r, selector, mtfv, alphaSize, ge)
  {
    hide Counted, FreqSum;
    r := rfreq;
    var i := gs;
    while i < ge
      invariant gs <= i <= ge && |r| == 6 && Tally(r[bt], alphaSize, i) && Counted(r, selector, mtfv, alphaSize, i)
      invariant forall t :: 0 <= t < 6 && t != bt ==> r[t] == rfreq[t]
    {
      FreqSumAdd(r[bt], mtfv[i], alphaSize);
      CountedOne(r, selector, mtfv, alphaSize, i, bt);
      r := r[bt := r[bt][mtfv[i] := r[bt][mtfv[i]] + 1]];
      i := i + 1;
    }
  }

  // ----- one pass

  /** Where group `k` ends. */
  function GroupEnd(k: nat, n: nat): (e: nat)
    ensures e <= n
  {
    if G_SIZE * k + G_SIZE <= n then G_SIZE * k + G_SIZE else n
  }

  /** Table `bt` is the first among the cheapest for the symbols of group `k`. */
  ghost predicate Cheapest(len: seq<seq<int>>, nGroups: nat, bt: int, mtfv: seq<int>, alphaSize: nat, k: nat)
    requires Costs(len, alphaSize) && nGroups <= 6 && SymbolsIn(mtfv, alphaSize)
  {
    && 0 <= bt < nGroups && G_SIZE * k <= |mtfv|
    && forall t :: 0 <= t < nGroups ==>
         var c, d := CostOf(len[bt], mtfv, G_SIZE * k, GroupEnd(k, |mtfv|)), CostOf(len[t], mtfv, G_SIZE * k, GroupEnd(k, |mtfv|));
         c <= d && (t < bt ==> c < d)
  }

  /** Every group of 50 symbols picks the table that is cheapest for it. */
  method SelectTables(len: seq<seq<int>>, nGroups: nat, alphaSize: nat, mtfv: seq<int>)
    returns (selector: seq<int>, rfreq: seq<seq<int>>)
    requires Costs(len, alphaSize) && SymbolsIn(mtfv, alphaSize) && 2 <= nGroups <= 6
    ensures Tallies(rfreq, alphaSize, |mtfv|)
    ensures Selects(selector, |mtfv|, nGroups) && |selector| == (|mtfv| + G_SIZE - 1) / G_SIZE
    ensures forall k :: 0 <= k < |selector| ==> Cheapest(len, nGroups, selector[k], mtfv, alphaSize, k)
    ensures Counted(rfreq, selector, mtfv, alphaSize, |mtfv|)
  {
    hide Tallies, CostsOf, CostOf, FreqSum, Cheapest, Counted;
    var zeros := seq(alphaSize, _ => 0);
    rfreq := [zeros, zeros, zeros, zeros, zeros, zeros];
    TalliesZero(zeros, alphaSize, mtfv);
    selector := [];
    var nMTF := |mtfv|;
    var gs := 0;
    while gs < nMTF
      invariant 0 <= gs <= nMTF && (gs < nMTF ==> gs == G_SIZE * |selector|)
      invariant gs <= G_SIZE * |selector| < gs + G_SIZE
      invariant forall k :: 0 <= k < |selector| ==> 0 <= selector[k] < nGroups
      invariant forall k :: 0 <= k < |selector| ==> Cheapest(len, nGroups, selector[k], mtfv, alphaSize, k)
      invariant Tallies(rfreq, alphaSize, gs) && Counted(rfreq, selector, mtfv, alphaSize, gs)
    {
      var bt, next;
      bt, rfreq, next := SelectOne(len, nGroups, alphaSize, mtfv, gs, rfreq, selector);
      selector := selector + [bt];
      gs := next;
    }
  }

  /** One group. */
  method SelectOne(len: seq<seq<int>>, nGroups: nat, alphaSize: nat, mtfv: seq<int>, gs: nat, rfreq0: seq<seq<int>>,
                   ghost selector: seq<int>)
    returns (bt: int, rfreq: seq<seq<int>>, next: nat)
    requires Costs(len, alphaSize) && SymbolsIn(mtfv, alphaSize) && 2 <= nGroups <= 6
    requires gs == G_SIZE * |selector| < |mtfv| && Tallies(rfreq0, alphaSize, gs) && Counted(rfreq0, selector, mtfv, alphaSize, gs)
    ensures next == GroupEnd(|selector|, |mtfv|) && Cheapest(len, nGroups, bt, mtfv, alphaSize, |selector|)
    ensures 0 <= bt < nGroups && Tallies(rfreq, alphaSize, next) && Counted(rfreq, selector + [bt], mtfv, alphaSize, next)
  {
    hide Tallies, CostOf, FreqSum, Counted;
    var nMTF := |mtfv|;
    var ge := gs + G_SIZE - 1;
    if ge >= nMTF { ge := nMTF - 1; }
    var cost;
    if nGroups == 6 && 50 == ge - gs + 1 {
      cost := PackedCost(len, alphaSize, mtfv, gs, ge + 1);
    } else {
      cost := PlainCost(len, nGroups, alphaSize, mtfv, gs, ge + 1);
    }
    CostsSmall(cost, len, nGroups, mtfv, alphaSize, gs, ge + 1);
    bt := BestTable(cost, nGroups);
    CountedKept(rfreq0, selector, bt, mtfv, alphaSize, gs);
    rfreq := CountGroup(rfreq0, alphaSize, bt, mtfv, gs, ge + 1, selector + [bt]);
    next := ge + 1;
  }

  lemma TalliesZero(zeros: seq<int>, alphaSize: nat, mtfv: seq<int>)
    requires |zeros| == alphaSize && forall v :: 0 <= v < alphaSize ==> zeros[v] == 0
    ensures Tallies([zeros, zeros, zeros, zeros, zeros, zeros], alphaSize, 0)
    ensures Counted([zeros, zeros, zeros, zeros, zeros, zeros], [], mtfv, alphaSize, 0)
  {
    FreqSumZero(zeros, alphaSize);
  }

  lemma CostsSmall(cost: seq<int>, len: seq<seq<int>>, nGroups: nat, mtfv: seq<int>, alphaSize: nat, gs: nat, ge: nat)
    requires Costs(len, alphaSize) && nGroups <= 6 && gs <= ge <= |mtfv| && SymbolsIn(mtfv, alphaSize) && ge - gs <= G_SIZE
    requires CostsOf(cost, len, nGroups, mtfv, alphaSize, gs, ge)
    ensures |cost| == 6 && forall t :: 0 <= t < nGroups ==> cost[t] < 999999999
  {
    forall t | 0 <= t < nGroups ensures cost[t] < 999999999 {
      CostBound(len[t], mtfv, gs, ge);
    }
  }

  /** Lengths that make a complete code of at most 17 bits. */
  ghost predicate Ready(len: seq<seq<int>>, nGroups: nat, alphaSize: nat) {
    && Costs(len, alphaSize) && nGroups <= 6
    && forall t :: 0 <= t < nGroups ==> Complete(len[t], alphaSize, 17)
  }

  /** The frequencies have been halved once for every tree that came out too deep, and never if they are light. */
  ghost predicate MadeAfter(w: seq<int>, f: seq<int>, n: nat, tried: seq<Trial>) {
    && HalvedLeaves(w, f, n, |tried|) && AllFailed(tried, f, n, 17)
    && (n <= |f| && WeightSum(f, n) < Fib(20) ==> tried == [])
  }

  /** The lengths are leaf depths of a tree merged from the frequencies, which are halved only when they have to be. */
  ghost predicate MadeFrom(row: seq<int>, f: seq<int>, n: nat) {
    exists w, par, kids, tried :: FromTree(row, w, par, kids, n) && MadeAfter(w, f, n, tried)
  }

  /** New lengths from the frequencies each table was selected for. */
  method RemakeTables(len: seq<seq<int>>, rfreq: seq<seq<int>>, nGroups: nat, alphaSize: nat, ghost seen: nat)
    returns (len': seq<seq<int>>)
    requires Costs(len, alphaSize) && Tallies(rfreq, alphaSize, seen) && seen <= MAX_MTF
    requires nGroups <= 6 && 2 <= alphaSize <= MAX_ALPHA
    ensures Ready(len', nGroups, alphaSize)
    ensures forall t :: 0 <= t < 6 ==> if t < nGroups then MadeFrom(len'[t], rfreq[t], alphaSize) else len'[t] == len[t]
  {
    hide Complete, MadeFrom;
    len' := len;
    for t := 0 to nGroups
      invariant Costs(len', alphaSize) && forall u :: 0 <= u < t ==> Complete(len'[u], alphaSize, 17)
      invariant forall u :: 0 <= u < 6 ==> if u < t then MadeFrom(len'[u], rfreq[u], alphaSize) else len'[u] == len[u]
    {
      var row := RemakeTable(rfreq[t], alphaSize, seen);
      len' := len'[t := row];
    }
  }

  method RemakeTable(f: seq<int>, alphaSize: nat, ghost seen: nat) returns (row: seq<int>)
    requires Tally(f, alphaSize, seen) && seen <= MAX_MTF && 2 <= alphaSize <= MAX_ALPHA
    ensures |row| == alphaSize && LengthsIn(row, 0, 17) && Complete(row, alphaSize, 17) && MadeFrom(row, f, alphaSize)
  {
    hide Kraft, Pow2, FromTree, HalvedLeaves, AllFailed, Fib, WeightSum;
    var freq := new int[alphaSize](i requires 0 <= i < alphaSize => f[i]);
    var l := new int[alphaSize];
    assert freq[..] == f;
    FreqSumWeight(f, alphaSize);
    ghost var w, par, kids, tried := MakeCodeLengths(l, freq, alphaSize, 17);
    row := l[..];
    assert MadeAfter(w, f, alphaSize, tried);
  }

  /** What the last iteration leaves behind: under the tables before it every group has the first of its cheapest
      tables selected, and every table is made from the frequencies of the groups that selected it. */
  ghost predicate Improved(lens: seq<seq<int>>, selector: seq<int>, mtfv: seq<int>, alphaSize: nat) {
    exists before, rfreq :: ImprovedFrom(before, rfreq, lens, selector, mtfv, alphaSize)
  }

  ghost predicate ImprovedFrom(before: seq<seq<int>>, rfreq: seq<seq<int>>, lens: seq<seq<int>>, selector: seq<int>,
                               mtfv: seq<int>, alphaSize: nat) {
    && Costs(before, alphaSize) && |lens| <= 6 && SymbolsIn(mtfv, alphaSize)
    && (forall k :: 0 <= k < |selector| ==> Cheapest(before, |lens|, selector[k], mtfv, alphaSize, k))
    && Counted(rfreq, selector, mtfv, alphaSize, |mtfv|)
    && forall t :: 0 <= t < |lens| ==> MadeFrom(lens[t], rfreq[t], alphaSize)
  }

  /** The iterations that improve the tables. */
  method ChooseTables(mtfFreq: seq<int>, mtfv: seq<int>, nGroups: nat, alphaSize: nat)
    returns (len: seq<seq<int>>, selector: seq<int>)
    requires 2 <= nGroups <= 6 && 2 <= alphaSize <= MAX_ALPHA && |mtfFreq| >= alphaSize
    requires SymbolsIn(mtfv, alphaSize) && |mtfv| <= MAX_MTF
    ensures Ready(len, nGroups, alphaSize) && Improved(len[..nGroups], selector, mtfv, alphaSize)
    ensures Selects(selector, |mtfv|, nGroups) && |selector| == (|mtfv| + G_SIZE - 1) / G_SIZE
  {
    hide Complete, Improved, ImprovedFrom, Counted, Cheapest, MadeFrom, Tallies;
    selector := [];
    ghost var cuts;
    len, cuts := InitialTables(mtfFreq, |mtfv|, nGroups, alphaSize);
    for iter := 0 to N_ITERS
      invariant Costs(len, alphaSize)
      invariant iter > 0 ==> Ready(len, nGroups, alphaSize) && Selects(selector, |mtfv|, nGroups)
      invariant iter > 0 ==> |selector| == (|mtfv| + G_SIZE - 1) / G_SIZE
      invariant iter > 0 ==> Improved(len[..nGroups], selector, mtfv, alphaSize)
    {
      var rfreq;
      ghost var before := len;
      selector, rfreq := SelectTables(len, nGroups, alphaSize, mtfv);
      len := RemakeTables(len, rfreq, nGroups, alphaSize, |mtfv|);
      ImprovedBy(before, rfreq, len[..nGroups], selector, mtfv, alphaSize);
    }
  }

  lemma ImprovedBy(before: seq<seq<int>>, rfreq: seq<seq<int>>, lens: seq<seq<int>>, selector: seq<int>,
                   mtfv: seq<int>, alphaSize: nat)
    requires Costs(before, alphaSize) && |lens| <= 6 && SymbolsIn(mtfv, alphaSize)
    requires forall k :: 0 <= k < |selector| ==> Cheapest(before, |lens|, selector[k], mtfv, alphaSize, k)
    requires Counted(rfreq, selector, mtfv, alphaSize, |mtfv|)
    requires forall t :: 0 <= t < |lens| ==> MadeFrom(lens[t], rfreq[t], alphaSize)
    ensures Improved(lens, selector, mtfv, alphaSize)
  {
    hide Cheapest, MadeFrom;
    assert ImprovedFrom(before, rfreq, lens, selector, mtfv, alphaSize);
  }

  // ----- selectors as positions

  /** The search of `pos` for selector `x`, which moves it to the front. */
  method FrontSelector(pos: array<int>, x: int, n: nat) returns (j: nat)
    requires n <= pos.Length && x in pos[..n]
    modifies pos
    ensures j < n && old(pos[j]) == x && forall i :: 0 <= i < j ==> old(pos[i]) != x
    ensures pos[..n] == MoveFront(old(pos[..n]), j)
  {
    hide MovedUp, MoveFront;
    ghost var s := pos[..];
    ghost var k :| 0 <= k < n && s[k] == x;
    j := 0;
    var tmp := pos[0];
    MovedUpNone(s, 0);
    while x != tmp
      invariant 0 <= j <= k && tmp == s[j]
      invariant pos[..] == MovedUp(s, 0, j)
      invariant forall i :: 0 <= i < j ==> s[i] != x
      decreases k - j
    {
      MovedUpGrow(s, j);
      j := j + 1;
      var tmp2 := tmp;
      ghost var p := pos[..];
      tmp := pos[j];
      pos[j] := tmp2;
      assert tmp == p[j] && pos[..] == p[j := tmp2];
    }
    ghost var p := pos[..];
    pos[0] := tmp;
    MovedUpFront(s, j, n);
    assert pos[..] == p[0 := tmp];
    assert pos[..n] == pos[..][..n];
  }

  lemma {:induction false} SelectorStep(pos: seq<int>, sel: seq<int>, j: nat)
    requires AllIn(sel, pos) && sel != [] && j < |pos| && pos[j] == sel[0] && forall i :: 0 <= i < j ==> pos[i] != sel[0]
    ensures AllIn(sel[1..], MoveFront(pos, j))
    ensures SelectorsToMtf(pos, sel) == [j] + SelectorsToMtf(MoveFront(pos, j), sel[1..])
  {
    MoveFrontSame(pos, j);
    assert sel[0] in pos;
    assert IndexOf(pos, sel[0]) == j;
  }

  /** The MTF values of the selectors. */
  method CodeSelectors(selector: seq<int>, nGroups: nat) returns (selectorMtf: seq<nat>)
    requires nGroups <= 6 && AllIn(selector, Iota(nGroups))
    ensures selectorMtf == SelectorsToMtf(Iota(nGroups), selector)
  {
    hide SelectorsToMtf, AllIn;
    var pos := new int[6](i => i);
    assert pos[..nGroups] == Iota(nGroups);
    selectorMtf := [];
    var i := 0;
    assert selector[0..] == selector;
    while i < |selector|
      invariant 0 <= i <= |selector| && AllIn(selector[i..], pos[..nGroups])
      invariant selectorMtf + SelectorsToMtf(pos[..nGroups], selector[i..]) == SelectorsToMtf(Iota(nGroups), selector)
    {
      ghost var list, rest := pos[..nGroups], selector[i..];
      AllInHead(rest, list);
      var j := FrontSelector(pos, selector[i], nGroups);
      SelectorStep(list, rest, j);
      assert rest[1..] == selector[i + 1..];
      selectorMtf := selectorMtf + [j];
      i := i + 1;
    }
    SelectorNone(pos[..nGroups]);
    assert selector[i..] == [];
  }

  lemma AllInHead(rest: seq<int>, list: seq<int>)
    requires AllIn(rest, list) && rest != []
    ensures rest[0] in list
  {
  }

  lemma SelectorNone(pos: seq<int>)
    ensures AllIn([], pos) && SelectorsToMtf(pos, []) == []
  {
  }

  // ----- the codes

  /** The codes of every table. */
  method AssignAll(lens: seq<seq<int>>, alphaSize: nat) returns (code: seq<seq<int>>)
    requires GoodTables(lens, alphaSize)
    ensures |code| == |lens|
    ensures forall t :: 0 <= t < |lens| ==>
      |code[t]| == alphaSize && forall v :: 0 <= v < alphaSize ==> code[t][v] == CodeOf(lens[t], Lo(lens[t]), v)
  {
    hide CodeOf, Lo, Hi;
    code := [];
    for t := 0 to |lens|
      invariant |code| == t
      invariant forall u :: 0 <= u < t ==>
        |code[u]| == alphaSize && forall v :: 0 <= v < alphaSize ==> code[u][v] == CodeOf(lens[u], Lo(lens[u]), v)
    {
      var minLen, maxLen := LengthRange(lens[t]);
      var row := new int[alphaSize];
      AssignCodes(row, lens[t], minLen, maxLen, alphaSize);
      code := code + [row[..]];
    }
  }

  // ----- writing the bits

  method PutBit(w: BitWriter, b: bool)
    requires w.Valid()
    modifies w
    ensures w.Valid() && w.Contents() == old(w.Contents()) + [b]
  {
    assert Pow2(1) == 2;
    assert BitsOf(if b then 1 else 0, 1) == [b] by {
      assert BitsOf(0, 0) == [];
    }
    w.Put(1, if b then 1 else 0);
  }

  /** The mapping table. */
  method SendMap(w: BitWriter, inUse: array<bool>)
    requires w.Valid() && inUse.Length == 256
    modifies w
    ensures w.Valid() && w.Contents() == old(w.Contents()) + PrintMap(inUse[..])
  {
    hide PrintGroups, GroupFlags;
    ghost var use, c := inUse[..], w.Contents();
    var inUse16 := FindGroups(inUse);
    SendFlags(w, inUse16);
    SendGroups(w, inUse, inUse16);
    assert c + PrintMap(use) == c + GroupFlags(use) + PrintGroups(use, 0);
  }

  /** Sixteen flags. */
  method SendFlags(w: BitWriter, inUse16: array<bool>)
    requires w.Valid() && inUse16.Length == 16
    modifies w
    ensures w.Valid() && w.Contents() == old(w.Contents()) + inUse16[..]
  {
    for i := 0 to 16
      invariant w.Valid() && w.Contents() == old(w.Contents()) + inUse16[..i]
    {
      PutBit(w, inUse16[i]);
      assert inUse16[..i + 1] == inUse16[..i] + [inUse16[i]];
    }
    assert inUse16[..16] == inUse16[..];
  }

  /** Sixteen more flags for every group that occurs. */
  method SendGroups(w: BitWriter, inUse: array<bool>, inUse16: array<bool>)
    requires w.Valid() && inUse.Length == 256 && inUse16.Length == 16 && inUse16[..] == GroupFlags(inUse[..])
    modifies w
    ensures w.Valid() && w.Contents() == old(w.Contents()) + PrintGroups(inUse[..], 0)
  {
    hide GroupUsed, PrintGroups, Group, GroupFlags;
    ghost var use := inUse[..];
    ghost var target := w.Contents() + PrintGroups(use, 0);
    for i := 0 to 16
      invariant w.Valid() && w.Contents() + PrintGroups(use, i) == target
    {
      FlagAt(use, i);
      assert inUse16[i] == inUse16[..][i];
      PrintStep(use, i, []);
      assert PrintGroups(use, i) + [] == PrintGroups(use, i);
      assert PrintGroups(use, i + 1) + [] == PrintGroups(use, i + 1);
      ghost var c := w.Contents();
      if inUse16[i] {
        SendGroup(w, inUse, i);
        assert c + (Group(use, i) + PrintGroups(use, i + 1)) == c + Group(use, i) + PrintGroups(use, i + 1);
      }
    }
    PrintNone(use);
    assert w.Contents() + [] == w.Contents();
  }

  lemma FlagAt(use: seq<bool>, i: nat)
    requires |use| == 256 && i < 16
    ensures GroupFlags(use)[i] == GroupUsed(use, i)
  {
  }

  lemma {:induction false} PrintNone(use: seq<bool>)
    requires |use| == 256
    ensures PrintGroups(use, 16) == []
  {
  }

  /** Which groups of 16 bytes occur at all. */
  method FindGroups(inUse: array<bool>) returns (inUse16: array<bool>)
    requires inUse.Length == 256
    ensures fresh(inUse16) && inUse16.Length == 16 && inUse16[..] == GroupFlags(inUse[..])
  {
    inUse16 := new bool[16];
    for i := 0 to 16
      invariant forall k :: 0 <= k < i ==> inUse16[k] == GroupUsed(inUse[..], k)
    {
      inUse16[i] := false;
      for j := 0 to 16
        invariant forall k :: 0 <= k < i ==> inUse16[k] == GroupUsed(inUse[..], k)
        invariant inUse16[i] <==> exists k :: 16 * i <= k < 16 * i + j && inUse[k]
      {
        if inUse[i * 16 + j] { inUse16[i] := true; }
      }
    }
  }

  /** The flags of one group. */
  method SendGroup(w: BitWriter, inUse: array<bool>, i: nat)
    requires w.Valid() && inUse.Length == 256 && i < 16
    modifies w
    ensures w.Valid() && w.Contents() == old(w.Contents()) + Group(inUse[..], i)
  {
    ghost var g := Group(inUse[..], i);
    for j := 0 to 16
      invariant w.Valid() && w.Contents() == old(w.Contents()) + g[..j]
    {
      PutBit(w, inUse[i * 16 + j]);
      assert g[j] == inUse[i * 16 + j];
      assert g[..j + 1] == g[..j] + [g[j]];
    }
    assert g[..16] == g;
  }

  /** The selectors, in unary. */
  method SendSelectors(w: BitWriter, selectorMtf: seq<nat>)
    requires w.Valid()
    modifies w
    ensures w.Valid() && w.Contents() == old(w.Contents()) + PrintUnaries(selectorMtf)
  {
    hide PrintUnary;
    ghost var target := w.Contents() + PrintUnaries(selectorMtf);
    var i := 0;
    assert selectorMtf[0..] == selectorMtf;
    while i < |selectorMtf|
      invariant 0 <= i <= |selectorMtf| && w.Valid() && w.Contents() + PrintUnaries(selectorMtf[i..]) == target
    {
      ghost var rest := selectorMtf[i..];
      assert rest[1..] == selectorMtf[i + 1..];
      assert PrintUnaries(rest) == PrintUnary(rest[0]) + PrintUnaries(rest[1..]);
      SendUnary(w, selectorMtf[i]);
      i := i + 1;
    }
    assert selectorMtf[i..] == [];
  }

  method SendUnary(w: BitWriter, k: nat)
    requires w.Valid()
    modifies w
    ensures w.Valid() && w.Contents() == old(w.Contents()) + PrintUnary(k)
  {
    ghost var target := w.Contents() + PrintUnary(k);
    for j := 0 to k
      invariant w.Valid() && w.Contents() + PrintUnary(k - j) == target
    {
      PutBit(w, true);
    }
    PutBit(w, false);
  }

  /** One coding table, as differences. */
  method SendTable(w: BitWriter, len: seq<int>)
    requires w.Valid() && len != [] && LengthsIn(len, 1, 20)
    modifies w
    ensures w.Valid() && w.Contents() == old(w.Contents()) + PrintTable(len)
  {
    hide PrintMoves, BitsOf;
    var curr := len[0];
    assert Pow2(5) == 32;
    ghost var c := w.Contents();
    w.Put(5, curr);
    ghost var target := w.Contents() + PrintLengths(curr, len);
    var i := 0;
    assert len[0..] == len;
    while i < |len|
      invariant 0 <= i <= |len| && w.Valid() && 1 <= curr <= 20
      invariant w.Contents() + PrintLengths(curr, len[i..]) == target
    {
      ghost var rest := len[i..];
      assert rest[1..] == len[i + 1..];
      assert PrintLengths(curr, rest) == PrintMoves(curr, rest[0]) + PrintLengths(rest[0], rest[1..]);
      SendMoves(w, curr, len[i]);
      curr := len[i];
      i := i + 1;
    }
    assert len[i..] == [];
    assert w.Contents() + [] == w.Contents();
    assert c + PrintTable(len) == target;
  }

  lemma MoveStep(from: int, to: int)
    ensures from < to ==> PrintMoves(from, to) == [true, false] + PrintMoves(from + 1, to)
    ensures from > to ==> PrintMoves(from, to) == [true, true] + PrintMoves(from - 1, to)
    ensures from == to ==> PrintMoves(from, to) == [false]
  {
  }

  lemma TwoBits()
    ensures Pow2(2) == 4 && BitsOf(2, 2) == [true, false] && BitsOf(3, 2) == [true, true]
  {
    assert BitsOf(1, 1) == [true];
  }

  method SendMoves(w: BitWriter, from: int, to: int)
    requires w.Valid()
    modifies w
    ensures w.Valid() && w.Contents() == old(w.Contents()) + PrintMoves(from, to)
  {
    hide PrintMoves, BitsOf, Pow2;
    ghost var target := w.Contents() + PrintMoves(from, to);
    TwoBits();
    var curr := from;
    while curr < to
      invariant w.Valid() && w.Contents() + PrintMoves(curr, to) == target
    {
      MoveStep(curr, to);
      w.Put(2, 2);
      curr := curr + 1;
    }
    while curr > to
      invariant w.Valid() && w.Contents() + PrintMoves(curr, to) == target && curr >= to
    {
      MoveStep(curr, to);
      w.Put(2, 3);
      curr := curr - 1;
    }
    MoveStep(curr, to);
    PutBit(w, false);
  }

  method SendTables(w: BitWriter, lens: seq<seq<int>>, alphaSize: nat)
    requires w.Valid() && GoodTables(lens, alphaSize)
    requires forall t :: 0 <= t < |lens| ==> lens[t] != [] && lens[t][0] >= 0
    modifies w
    ensures w.Valid() && w.Contents() == old(w.Contents()) + PrintTables(lens)
  {
    hide PrintTable;
    ghost var target := w.Contents() + PrintTables(lens);
    var t := 0;
    assert lens[0..] == lens;
    while t < |lens|
      invariant 0 <= t <= |lens| && w.Valid() && w.Contents() + PrintTables(lens[t..]) == target
    {
      ghost var rest := lens[t..];
      assert rest[1..] == lens[t + 1..];
      assert PrintTables(rest) == PrintTable(rest[0]) + PrintTables(rest[1..]);
      SendTable(w, lens[t]);
      t := t + 1;
    }
    assert lens[t..] == [];
  }

  /** The symbols, 50 at a time under each selector. */
  method SendSymbols(w: BitWriter, lens: seq<seq<int>>, code: seq<seq<int>>, selector: seq<int>, mtfv: seq<int>, alphaSize: nat)
    requires w.Valid() && GoodTables(lens, alphaSize) && Selects(selector, |mtfv|, |lens|)
    requires |selector| == (|mtfv| + G_SIZE - 1) / G_SIZE && SymbolsIn(mtfv, alphaSize)
    requires forall t :: 0 <= t < |lens| ==> Complete(lens[t], alphaSize, 17)
    requires |code| == |lens| && forall t :: 0 <= t < |lens| ==>
      |code[t]| == alphaSize && forall v :: 0 <= v < alphaSize ==> code[t][v] == CodeOf(lens[t], Lo(lens[t]), v)
    modifies w
    ensures w.Valid() && w.Contents() == old(w.Contents()) + PrintSymbols(lens, alphaSize, selector, mtfv, 0)
  {
    hide CodeOf, Lo, Hi, PrintSymbol, PrintSymbols, Complete;
    var nMTF := |mtfv|;
    var selCtr := 0;
    var gs := 0;
    ghost var target := w.Contents() + PrintSymbols(lens, alphaSize, selector, mtfv, 0);
    while gs < nMTF
      invariant 0 <= gs <= nMTF && (gs < nMTF ==> gs == G_SIZE * selCtr) && gs <= G_SIZE * selCtr < gs + G_SIZE
      invariant w.Valid() && w.Contents() + PrintSymbols(lens, alphaSize, selector, mtfv, gs) == target
    {
      var ge := gs + G_SIZE - 1;
      if ge >= nMTF { ge := nMTF - 1; }
      var t := selector[selCtr];
      var i := gs;
      while i <= ge
        invariant gs <= i <= ge + 1
        invariant w.Valid() && w.Contents() + PrintSymbols(lens, alphaSize, selector, mtfv, i) == target
      {
        assert i / G_SIZE == selCtr;
        ghost var s, tail, len := SymbolsStep(lens, alphaSize, selector, mtfv, i, []);
        SymbolFits(lens[t], s);
        ghost var c := w.Contents();
        w.Put(lens[t][mtfv[i]], code[t][mtfv[i]]);
        SymbolJoin(c, w.Contents(), len, s, tail,
          PrintSymbols(lens, alphaSize, selector, mtfv, i), PrintSymbols(lens, alphaSize, selector, mtfv, i + 1));
        i := i + 1;
      }
      gs := ge + 1;
      selCtr := selCtr + 1;
    }
    assert selCtr == |selector|;
    PrintedAll(lens, alphaSize, selector, mtfv);
  }

  lemma {:induction false} PrintedAll(lens: seq<seq<int>>, alphaSize: nat, selector: seq<int>, mtfv: seq<int>)
    requires GoodTables(lens, alphaSize) && Selects(selector, |mtfv|, |lens|) && SymbolsIn(mtfv, alphaSize)
    ensures PrintSymbols(lens, alphaSize, selector, mtfv, |mtfv|) == []
  {
  }

  lemma SymbolJoin(c: Bits, c': Bits, len: seq<int>, s: int, tail: Bits, now: Bits, next: Bits)
    requires 0 <= s < |len| && LengthsIn(len, 1, 20)
    requires c' == c + BitsOf(CodeOf(len, Lo(len), s), len[s])
    requires now + [] == PrintSymbol(len, s) + tail && tail == next + []
    ensures c + now == c' + next
  {
    hide CodeOf, Lo;
    assert now + [] == now && next + [] == next;
  }

  lemma SymbolFits(len: seq<int>, s: nat)
    requires s < |len| && LengthsIn(len, 1, 20) && Complete(len, |len|, 17)
    ensures CodeOf(len, Lo(len), s) < Pow2(len[s]) && 1 <= len[s] <= 17
  {
    hide CodeOf, Kraft, Pow2;
    CodeFits(len, Lo(len), s, 17);
  }

  /** How many tables to use. */
  function GroupCount(nMTF: nat): (n: nat)
    ensures 2 <= n <= 6
  {
    if nMTF < 200 then 2 else if nMTF < 600 then 3 else if nMTF < 1200 then 4 else if nMTF < 2400 then 5 else 6
  }

  /** Everything before the symbols. */
  method SendHead(w: BitWriter, inUse: array<bool>, selector: seq<int>, lens: seq<seq<int>>, alphaSize: nat, ghost h: Head)
    requires w.Valid() && inUse.Length == 256 && h == Head(inUse[..], selector, lens) && GoodHead(h)
    requires alphaSize == AlphaSize(h.inUse)
    modifies w
    ensures w.Valid() && w.Contents() == old(w.Contents()) + PrintHead(h)
  {
    hide PrintMap, PrintTables, PrintUnaries, SelectorsToMtf, BitsOf, Used, GoodTables;
    var nGroups := |lens|;
    var selectorMtf := CodeSelectors(selector, nGroups);
    GoodIsPrintable(lens, AlphaSize(h.inUse));
    ghost var c := w.Contents();
    SendMap(w, inUse);
    assert Pow2(3) == 8;
    w.Put(3, nGroups);
    FifteenBits();
    w.Put(15, |selector|);
    SendSelectors(w, selectorMtf);
    SendTables(w, lens, alphaSize);
    assert w.Contents() == c + PrintHead(h);
  }

  /** sendMTFValues: whatever tables are chosen, the bits are those of a block the decoder can read. */
  method SendMTFValues(w: BitWriter, inUse: array<bool>, mtfFreq: seq<int>, mtfv: seq<int>, nInUse: nat)
    returns (ghost h: Head)
    requires w.Valid() && inUse.Length == 256 && nInUse == |Used(inUse[..], 256)| && 1 <= nInUse <= 256
    requires mtfv != [] && |mtfv| <= MAX_MTF && SymbolsIn(mtfv, nInUse + 2) && |mtfFreq| >= nInUse + 2
    modifies w
    ensures h.inUse == inUse[..] && GoodHead(h) && Selects(h.sel, |mtfv|, |h.lens|)
    ensures forall t :: 0 <= t < |h.lens| ==> Complete(h.lens[t], nInUse + 2, 17)
    ensures w.Valid()
    ensures w.Contents() == old(w.Contents()) + PrintHead(h) + PrintSymbols(h.lens, nInUse + 2, h.sel, mtfv, 0)
    ensures |h.lens| == GroupCount(|mtfv|) && Improved(h.lens, h.sel, mtfv, nInUse + 2)
  {
    hide Complete, CodeOf, Lo, Hi, PrintHead, PrintSymbols, Used, AllIn, Improved;
    var alphaSize := nInUse + 2;
    var nGroups := GroupCount(|mtfv|);
    var len, selector := ChooseTables(mtfFreq, mtfv, nGroups, alphaSize);
    assert |selector| < MAX_SELECTORS;
    var lens := len[..nGroups];
    ReadyGood(len, nGroups, alphaSize);
    SelectorsListed(selector, |mtfv|, nGroups);
    h := Head(inUse[..], selector, lens);
    var code := AssignAll(lens, alphaSize);
    SendHead(w, inUse, selector, lens, alphaSize, h);
    SendSymbols(w, lens, code, selector, mtfv, alphaSize);
  }

  lemma FifteenBits()
    ensures Pow2(15) == 0x8000
  {
    Pow2Add(8, 7);
    assert Pow2(8) == 256 && Pow2(7) == 128;
  }

  lemma ReadyGood(len: seq<seq<int>>, nGroups: nat, alphaSize: nat)
    requires Ready(len, nGroups, alphaSize) && alphaSize > 0
    ensures nGroups <= |len| && GoodTables(len[..nGroups], alphaSize)
    ensures forall t :: 0 <= t < nGroups ==> Complete(len[..nGroups][t], alphaSize, 17)
  {
  }

  lemma SelectorsListed(sel: seq<int>, n: nat, nGroups: nat)
    requires Selects(sel, n, nGroups)
    ensures AllIn(sel, Iota(nGroups))
  {
    forall k | 0 <= k < |sel| ensures sel[k] in Iota(nGroups) {
      assert Iota(nGroups)[sel[k]] == sel[k];
    }
  }
}
