/** The bits of one bzip2 block, as sendMTFValues of deps/bzip2/compress.c writes them and
    BZ2_decompress of deps/bzip2/decompress.c reads them: a printer, a parser, and their round trip. */
module BlockFormat {
  import opened BitStream
  import opened Counting
  import opened HuffmanCodes
  import opened HuffmanLengths
  import opened MoveToFront
  import opened Permutations
  import opened Powers
  import opened TwoLevelMtf

  const G_SIZE := 50

  /** GET_BITS, over the bits themselves. */
  ghost function Take(b: Bits, n: nat): Parsed<nat> {
    if |b| < n then Starved else Done(Val(b[..n]), b[n..])
  }

  lemma TakeBack(v: nat, n: nat, rest: Bits)
    requires v < Pow2(n)
    ensures Take(BitsOf(v, n) + rest, n) == Done(v, rest)
  {
    ValBitsOf(v, n);
    assert (BitsOf(v, n) + rest)[..n] == BitsOf(v, n);
    assert (BitsOf(v, n) + rest)[n..] == rest;
  }

  // ----- the mapping table

  /** Whether any of the 16 bytes of group `i` occurs. */
  predicate GroupUsed(inUse: seq<bool>, i: nat)
    requires |inUse| == 256 && i < 16
  {
    exists j :: 16 * i <= j < 16 * i + 16 && inUse[j]
  }

  ghost function GroupFlags(inUse: seq<bool>): (b: Bits)
    requires |inUse| == 256
    ensures |b| == 16
  {
    seq(16, i requires 0 <= i < 16 => GroupUsed(inUse, i))
  }

  /** The 16 flags of group `i`. */
  ghost function Group(inUse: seq<bool>, i: nat): (b: Bits)
    requires |inUse| == 256 && i < 16
    ensures |b| == 16
  {
    inUse[16 * i..16 * i + 16]
  }

  ghost function FromGroup(inUse: seq<bool>, i: nat): Bits
    requires |inUse| == 256 && i <= 16
  {
    inUse[16 * i..]
  }

  lemma GroupSplit(inUse: seq<bool>, i: nat)
    requires |inUse| == 256 && i < 16
    ensures FromGroup(inUse, i) == Group(inUse, i) + FromGroup(inUse, i + 1)
    ensures !GroupUsed(inUse, i) ==> Group(inUse, i) == Zeros(16)
  {
    var k, n := 16 * i, 16 * i + 16;
    assert inUse[k..] == inUse[k..n] + inUse[n..];
    assert forall j :: 0 <= j < 16 ==> inUse[k..n][j] == inUse[k + j];
  }

  ghost function PrintGroups(inUse: seq<bool>, i: nat): Bits
    requires |inUse| == 256 && i <= 16
    decreases 16 - i
  {
    if i == 16 then []
    else (if GroupUsed(inUse, i) then Group(inUse, i) else []) + PrintGroups(inUse, i + 1)
  }

  ghost function PrintMap(inUse: seq<bool>): Bits
    requires |inUse| == 256
  {
    GroupFlags(inUse) + PrintGroups(inUse, 0)
  }

  ghost function ParseGroups(flags: Bits, i: nat, b: Bits): (p: Parsed<seq<bool>>)
    requires |flags| == 16 && i <= 16
    ensures p.Done? ==> |p.value| == 16 * (16 - i)
    decreases 16 - i
  {
    if i == 16 then Done([], b)
    else if flags[i] && |b| < 16 then Starved
    else
      var group := if flags[i] then b[..16] else Zeros(16);
      Prepend(group, ParseGroups(flags, i + 1, if flags[i] then b[16..] else b))
  }

  ghost function ParseMap(b: Bits): (p: Parsed<seq<bool>>)
    ensures p.Done? ==> |p.value| == 256
  {
    if |b| < 16 then Starved else ParseGroups(b[..16], 0, b[16..])
  }

  lemma {:induction false} GroupsStep(flags: Bits, i: nat, b: Bits, group: Bits, more: seq<bool>, rest: Bits, rest': Bits)
    requires |flags| == 16 && i < 16 && ParseGroups(flags, i + 1, rest) == Done(more, rest')
    requires if flags[i] then |group| == 16 && b == group + rest else group == Zeros(16) && b == rest
    ensures ParseGroups(flags, i, b) == Done(group + more, rest')
  {
    if flags[i] {
      assert b[..16] == group && b[16..] == rest;
    }
  }

  lemma {:induction false} PrintStep(inUse: seq<bool>, i: nat, rest: Bits)
    requires |inUse| == 256 && i < 16
    ensures var more := PrintGroups(inUse, i + 1) + rest;
            PrintGroups(inUse, i) + rest == if GroupUsed(inUse, i) then Group(inUse, i) + more else more
  {
    hide GroupUsed, Group;
    assert PrintGroups(inUse, i) == (if GroupUsed(inUse, i) then Group(inUse, i) else []) + PrintGroups(inUse, i + 1);
  }

  lemma {:induction false} GroupsNone(inUse: seq<bool>, flags: Bits, rest: Bits)
    requires |inUse| == 256 && |flags| == 16
    ensures ParseGroups(flags, 16, PrintGroups(inUse, 16) + rest) == Done(FromGroup(inUse, 16), rest)
  {
    assert PrintGroups(inUse, 16) + rest == rest;
    assert FromGroup(inUse, 16) == [];
  }

  lemma {:induction false} GroupsBack(inUse: seq<bool>, i: nat, rest: Bits)
    requires |inUse| == 256 && i <= 16
    ensures ParseGroups(GroupFlags(inUse), i, PrintGroups(inUse, i) + rest) == Done(FromGroup(inUse, i), rest)
    decreases 16 - i
  {
    hide ParseGroups, PrintGroups, FromGroup, Group, GroupUsed;
    if i == 16 {
      GroupsNone(inUse, GroupFlags(inUse), rest);
    } else {
      GroupsBack(inUse, i + 1, rest);
      GroupSplit(inUse, i);
      PrintStep(inUse, i, rest);
      GroupsStep(GroupFlags(inUse), i, PrintGroups(inUse, i) + rest, Group(inUse, i), FromGroup(inUse, i + 1),
                 PrintGroups(inUse, i + 1) + rest, rest);
    }
  }

  /** The mapping table is read back. */
  lemma {:induction false} MapBack(inUse: seq<bool>, rest: Bits)
    requires |inUse| == 256
    ensures ParseMap(PrintMap(inUse) + rest) == Done(inUse, rest)
  {
    hide ParseGroups, PrintGroups, GroupFlags;
    GroupsBack(inUse, 0, rest);
    var b := PrintMap(inUse) + rest;
    assert b[..16] == GroupFlags(inUse);
    assert b[16..] == PrintGroups(inUse, 0) + rest;
    assert FromGroup(inUse, 0) == inUse;
  }

  // ----- the selectors

  /** A selector index in unary. */
  ghost function PrintUnary(j: nat): Bits {
    if j == 0 then [false] else [true] + PrintUnary(j - 1)
  }

  ghost function PrintUnaries(s: seq<nat>): Bits {
    if s == [] then [] else PrintUnary(s[0]) + PrintUnaries(s[1..])
  }

  /** `j` ones have been seen; `nGroups` ones in a row are an error. */
  ghost function ParseUnary(b: Bits, j: nat, nGroups: nat): (p: Parsed<nat>)
    requires j < nGroups
    ensures p.Done? ==> p.value < nGroups
    decreases |b|
  {
    if b == [] then Starved
    else if !b[0] then Done(j, b[1..])
    else if j + 1 >= nGroups then Corrupt
    else ParseUnary(b[1..], j + 1, nGroups)
  }

  ghost function ParseUnaries(b: Bits, k: nat, nGroups: nat): (p: Parsed<seq<nat>>)
    requires nGroups > 0
    ensures p.Done? ==> |p.value| == k && forall i :: 0 <= i < k ==> p.value[i] < nGroups
    decreases k
  {
    if k == 0 then Done([], b)
    else
      match ParseUnary(b, 0, nGroups)
      case Starved => Starved
      case Corrupt => Corrupt
      case Done(v, rest) => Prepend([v], ParseUnaries(rest, k - 1, nGroups))
  }

  lemma {:induction false} UnaryBack(j: nat, k: nat, nGroups: nat, rest: Bits)
    requires j + k < nGroups
    ensures ParseUnary(PrintUnary(k) + rest, j, nGroups) == Done(j + k, rest)
    decreases k
  {
    var b := PrintUnary(k) + rest;
    if k == 0 {
      assert b[1..] == rest;
    } else {
      UnaryBack(j + 1, k - 1, nGroups, rest);
      assert b[1..] == PrintUnary(k - 1) + rest;
    }
  }

  lemma {:induction false} UnariesStep(b: Bits, k: nat, nGroups: nat, v: nat, rest: Bits, more: seq<nat>, rest': Bits)
    requires nGroups > 0 && ParseUnary(b, 0, nGroups) == Done(v, rest)
    requires ParseUnaries(rest, k, nGroups) == Done(more, rest')
    ensures ParseUnaries(b, k + 1, nGroups) == Done([v] + more, rest')
  {
  }

  lemma {:induction false} UnariesBack(s: seq<nat>, nGroups: nat, rest: Bits)
    requires nGroups > 0 && forall i :: 0 <= i < |s| ==> s[i] < nGroups
    ensures ParseUnaries(PrintUnaries(s) + rest, |s|, nGroups) == Done(s, rest)
    decreases |s|
  {
    if s == [] {
      assert PrintUnaries(s) + rest == rest;
    } else {
      hide ParseUnaries, ParseUnary, PrintUnary;
      UnariesBack(s[1..], nGroups, rest);
      var more := PrintUnaries(s[1..]) + rest;
      UnaryBack(0, s[0], nGroups, more);
      assert PrintUnaries(s) + rest == PrintUnary(s[0]) + more;
      UnariesStep(PrintUnaries(s) + rest, |s| - 1, nGroups, s[0], more, s[1..], rest);
      assert [s[0]] + s[1..] == s;
    }
  }

  /** Selectors as positions in a list that is moved to the front. */
  ghost function SelectorsToMtf(pos: seq<int>, sel: seq<int>): (r: seq<nat>)
    requires AllIn(sel, pos)
    ensures |r| == |sel| && forall i :: 0 <= i < |r| ==> r[i] < |pos|
    decreases |sel|
  {
    if sel == [] then []
    else
      assert sel[0] in pos;
      var j := IndexOf(pos, sel[0]);
      MoveFrontSame(pos, j);
      [j] + SelectorsToMtf(MoveFront(pos, j), sel[1..])
  }

  ghost function MtfToSelectors(pos: seq<int>, mtf: seq<nat>): (r: seq<int>)
    requires forall i :: 0 <= i < |mtf| ==> mtf[i] < |pos|
    ensures |r| == |mtf|
    decreases |mtf|
  {
    if mtf == [] then [] else [pos[mtf[0]]] + MtfToSelectors(MoveFront(pos, mtf[0]), mtf[1..])
  }

  lemma {:induction false} SelectorsBack(pos: seq<int>, sel: seq<int>)
    requires AllIn(sel, pos)
    ensures MtfToSelectors(pos, SelectorsToMtf(pos, sel)) == sel
    decreases |sel|
  {
    if sel != [] {
      assert sel[0] in pos;
      var j := IndexOf(pos, sel[0]);
      MoveFrontSame(pos, j);
      SelectorsBack(MoveFront(pos, j), sel[1..]);
      assert SelectorsToMtf(pos, sel)[1..] == SelectorsToMtf(MoveFront(pos, j), sel[1..]);
      assert [sel[0]] + sel[1..] == sel;
    }
  }

  // ----- the coding tables

  /** From one length to the next: two bits for each step up or down, then a zero. */
  ghost function PrintMoves(from: int, to: int): Bits
    decreases if from < to then to - from else from - to
  {
    if from < to then [true, false] + PrintMoves(from + 1, to)
    else if from > to then [true, true] + PrintMoves(from - 1, to)
    else [false]
  }

  ghost function PrintLengths(curr: int, len: seq<int>): Bits
    decreases |len|
  {
    if len == [] then [] else PrintMoves(curr, len[0]) + PrintLengths(len[0], len[1..])
  }

  ghost function PrintTable(len: seq<int>): Bits
    requires len != [] && len[0] >= 0
  {
    BitsOf(len[0], 5) + PrintLengths(len[0], len)
  }

  ghost function PrintTables(lens: seq<seq<int>>): Bits
    requires forall t :: 0 <= t < |lens| ==> lens[t] != [] && lens[t][0] >= 0
  {
    if lens == [] then [] else PrintTable(lens[0]) + PrintTables(lens[1..])
  }

  ghost function ParseLength(b: Bits, curr: int): (p: Parsed<int>)
    ensures p.Done? ==> 1 <= p.value <= 20 && |p.rest| < |b|
    decreases |b|
  {
    if curr < 1 || curr > 20 then Corrupt
    else if b == [] then Starved
    else if !b[0] then Done(curr, b[1..])
    else if |b| < 2 then Starved
    else ParseLength(b[2..], if b[1] then curr - 1 else curr + 1)
  }

  ghost function ParseLengths(b: Bits, curr: int, k: nat): (p: Parsed<seq<int>>)
    ensures p.Done? ==> |p.value| == k && LengthsIn(p.value, 1, 20)
    decreases k
  {
    if k == 0 then Done([], b)
    else
      match ParseLength(b, curr)
      case Starved => Starved
      case Corrupt => Corrupt
      case Done(v, rest) => Prepend([v], ParseLengths(rest, v, k - 1))
  }

  ghost function ParseTables(b: Bits, nGroups: nat, alphaSize: nat): (p: Parsed<seq<seq<int>>>)
    ensures p.Done? ==> |p.value| == nGroups
    ensures p.Done? ==> forall t :: 0 <= t < nGroups ==> |p.value[t]| == alphaSize && LengthsIn(p.value[t], 1, 20)
    decreases nGroups
  {
    if nGroups == 0 then Done([], b)
    else if |b| < 5 then Starved
    else
      match ParseLengths(b[5..], Val(b[..5]), alphaSize)
      case Starved => Starved
      case Corrupt => Corrupt
      case Done(len, rest) => Prepend([len], ParseTables(rest, nGroups - 1, alphaSize))
  }

  lemma {:induction false} LengthBack(from: int, to: int, rest: Bits)
    requires 1 <= from <= 20 && 1 <= to <= 20
    ensures ParseLength(PrintMoves(from, to) + rest, from) == Done(to, rest)
    decreases if from < to then to - from else from - to
  {
    var b := PrintMoves(from, to) + rest;
    if from == to {
      assert b[1..] == rest;
    } else {
      var next := if from < to then from + 1 else from - 1;
      LengthBack(next, to, rest);
      assert b[2..] == PrintMoves(next, to) + rest;
    }
  }

  lemma {:induction false} LengthsStep(b: Bits, curr: int, k: nat, v: int, rest: Bits, more: seq<int>, rest': Bits)
    requires ParseLength(b, curr) == Done(v, rest) && ParseLengths(rest, v, k) == Done(more, rest')
    ensures ParseLengths(b, curr, k + 1) == Done([v] + more, rest')
  {
  }

  lemma {:induction false} LengthsBack(curr: int, len: seq<int>, rest: Bits)
    requires LengthsIn(len, 1, 20) && 1 <= curr <= 20
    ensures ParseLengths(PrintLengths(curr, len) + rest, curr, |len|) == Done(len, rest)
    decreases |len|
  {
    if len == [] {
      assert PrintLengths(curr, len) + rest == rest;
    } else {
      hide ParseLengths, ParseLength, PrintMoves;
      LengthsBack(len[0], len[1..], rest);
      var more := PrintLengths(len[0], len[1..]) + rest;
      LengthBack(curr, len[0], more);
      assert PrintLengths(curr, len) + rest == PrintMoves(curr, len[0]) + more;
      LengthsStep(PrintLengths(curr, len) + rest, curr, |len| - 1, len[0], more, len[1..], rest);
      assert [len[0]] + len[1..] == len;
    }
  }

  lemma {:induction false} TablesStep(b: Bits, n: nat, alphaSize: nat, len: seq<int>, rest: Bits, more: seq<seq<int>>, rest': Bits)
    requires |b| >= 5 && ParseLengths(b[5..], Val(b[..5]), alphaSize) == Done(len, rest)
    requires ParseTables(rest, n, alphaSize) == Done(more, rest')
    ensures ParseTables(b, n + 1, alphaSize) == Done([len] + more, rest')
  {
  }

  /** Tables with lengths a decoder accepts. */
  ghost predicate GoodTables(lens: seq<seq<int>>, alphaSize: nat) {
    alphaSize > 0 && forall t :: 0 <= t < |lens| ==> |lens[t]| == alphaSize && LengthsIn(lens[t], 1, 20)
  }

  lemma GoodIsPrintable(lens: seq<seq<int>>, alphaSize: nat)
    requires GoodTables(lens, alphaSize)
    ensures forall t :: 0 <= t < |lens| ==> lens[t] != [] && 1 <= lens[t][0] <= 20
  {
  }

  lemma {:induction false} OneTableBack(len: seq<int>, more: Bits)
    requires len != [] && LengthsIn(len, 1, 20)
    ensures var b := PrintTable(len) + more; |b| >= 5 && ParseLengths(b[5..], Val(b[..5]), |len|) == Done(len, more)
  {
    hide ParseLengths, PrintLengths, BitsOf;
    var b := PrintTable(len) + more;
    assert Pow2(5) == 32;
    ValBitsOf(len[0], 5);
    assert b[..5] == BitsOf(len[0], 5);
    assert b[5..] == PrintLengths(len[0], len) + more;
    LengthsBack(len[0], len, more);
  }

  /** The coding tables are read back. */
  lemma {:induction false} TablesBack(lens: seq<seq<int>>, alphaSize: nat, rest: Bits)
    requires GoodTables(lens, alphaSize)
    requires forall t :: 0 <= t < |lens| ==> lens[t] != [] && lens[t][0] >= 0
    ensures ParseTables(PrintTables(lens) + rest, |lens|, alphaSize) == Done(lens, rest)
    decreases |lens|
  {
    if lens == [] {
      assert PrintTables(lens) + rest == rest;
    } else {
      hide ParseTables, PrintTable, ParseLengths;
      TablesBack(lens[1..], alphaSize, rest);
      var len, more := lens[0], PrintTables(lens[1..]) + rest;
      OneTableBack(len, more);
      assert PrintTables(lens) + rest == PrintTable(len) + more;
      TablesStep(PrintTables(lens) + rest, |lens| - 1, alphaSize, len, more, lens[1..], rest);
      assert [lens[0]] + lens[1..] == lens;
    }
  }

  // ----- the symbols

  ghost function Lo(len: seq<int>): (m: int)
    requires len != []
    ensures forall i :: 0 <= i < |len| ==> m <= len[i]
    ensures exists i :: 0 <= i < |len| && len[i] == m
  {
    if |len| == 1 then len[0]
    else
      var m := Lo(len[..|len| - 1]);
      if len[|len| - 1] < m then len[|len| - 1] else m
  }

  ghost function Hi(len: seq<int>): (m: int)
    requires len != []
    ensures forall i :: 0 <= i < |len| ==> len[i] <= m
    ensures exists i :: 0 <= i < |len| && len[i] == m
  {
    if |len| == 1 then len[0]
    else
      var m := Hi(len[..|len| - 1]);
      if len[|len| - 1] > m then len[|len| - 1] else m
  }

  /** The shortest and the longest length. */
  method LengthRange(len: seq<int>) returns (minLen: int, maxLen: int)
    requires len != [] && LengthsIn(len, 1, 20)
    ensures minLen == Lo(len) && maxLen == Hi(len)
  {
    minLen := 32;
    maxLen := 0;
    for i := 0 to |len|
      invariant i > 0 ==> minLen == Lo(len[..i]) && maxLen == Hi(len[..i])
      invariant i == 0 ==> minLen == 32 && maxLen == 0
    {
      if len[i] > maxLen { maxLen := len[i]; }
      if len[i] < minLen { minLen := len[i]; }
      assert len[..i + 1][..i] == len[..i];
      assert i > 0 ==> |len[..i + 1]| > 1;
    }
    assert len[..|len|] == len;
  }

  /** The decoding tables of one set of lengths. */
  datatype Table = Table(minLen: nat, limit: seq<int>, base: seq<int>, perm: seq<int>)

  ghost predicate Shaped(t: Table) {
    1 <= t.minLen <= 20 && |t.limit| == |t.base| == MAX_CODE_LEN && |t.perm| == MAX_ALPHA
  }

  ghost predicate TableFor(t: Table, len: seq<int>) {
    && len != [] && LengthsIn(len, 1, 20) && Shaped(t)
    && t.minLen == Lo(len) && Tables(len, Lo(len), Hi(len), t.limit, t.base, t.perm)
  }

  /** One selector for every 50 symbols, each naming a table. */
  ghost predicate Selects(sel: seq<int>, n: nat, nGroups: nat) {
    && n <= G_SIZE * |sel|
    && forall k :: 0 <= k < |sel| ==> 0 <= sel[k] < nGroups
  }

  ghost function PrintSymbol(len: seq<int>, s: int): Bits
    requires 0 <= s < |len| && LengthsIn(len, 1, 20)
  {
    BitsOf(CodeOf(len, Lo(len), s), len[s])
  }

  /** The symbols from number `i` on, under the selected tables. */
  ghost function PrintSymbols(lens: seq<seq<int>>, alphaSize: nat, sel: seq<int>, mtfv: seq<int>, i: nat): Bits
    requires GoodTables(lens, alphaSize) && Selects(sel, |mtfv|, |lens|) && i <= |mtfv|
    requires forall k :: 0 <= k < |mtfv| ==> 0 <= mtfv[k] < alphaSize
    decreases |mtfv| - i
  {
    if i == |mtfv| then []
    else PrintSymbol(lens[sel[i / G_SIZE]], mtfv[i]) + PrintSymbols(lens, alphaSize, sel, mtfv, i + 1)
  }

  /** Tables and selectors the reading loop can work with, sensible or not. */
  ghost predicate Usable(sel: seq<int>, tabs: seq<Table>) {
    && (forall k :: 0 <= k < |sel| ==> 0 <= sel[k] < |tabs|)
    && (forall t :: 0 <= t < |tabs| ==> Shaped(tabs[t]))
  }

  /** GET_MTF_VAL for symbol number `i`. */
  ghost function ReadSym(b: Bits, i: nat, sel: seq<int>, tabs: seq<Table>): (p: Parsed<int>)
    requires Usable(sel, tabs)
    ensures p.Done? ==> |p.rest| < |b|
  {
    if i / G_SIZE >= |sel| then Corrupt
    else
      var t := tabs[sel[i / G_SIZE]];
      assert Shaped(t);
      ReadCode(b, t.minLen, t.limit, t.base, t.perm)
  }

  /** The MTF and run decoding loop over the bits: the list positions delivered from symbol `i` on.
      `acc`, `w` and `room` are as in `MoveToFront.Decode`. */
  ghost function Expand(list: seq<int>, b: Bits, i: nat, sel: seq<int>, tabs: seq<Table>,
                        acc: nat, w: nat, room: nat, eob: int): (p: Parsed<seq<int>>)
    requires list != [] && Usable(sel, tabs)
    decreases |b|, 0
  {
    match ReadSym(b, i, sel, tabs)
    case Starved => Starved
    case Corrupt => Corrupt
    case Done(s, rest) => ExpandSym(list, s, rest, i + 1, sel, tabs, acc, w, room, eob)
  }

  /** The same, once symbol `s` has been read. */
  ghost function ExpandSym(list: seq<int>, s: int, b: Bits, i: nat, sel: seq<int>, tabs: seq<Table>,
                           acc: nat, w: nat, room: nat, eob: int): (p: Parsed<seq<int>>)
    requires list != [] && Usable(sel, tabs)
    decreases |b|, 1
  {
    if s == RUNA || s == RUNB then
      if w >= 2 * 1024 * 1024 then Corrupt
      else Expand(list, b, i, sel, tabs, acc + (s + 1) * w, 2 * w, room, eob)
    else if acc > room then Corrupt
    else if s == eob then Done(Rep(list[0], acc), b)
    else if acc == room || !(0 <= s - 1 < |list|) then Corrupt
    else Prepend(Rep(list[0], acc) + [list[s - 1]],
                 Expand(MoveFront(list, s - 1), b, i, sel, tabs, 0, 1, room - acc - 1, eob))
  }

  /** Every table decodes the code of its lengths. */
  ghost predicate Decodes(tabs: seq<Table>, lens: seq<seq<int>>, alphaSize: nat) {
    && GoodTables(lens, alphaSize) && |tabs| == |lens|
    && forall t :: 0 <= t < |tabs| ==> TableFor(tabs[t], lens[t]) && Complete(lens[t], alphaSize, 20)
  }

  lemma DecodesGood(tabs: seq<Table>, lens: seq<seq<int>>, alphaSize: nat)
    requires Decodes(tabs, lens, alphaSize)
    ensures GoodTables(lens, alphaSize) && |tabs| == |lens|
  {
  }

  /** Completeness does not depend on the bound on the lengths. */
  lemma CompleteTight(len: seq<int>, m: nat, d: nat)
    requires Complete(len, |len|, m + d) && forall i :: 0 <= i < |len| ==> len[i] <= m
    ensures Complete(len, |len|, m)
  {
    hide Kraft, Pow2;
    KraftScale(len, |len|, m, d);
    Pow2Add(m, d);
    Cancel(Kraft(len, |len|, m), Pow2(m), Pow2(d));
  }

  lemma CompleteWider(len: seq<int>, m: nat, d: nat)
    requires Complete(len, |len|, m)
    ensures Complete(len, |len|, m + d)
  {
    hide Kraft, Pow2;
    KraftScale(len, |len|, m, d);
    Pow2Add(m, d);
  }

  /** A printed symbol is read back. */
  lemma SymbolBack(tabs: seq<Table>, lens: seq<seq<int>>, alphaSize: nat, sel: seq<int>, mtfv: seq<int>, i: nat, rest: Bits)
    requires Decodes(tabs, lens, alphaSize) && Selects(sel, |mtfv|, |lens|) && i < |mtfv|
    requires forall k :: 0 <= k < |mtfv| ==> 0 <= mtfv[k] < alphaSize
    requires Usable(sel, tabs)
    ensures LengthsIn(lens[sel[i / G_SIZE]], 1, 20)
    ensures ReadSym(PrintSymbol(lens[sel[i / G_SIZE]], mtfv[i]) + rest, i, sel, tabs) == Done(mtfv[i], rest)
  {
    hide Kraft, ReadCode, Lo, Hi, Tables, Complete, CodeOf;
    var k := sel[i / G_SIZE];
    var t, len := tabs[k], lens[k];
    assert TableFor(t, len);
    assert 1 <= Lo(len) && Hi(len) <= 20;
    CompleteTight(len, Hi(len), 20 - Hi(len));
    ReadsBack(len, Lo(len), Hi(len), t.limit, t.base, t.perm, mtfv[i], Lo(len), rest);
  }

  lemma {:induction false} SymbolsStep(lens: seq<seq<int>>, alphaSize: nat, sel: seq<int>, mtfv: seq<int>,
                                       i: nat, rest: Bits) returns (s: int, tail: Bits, len: seq<int>)
    requires GoodTables(lens, alphaSize) && Selects(sel, |mtfv|, |lens|) && i < |mtfv|
    requires forall k :: 0 <= k < |mtfv| ==> 0 <= mtfv[k] < alphaSize
    ensures s == mtfv[i] && tail == PrintSymbols(lens, alphaSize, sel, mtfv, i + 1) + rest && len == lens[sel[i / G_SIZE]]
    ensures 0 <= s < |len| && LengthsIn(len, 1, 20)
    ensures PrintSymbols(lens, alphaSize, sel, mtfv, i) + rest == PrintSymbol(len, s) + tail
    ensures i + 1 == |mtfv| ==> tail == rest
  {
    hide PrintSymbol, CodeOf;
    s, tail, len := mtfv[i], PrintSymbols(lens, alphaSize, sel, mtfv, i + 1) + rest, lens[sel[i / G_SIZE]];
    assert PrintSymbols(lens, alphaSize, sel, mtfv, i)
        == PrintSymbol(len, s) + PrintSymbols(lens, alphaSize, sel, mtfv, i + 1);
  }

  /** Running over printed symbols is the same as decoding the symbols themselves. */
  lemma {:induction false} ExpandIsDecode(list: seq<int>, tabs: seq<Table>, lens: seq<seq<int>>, alphaSize: nat,
                                          sel: seq<int>, mtfv: seq<int>, i: nat, rest: Bits,
                                          acc: nat, w: nat, room: nat, eob: int)
    requires list != [] && Decodes(tabs, lens, alphaSize) && Selects(sel, |mtfv|, |lens|) && i <= |mtfv|
    requires forall k :: 0 <= k < |mtfv| ==> 0 <= mtfv[k] < alphaSize
    requires forall k :: 0 <= k < |mtfv| - 1 ==> mtfv[k] != eob
    requires Usable(sel, tabs)
    requires Decode(list, mtfv[i..], acc, w, room, eob).Some?
    ensures Expand(list, PrintSymbols(lens, alphaSize, sel, mtfv, i) + rest, i, sel, tabs, acc, w, room, eob)
         == Done(Decode(list, mtfv[i..], acc, w, room, eob).value, rest)
    decreases |mtfv| - i
  {
    hide Decodes, Shaped, PrintSymbol, ReadSym, MoveFront, PrintSymbols, CodeOf, Usable;
    assert i < |mtfv|;
    DecodesGood(tabs, lens, alphaSize);
    var s, tail, len := SymbolsStep(lens, alphaSize, sel, mtfv, i, rest);
    SymbolBack(tabs, lens, alphaSize, sel, mtfv, i, tail);
    assert mtfv[i..][0] == s && mtfv[i..][1..] == mtfv[i + 1..];
    if s == RUNA || s == RUNB {
      ExpandIsDecode(list, tabs, lens, alphaSize, sel, mtfv, i + 1, rest, acc + (s + 1) * w, 2 * w, room, eob);
    } else if s == eob {
      assert i + 1 == |mtfv|;
      assert tail == rest;
    } else {
      ExpandIsDecode(MoveFront(list, s - 1), tabs, lens, alphaSize, sel, mtfv, i + 1, rest, 0, 1, room - acc - 1, eob);
    }
  }

  // ----- the whole block

  /** What comes before the symbols: the mapping table, the selectors and the coding tables. */
  datatype Head = Head(inUse: seq<bool>, sel: seq<int>, lens: seq<seq<int>>)

  ghost function AlphaSize(inUse: seq<bool>): nat
    requires |inUse| == 256
  {
    |Used(inUse, 256)| + 2
  }

  /** A head sendMTFValues can send: 2 to 6 tables, and at most 15 bits' worth of selectors. */
  ghost predicate GoodHead(h: Head) {
    && |h.inUse| == 256 && |Used(h.inUse, 256)| >= 1
    && 2 <= |h.lens| <= 6 && GoodTables(h.lens, AlphaSize(h.inUse))
    && 1 <= |h.sel| < 0x8000 && AllIn(h.sel, Iota(|h.lens|))
  }

  ghost function PrintSelectors(nGroups: nat, sel: seq<int>): Bits
    requires AllIn(sel, Iota(nGroups))
  {
    PrintUnaries(SelectorsToMtf(Iota(nGroups), sel))
  }

  ghost function PrintHead(h: Head): Bits
    requires GoodHead(h)
  {
    GoodIsPrintable(h.lens, AlphaSize(h.inUse));
    PrintMap(h.inUse) + (BitsOf(|h.lens|, 3) + (BitsOf(|h.sel|, 15) + (PrintSelectors(|h.lens|, h.sel) + PrintTables(h.lens))))
  }

  ghost function ParseSelectors(b: Bits, nGroups: nat): (p: Parsed<seq<int>>)
    requires nGroups > 0
    ensures p.Done? ==> p.value != []
  {
    match Take(b, 15)
    case Starved => Starved
    case Corrupt => Corrupt
    case Done(nSelectors, rest) =>
      if nSelectors < 1 then Corrupt
      else
        match ParseUnaries(rest, nSelectors, nGroups)
        case Starved => Starved
        case Corrupt => Corrupt
        case Done(mtf, rest') => Done(MtfToSelectors(Iota(nGroups), mtf), rest')
  }

  ghost function ParseHead(b: Bits): Parsed<Head> {
    match ParseMap(b)
    case Starved => Starved
    case Corrupt => Corrupt
    case Done(inUse, b1) =>
      if |Used(inUse, 256)| == 0 then Corrupt
      else
        match Take(b1, 3)
        case Starved => Starved
        case Corrupt => Corrupt
        case Done(nGroups, b2) =>
          if nGroups < 2 || nGroups > 6 then Corrupt
          else
            match ParseSelectors(b2, nGroups)
            case Starved => Starved
            case Corrupt => Corrupt
            case Done(sel, b3) =>
              match ParseTables(b3, nGroups, AlphaSize(inUse))
              case Starved => Starved
              case Corrupt => Corrupt
              case Done(lens, rest) => Done(Head(inUse, sel, lens), rest)
  }

  lemma SelectorPartBack(nGroups: nat, sel: seq<int>, rest: Bits)
    requires nGroups > 0 && 1 <= |sel| < 0x8000 && AllIn(sel, Iota(nGroups))
    ensures ParseSelectors(BitsOf(|sel|, 15) + (PrintSelectors(nGroups, sel) + rest), nGroups) == Done(sel, rest)
  {
    hide ParseUnaries, PrintUnaries, SelectorsToMtf, MtfToSelectors, Take, BitsOf;
    var mtf := SelectorsToMtf(Iota(nGroups), sel);
    Pow2Add(8, 7);
    assert Pow2(15) == 0x8000;
    TakeBack(|sel|, 15, PrintSelectors(nGroups, sel) + rest);
    UnariesBack(mtf, nGroups, rest);
    SelectorsBack(Iota(nGroups), sel);
  }

  /** The head of a block is read back. */
  lemma {:induction false} HeadBack(h: Head, rest: Bits)
    requires GoodHead(h)
    ensures ParseHead(PrintHead(h) + rest) == Done(h, rest)
  {
    hide ParseMap, ParseTables, ParseSelectors, PrintMap, PrintTables, PrintSelectors, Take, BitsOf, GoodTables, Used;
    var alphaSize, nGroups := AlphaSize(h.inUse), |h.lens|;
    GoodIsPrintable(h.lens, alphaSize);
    var b3 := PrintTables(h.lens) + rest;
    var b2 := BitsOf(|h.sel|, 15) + (PrintSelectors(nGroups, h.sel) + b3);
    var b1 := BitsOf(nGroups, 3) + b2;
    assert PrintHead(h) + rest == PrintMap(h.inUse) + b1;
    MapBack(h.inUse, b1);
    assert Pow2(3) == 8;
    TakeBack(nGroups, 3, b2);
    SelectorPartBack(nGroups, h.sel, b3);
    TablesBack(h.lens, alphaSize, rest);
  }

  // ----- what is left to read never grows

  lemma {:induction false} GroupsShrink(flags: Bits, i: nat, b: Bits)
    requires |flags| == 16 && i <= 16
    ensures ParseGroups(flags, i, b).Done? ==> |ParseGroups(flags, i, b).rest| <= |b|
    decreases 16 - i
  {
    if i < 16 && (flags[i] ==> |b| >= 16) { GroupsShrink(flags, i + 1, if flags[i] then b[16..] else b); }
  }

  lemma {:induction false} UnaryShrinks(b: Bits, j: nat, nGroups: nat)
    requires j < nGroups
    ensures ParseUnary(b, j, nGroups).Done? ==> |ParseUnary(b, j, nGroups).rest| <= |b|
    decreases |b|
  {
    if b != [] && b[0] && j + 1 < nGroups { UnaryShrinks(b[1..], j + 1, nGroups); }
  }

  lemma {:induction false} UnariesShrink(b: Bits, k: nat, nGroups: nat)
    requires nGroups > 0
    ensures ParseUnaries(b, k, nGroups).Done? ==> |ParseUnaries(b, k, nGroups).rest| <= |b|
    decreases k
  {
    if k > 0 {
      UnaryShrinks(b, 0, nGroups);
      var p := ParseUnary(b, 0, nGroups);
      if p.Done? { UnariesShrink(p.rest, k - 1, nGroups); }
    }
  }

  lemma {:induction false} LengthsShrink(b: Bits, curr: int, k: nat)
    ensures ParseLengths(b, curr, k).Done? ==> |ParseLengths(b, curr, k).rest| <= |b|
    decreases k
  {
    if k > 0 {
      var p := ParseLength(b, curr);
      if p.Done? { LengthsShrink(p.rest, p.value, k - 1); }
    }
  }

  lemma {:induction false} TablesShrink(b: Bits, nGroups: nat, alphaSize: nat)
    ensures ParseTables(b, nGroups, alphaSize).Done? ==> |ParseTables(b, nGroups, alphaSize).rest| <= |b|
    decreases nGroups
  {
    if nGroups > 0 && |b| >= 5 {
      LengthsShrink(b[5..], Val(b[..5]), alphaSize);
      var p := ParseLengths(b[5..], Val(b[..5]), alphaSize);
      if p.Done? { TablesShrink(p.rest, nGroups - 1, alphaSize); }
    }
  }

  lemma HeadShrinks(b: Bits)
    ensures ParseHead(b).Done? ==> |ParseHead(b).rest| <= |b|
  {
    hide ParseGroups, ParseUnaries, ParseTables, Val, MtfToSelectors, Used;
    if ParseHead(b).Done? {
      GroupsShrink(b[..16], 0, b[16..]);
      var b1 := ParseMap(b).rest;
      var nGroups, b2 := Take(b1, 3).value, b1[3..];
      var mtf := Take(b2, 15).value;
      UnariesShrink(b2[15..], mtf, nGroups);
      var b3 := ParseSelectors(b2, nGroups).rest;
      TablesShrink(b3, nGroups, AlphaSize(ParseMap(b).value));
    }
  }

  lemma {:induction false} ExpandShrinks(list: seq<int>, b: Bits, i: nat, sel: seq<int>, tabs: seq<Table>,
                                         acc: nat, w: nat, room: nat, eob: int)
    requires list != [] && Usable(sel, tabs)
    ensures Expand(list, b, i, sel, tabs, acc, w, room, eob).Done? ==> |Expand(list, b, i, sel, tabs, acc, w, room, eob).rest| <= |b|
    decreases |b|
  {
    hide MoveFront, Rep, Usable;
    var p := ReadSym(b, i, sel, tabs);
    if p.Done? {
      var s, rest := p.value, p.rest;
      if s == RUNA || s == RUNB {
        if w < 2 * 1024 * 1024 { ExpandShrinks(list, rest, i + 1, sel, tabs, acc + (s + 1) * w, 2 * w, room, eob); }
      } else if acc < room && s != eob && 0 <= s - 1 < |list| {
        MoveFrontSame(list, s - 1);
        ExpandShrinks(MoveFront(list, s - 1), rest, i + 1, sel, tabs, 0, 1, room - acc - 1, eob);
      }
    }
  }
}
