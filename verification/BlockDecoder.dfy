/** Reading one block: the part of BZ2_decompress (deps/bzip2/decompress.c) from the mapping table
    to the end of the symbols, proved to be the parser of `BlockFormat`. */
module BlockDecoder {
  import opened BitStream
  import opened BlockFormat
  import opened Counting
  import opened HuffmanCodes
  import opened HuffmanLengths
  import opened MoveToFront
  import opened Permutations
  import opened Powers
  import opened TwoLevelMtf

  /** BZ_OK with the input used up shows as NeedInput, BZ_DATA_ERROR as DataError. */
  datatype Result<T> = Got(value: T) | NeedInput | DataError

  /** A reader has done what a parser says. */
  ghost predicate Agrees<T>(p: Parsed<T>, r: Result<T>, rest: Bits) {
    match p
    case Done(v, q) => r == Got(v) && rest == q
    case Starved => r.NeedInput?
    case Corrupt => r.DataError?
  }

  /** GET_BIT. */
  method GetBit(rd: BitReader) returns (ok: bool, b: bool)
    requires rd.Valid()
    modifies rd
    ensures rd.Valid() && (ok <==> old(rd.Rest()) != [])
    ensures ok ==> b == old(rd.Rest())[0] && rd.Rest() == old(rd.Rest())[1..]
  {
    hide ByteBits;
    var v;
    ok, v := rd.Get(1);
    b := v == 1;
    OneBit(v);
  }

  lemma OneBit(v: nat)
    ensures Pow2(1) == 2
    ensures v < 2 ==> BitsOf(v, 1) == [v == 1]
  {
    assert BitsOf(v / 2, 0) == [];
  }

  // ----- the mapping table

  method ReceiveMap(rd: BitReader) returns (r: Result<seq<bool>>)
    requires rd.Valid()
    modifies rd
    ensures rd.Valid() && Agrees(ParseMap(old(rd.Rest())), r, rd.Rest())
  {
    hide ParseGroups, ByteBits, BitsOf;
    ghost var b := rd.Rest();
    var inUse16 := new bool[16];
    for i := 0 to 16
      invariant rd.Valid() && i <= |b| && rd.Rest() == b[i..] && inUse16[..i] == b[..i]
    {
      var ok, bit := GetBit(rd);
      if !ok { return NeedInput; }
      inUse16[i] := bit;
      assert b[i..][1..] == b[i + 1..];
    }
    assert inUse16[..] == inUse16[..16];
    var inUse := new bool[256](_ => false);
    ghost var flags := inUse16[..];
    PrependTwice([], [], ParseGroups(flags, 0, rd.Rest()));
    assert inUse[..16 * 0] == [];
    for i := 0 to 16
      invariant rd.Valid() && inUse16[..] == flags
      invariant Prepend(inUse[..16 * i], ParseGroups(flags, i, rd.Rest())) == ParseMap(b)
      invariant forall k :: 16 * i <= k < 256 ==> !inUse[k]
    {
      ghost var done, rest := inUse[..16 * i], rd.Rest();
      GroupParse(flags, i, rest);
      ghost var group := Zeros(16);
      if inUse16[i] {
        var ok := ReceiveGroup(rd, inUse, i);
        if !ok { return NeedInput; }
        group := rest[..16];
      }
      assert inUse[..16 * (i + 1)] == done + group;
      PrependTwice(done, group, ParseGroups(flags, i + 1, rd.Rest()));
    }
    ParsedGroups(flags, rd.Rest());
    r := Got(inUse[..]);
    assert inUse[..256] + [] == inUse[..];
  }

  lemma {:induction false} GroupParse(flags: Bits, i: nat, b: Bits)
    requires |flags| == 16 && i < 16
    ensures flags[i] && |b| < 16 ==> ParseGroups(flags, i, b) == Starved
    ensures flags[i] && |b| >= 16 ==> ParseGroups(flags, i, b) == Prepend(b[..16], ParseGroups(flags, i + 1, b[16..]))
    ensures !flags[i] ==> ParseGroups(flags, i, b) == Prepend(Zeros(16), ParseGroups(flags, i + 1, b))
  {
  }

  lemma {:induction false} ParsedGroups(flags: Bits, b: Bits)
    requires |flags| == 16
    ensures ParseGroups(flags, 16, b) == Done([], b)
  {
  }

  /** The flags of group `i`. */
  method ReceiveGroup(rd: BitReader, inUse: array<bool>, i: nat) returns (ok: bool)
    requires rd.Valid() && inUse.Length == 256 && i < 16 && forall k :: 16 * i <= k < 256 ==> !inUse[k]
    modifies rd, inUse
    ensures rd.Valid() && (ok <==> |old(rd.Rest())| >= 16)
    ensures ok ==> rd.Rest() == old(rd.Rest())[16..] && inUse[16 * i..16 * i + 16] == old(rd.Rest())[..16]
    ensures forall k :: 0 <= k < 16 * i ==> inUse[k] == old(inUse[k])
    ensures forall k :: 16 * i + 16 <= k < 256 ==> !inUse[k]
  {
    hide ByteBits, BitsOf;
    ghost var b := rd.Rest();
    for j := 0 to 16
      invariant rd.Valid() && j <= |b| && rd.Rest() == b[j..]
      invariant forall k :: 0 <= k < 16 * i ==> inUse[k] == old(inUse[k])
      invariant forall k :: 0 <= k < j ==> inUse[16 * i + k] == b[k]
      invariant forall k :: 16 * i + j <= k < 256 ==> !inUse[k]
    {
      var got, bit := GetBit(rd);
      if !got { return false; }
      if bit { inUse[i * 16 + j] := true; }
      assert b[j..][1..] == b[j + 1..];
    }
    ok := true;
  }

  // ----- the selectors

  method ReceiveUnary(rd: BitReader, nGroups: nat) returns (r: Result<nat>)
    requires rd.Valid() && nGroups > 0
    modifies rd
    ensures rd.Valid() && Agrees(ParseUnary(old(rd.Rest()), 0, nGroups), r, rd.Rest())
  {
    hide ByteBits, BitsOf;
    var j := 0;
    while true
      invariant rd.Valid() && 0 <= j < nGroups
      invariant ParseUnary(rd.Rest(), j, nGroups) == ParseUnary(old(rd.Rest()), 0, nGroups)
      decreases nGroups - j
    {
      var ok, bit := GetBit(rd);
      if !ok { return NeedInput; }
      if !bit { return Got(j); }
      j := j + 1;
      if j >= nGroups { return DataError; }
    }
  }

  /** Undoing the MTF values of the selectors. */
  method UndoSelectors(selectorMtf: seq<nat>, nGroups: nat) returns (selector: seq<int>)
    requires nGroups <= 6 && forall i :: 0 <= i < |selectorMtf| ==> selectorMtf[i] < nGroups
    ensures selector == MtfToSelectors(Iota(nGroups), selectorMtf)
  {
    hide MoveFront;
    var pos := new int[6](i => i);
    assert pos[..nGroups] == Iota(nGroups);
    selector := [];
    var i := 0;
    assert selectorMtf[0..] == selectorMtf;
    while i < |selectorMtf|
      invariant 0 <= i <= |selectorMtf|
      invariant selector + MtfToSelectors(pos[..nGroups], selectorMtf[i..]) == MtfToSelectors(Iota(nGroups), selectorMtf)
    {
      ghost var list, rest := pos[..nGroups], selectorMtf[i..];
      assert rest[1..] == selectorMtf[i + 1..];
      var tmp := ToFront(pos, selectorMtf[i], nGroups);
      assert MtfToSelectors(list, rest) == [tmp] + MtfToSelectors(MoveFront(list, rest[0]), rest[1..]);
      selector := selector + [tmp];
      i := i + 1;
    }
    assert selectorMtf[i..] == [];
  }

  method ToFront(pos: array<int>, v0: nat, n: nat) returns (tmp: int)
    requires v0 < n <= pos.Length
    modifies pos
    ensures tmp == old(pos[v0]) && pos[..n] == MoveFront(old(pos[..n]), v0)
  {
    hide MovedUp, MoveFront;
    ghost var s := pos[..];
    tmp := pos[v0];
    var v := v0;
    MovedUpNone(s, v0);
    while v > 0
      invariant 0 <= v <= v0
      invariant pos[..] == MovedUp(s, v, v0)
    {
      MovedUpStep(s, v, v0);
      ghost var p := pos[..];
      pos[v] := pos[v - 1];
      assert pos[..] == p[v := p[v - 1]];
      v := v - 1;
    }
    MovedUpFront(s, v0, n);
    ghost var p := pos[..];
    pos[0] := tmp;
    assert pos[..] == p[0 := tmp];
    assert pos[..n] == pos[..][..n];
  }

  method ReceiveSelectors(rd: BitReader, nGroups: nat) returns (r: Result<seq<int>>)
    requires rd.Valid() && 0 < nGroups <= 6
    modifies rd
    ensures rd.Valid() && Agrees(ParseSelectors(old(rd.Rest()), nGroups), r, rd.Rest())
  {
    hide ByteBits, BitsOf, ParseUnaries, ParseUnary, MtfToSelectors;
    ghost var b := rd.Rest();
    var ok, nSelectors := rd.Get(15);
    if !ok { return NeedInput; }
    TakeGot(b, nSelectors, 15);
    if nSelectors < 1 { return DataError; }
    ghost var rest := rd.Rest();
    var selectorMtf: seq<nat> := [];
    PrependTwice([], [], ParseUnaries(rest, nSelectors, nGroups));
    while |selectorMtf| < nSelectors
      invariant |selectorMtf| <= nSelectors && rd.Valid()
      invariant forall i :: 0 <= i < |selectorMtf| ==> selectorMtf[i] < nGroups
      invariant Prepend(selectorMtf, ParseUnaries(rd.Rest(), nSelectors - |selectorMtf|, nGroups))
             == ParseUnaries(rest, nSelectors, nGroups)
    {
      UnariesParse(rd.Rest(), nSelectors - |selectorMtf|, nGroups);
      var one := ReceiveUnary(rd, nGroups);
      match one {
        case NeedInput => return NeedInput;
        case DataError => return DataError;
        case Got(j) =>
          PrependTwice(selectorMtf, [j], ParseUnaries(rd.Rest(), nSelectors - |selectorMtf| - 1, nGroups));
          selectorMtf := selectorMtf + [j];
      }
    }
    UnariesParse(rd.Rest(), 0, nGroups);
    assert selectorMtf + [] == selectorMtf;
    var selector := UndoSelectors(selectorMtf, nGroups);
    r := Got(selector);
  }

  lemma {:induction false} UnariesParse(b: Bits, k: nat, nGroups: nat)
    requires nGroups > 0
    ensures k == 0 ==> ParseUnaries(b, k, nGroups) == Done([], b)
    ensures k > 0 ==> match ParseUnary(b, 0, nGroups)
                      case Starved => ParseUnaries(b, k, nGroups) == Starved
                      case Corrupt => ParseUnaries(b, k, nGroups) == Corrupt
                      case Done(v, rest) => ParseUnaries(b, k, nGroups) == Prepend([v], ParseUnaries(rest, k - 1, nGroups))
  {
  }

  /** What the reader delivered is what the parser takes. */
  lemma TakeGot(b: Bits, v: nat, n: nat)
    requires n <= |b| && v < Pow2(n) && BitsOf(v, n) == b[..n]
    ensures Take(b, n) == Done(v, b[n..])
  {
    ValBitsOf(v, n);
  }

  // ----- the coding tables

  method ReceiveLength(rd: BitReader, from: int) returns (r: Result<int>)
    requires rd.Valid()
    modifies rd
    ensures rd.Valid() && Agrees(ParseLength(old(rd.Rest()), from), r, rd.Rest())
  {
    hide ByteBits, BitsOf;
    var curr := from;
    while true
      invariant rd.Valid() && ParseLength(rd.Rest(), curr) == ParseLength(old(rd.Rest()), from)
      decreases |rd.Rest()|
    {
      ghost var b := rd.Rest();
      if curr < 1 || curr > 20 { return DataError; }
      var ok, bit := GetBit(rd);
      if !ok { return NeedInput; }
      if !bit { return Got(curr); }
      ok, bit := GetBit(rd);
      if !ok { return NeedInput; }
      assert b[1..][1..] == b[2..];
      if !bit { curr := curr + 1; } else { curr := curr - 1; }
    }
  }

  method ReceiveTable(rd: BitReader, from: int, alphaSize: nat) returns (r: Result<seq<int>>)
    requires rd.Valid()
    modifies rd
    ensures rd.Valid() && Agrees(ParseLengths(old(rd.Rest()), from, alphaSize), r, rd.Rest())
  {
    hide ByteBits, BitsOf, ParseLengths, ParseLength;
    ghost var b := rd.Rest();
    var curr := from;
    var len: seq<int> := [];
    PrependTwice([], [], ParseLengths(b, from, alphaSize));
    while |len| < alphaSize
      invariant |len| <= alphaSize && rd.Valid()
      invariant Prepend(len, ParseLengths(rd.Rest(), curr, alphaSize - |len|)) == ParseLengths(b, from, alphaSize)
    {
      LengthsParse(rd.Rest(), curr, alphaSize - |len|);
      var one := ReceiveLength(rd, curr);
      match one {
        case NeedInput => return NeedInput;
        case DataError => return DataError;
        case Got(v) =>
          PrependTwice(len, [v], ParseLengths(rd.Rest(), v, alphaSize - |len| - 1));
          curr := v;
          len := len + [curr];
      }
    }
    LengthsParse(rd.Rest(), curr, 0);
    assert len + [] == len;
    r := Got(len);
  }

  lemma {:induction false} LengthsParse(b: Bits, curr: int, k: nat)
    ensures k == 0 ==> ParseLengths(b, curr, k) == Done([], b)
    ensures k > 0 ==> match ParseLength(b, curr)
                      case Starved => ParseLengths(b, curr, k) == Starved
                      case Corrupt => ParseLengths(b, curr, k) == Corrupt
                      case Done(v, rest) => ParseLengths(b, curr, k) == Prepend([v], ParseLengths(rest, v, k - 1))
  {
  }

  method ReceiveTables(rd: BitReader, nGroups: nat, alphaSize: nat) returns (r: Result<seq<seq<int>>>)
    requires rd.Valid()
    modifies rd
    ensures rd.Valid() && Agrees(ParseTables(old(rd.Rest()), nGroups, alphaSize), r, rd.Rest())
  {
    hide ByteBits, BitsOf, ParseLengths, ParseTables, Val;
    ghost var b := rd.Rest();
    var lens: seq<seq<int>> := [];
    PrependTwice([], [], ParseTables(b, nGroups, alphaSize));
    while |lens| < nGroups
      invariant |lens| <= nGroups && rd.Valid()
      invariant Prepend(lens, ParseTables(rd.Rest(), nGroups - |lens|, alphaSize)) == ParseTables(b, nGroups, alphaSize)
    {
      ghost var c := rd.Rest();
      TablesParse(c, nGroups - |lens|, alphaSize);
      var ok, curr := rd.Get(5);
      if !ok { return NeedInput; }
      ValBitsOf(curr, 5);
      var one := ReceiveTable(rd, curr, alphaSize);
      match one {
        case NeedInput => return NeedInput;
        case DataError => return DataError;
        case Got(len) =>
          PrependTwice(lens, [len], ParseTables(rd.Rest(), nGroups - |lens| - 1, alphaSize));
          lens := lens + [len];
      }
    }
    TablesParse(rd.Rest(), 0, alphaSize);
    assert lens + [] == lens;
    r := Got(lens);
  }

  lemma {:induction false} TablesParse(b: Bits, k: nat, alphaSize: nat)
    ensures k == 0 ==> ParseTables(b, k, alphaSize) == Done([], b)
    ensures k > 0 && |b| < 5 ==> ParseTables(b, k, alphaSize) == Starved
    ensures k > 0 && |b| >= 5 ==>
      match ParseLengths(b[5..], Val(b[..5]), alphaSize)
      case Starved => ParseTables(b, k, alphaSize) == Starved
      case Corrupt => ParseTables(b, k, alphaSize) == Corrupt
      case Done(len, rest) => ParseTables(b, k, alphaSize) == Prepend([len], ParseTables(rest, k - 1, alphaSize))
  {
  }

  // ----- the whole head

  method ReceiveHead(rd: BitReader) returns (r: Result<Head>)
    requires rd.Valid()
    modifies rd
    ensures rd.Valid() && Agrees(ParseHead(old(rd.Rest())), r, rd.Rest())
  {
    hide ByteBits, BitsOf, ParseMap, ParseSelectors, ParseTables, Val, Used;
    var used := ReceiveMap(rd);
    if used.NeedInput? { return NeedInput; }
    if used.DataError? { return DataError; }
    var inUse := used.value;
    var arr := new bool[256](i requires 0 <= i < 256 => inUse[i]);
    assert arr[..] == inUse;
    var seqToUnseq, nInUse := MakeMapsD(arr);
    if nInUse == 0 { return DataError; }
    var alphaSize := nInUse + 2;
    ghost var b1 := rd.Rest();
    var ok, nGroups := rd.Get(3);
    if !ok { return NeedInput; }
    TakeGot(b1, nGroups, 3);
    if nGroups < 2 || nGroups > 6 { return DataError; }
    var sel := ReceiveSelectors(rd, nGroups);
    if sel.NeedInput? { return NeedInput; }
    if sel.DataError? { return DataError; }
    var tab := ReceiveTables(rd, nGroups, alphaSize);
    if tab.NeedInput? { return NeedInput; }
    if tab.DataError? { return DataError; }
    r := Got(Head(inUse, sel.value, tab.value));
  }

  // ----- the decoding tables

  method BuildTable(len: seq<int>) returns (t: Table)
    requires 0 < |len| <= MAX_ALPHA && LengthsIn(len, 1, 20)
    ensures TableFor(t, len)
  {
    hide Tables;
    var limit := new int[MAX_CODE_LEN];
    var base := new int[MAX_CODE_LEN];
    var perm := new int[MAX_ALPHA];
    var minLen, maxLen := LengthRange(len);
    CreateDecodeTables(limit, base, perm, len, minLen, maxLen, |len|);
    t := Table(minLen, limit[..], base[..], perm[..]);
  }

  method BuildTables(lens: seq<seq<int>>, alphaSize: nat) returns (tabs: seq<Table>)
    requires GoodTables(lens, alphaSize) && alphaSize <= MAX_ALPHA
    ensures |tabs| == |lens| && forall t :: 0 <= t < |lens| ==> TableFor(tabs[t], lens[t])
  {
    hide TableFor;
    tabs := [];
    for t := 0 to |lens|
      invariant |tabs| == t && forall u :: 0 <= u < t ==> TableFor(tabs[u], lens[u])
    {
      var tab := BuildTable(lens[t]);
      tabs := tabs + [tab];
    }
  }

  // ----- one symbol

  lemma {:induction false} ValNext(b: Bits, n: nat)
    requires n < |b|
    ensures Val(b[..n + 1]) == 2 * Val(b[..n]) + Bit(b[n])
  {
    assert b[..n + 1][..n] == b[..n];
  }

  /** The code-reading loop of GET_MTF_VAL. */
  method ReceiveCode(rd: BitReader, t: Table) returns (r: Result<int>)
    requires rd.Valid() && Shaped(t)
    modifies rd
    ensures rd.Valid() && Agrees(ReadCode(old(rd.Rest()), t.minLen, t.limit, t.base, t.perm), r, rd.Rest())
  {
    hide ByteBits, BitsOf, Val;
    ghost var b := rd.Rest();
    var zn := t.minLen;
    var ok, zvec := rd.Get(zn);
    if !ok { return NeedInput; }
    ValBitsOf(zvec, zn);
    while zn <= 20 && zvec > t.limit[zn]
      invariant 1 <= zn <= 21 && zn <= |b| && rd.Valid() && rd.Rest() == b[zn..] && zvec == Val(b[..zn])
      invariant ReadCode(b, zn, t.limit, t.base, t.perm) == ReadCode(b, t.minLen, t.limit, t.base, t.perm)
    {
      zn := zn + 1;
      var zj;
      ok, zj := GetBit(rd);
      if !ok { return NeedInput; }
      ValNext(b, zn - 1);
      assert b[zn - 1..][1..] == b[zn..];
      zvec := zvec * 2 + Bit(zj);
    }
    if zn > 20 { return DataError; }
    if zvec - t.base[zn] < 0 || zvec - t.base[zn] >= MAX_ALPHA { return DataError; }
    r := Got(t.perm[zvec - t.base[zn]]);
  }

  /** The number of symbols read so far, from the group counters. */
  function SymbolsRead(groupNo: int, groupPos: int): int { G_SIZE * (groupNo + 1) - groupPos }

  /** GET_MTF_VAL. */
  method ReceiveSymbol(rd: BitReader, sel: seq<int>, tabs: seq<Table>, groupNo0: int, groupPos0: int)
    returns (r: Result<int>, groupNo: int, groupPos: int)
    requires rd.Valid() && Usable(sel, tabs)
    requires -1 <= groupNo0 && 0 <= groupPos0 < G_SIZE && (groupPos0 > 0 ==> 0 <= groupNo0 < |sel|)
    modifies rd
    ensures rd.Valid()
    ensures Agrees(ReadSym(old(rd.Rest()), SymbolsRead(groupNo0, groupPos0), sel, tabs), r, rd.Rest())
    ensures r.Got? ==> 0 <= groupNo < |sel| && 0 <= groupPos < G_SIZE
    ensures r.Got? ==> SymbolsRead(groupNo, groupPos) == SymbolsRead(groupNo0, groupPos0) + 1
  {
    hide ByteBits, BitsOf, ReadCode, Shaped;
    groupNo, groupPos := groupNo0, groupPos0;
    ghost var i := SymbolsRead(groupNo, groupPos);
    if groupPos == 0 {
      groupNo := groupNo + 1;
      assert i / G_SIZE == groupNo;
      if groupNo >= |sel| { return DataError, groupNo, groupPos; }
      groupPos := G_SIZE;
    }
    assert i / G_SIZE == groupNo;
    groupPos := groupPos - 1;
    assert Shaped(tabs[sel[groupNo]]);
    r := ReceiveCode(rd, tabs[sel[groupNo]]);
  }

  // ----- delivering bytes

  /** The bytes that list positions stand for. */
  ghost function Mapped(m: seq<int>, out: seq<int>): (col: seq<int>)
    requires |m| == 256
    ensures |col| == |out|
  {
    seq(|out|, k requires 0 <= k < |out| => if 0 <= out[k] < 256 then m[out[k]] else 0)
  }

  /** The bytes `col` are in `tt`, and counted in `unzftab`. */
  ghost predicate Delivered(tt: seq<int>, unzftab: seq<int>, col: seq<int>) {
    && |col| <= |tt| && tt[..|col|] == col && IsBytes(col)
    && |unzftab| == 256 && forall c :: 0 <= c < 256 ==> unzftab[c] == Count(col, c, |col|)
  }

  lemma {:induction false} CountPrefix(s: seq<int>, t: seq<int>, c: int, k: nat)
    requires k <= |s|
    ensures Count(s + t, c, k) == Count(s, c, k)
  {
    if k > 0 { CountPrefix(s, t, c, k - 1); }
  }

  lemma {:induction false} CountRep(s: seq<int>, x: int, n: nat, c: int)
    ensures Count(s + Rep(x, n), c, |s| + n) == Count(s, c, |s|) + (if x == c then n else 0)
    decreases n
  {
    if n == 0 {
      assert s + Rep(x, 0) == s;
    } else {
      CountRep(s, x, n - 1, c);
      var u := s + Rep(x, n - 1);
      assert s + Rep(x, n) == u + [x];
      CountPrefix(u, [x], c, |u|);
    }
  }

  /** A run of `es` copies of one byte. */
  method DeliverRun(tt: array<int>, unzftab: array<int>, nblock0: nat, nblockMAX: nat, uc: int, es0: nat, ghost col: seq<int>)
    returns (ok: bool, nblock: nat)
    requires tt != unzftab && nblockMAX <= tt.Length && nblock0 == |col| <= nblockMAX && 0 <= uc < 256
    requires Delivered(tt[..], unzftab[..], col)
    modifies tt, unzftab
    ensures ok <==> |col| + es0 <= nblockMAX
    ensures ok ==> nblock == |col| + es0 && Delivered(tt[..], unzftab[..], col + Rep(uc, es0))
  {
    hide Count;
    ghost var z := unzftab[..];
    unzftab[uc] := unzftab[uc] + es0;
    nblock := nblock0;
    var es := es0;
    while es > 0
      invariant 0 <= es <= es0 && nblock == |col| + (es0 - es) <= nblockMAX
      invariant tt[..|col|] == col && forall k :: |col| <= k < nblock ==> tt[k] == uc
      invariant unzftab[..] == z[uc := z[uc] + es0]
    {
      if nblock >= nblockMAX { return false, nblock; }
      tt[nblock] := uc;
      nblock := nblock + 1;
      es := es - 1;
    }
    ok := true;
    ghost var col' := col + Rep(uc, es0);
    forall c | 0 <= c < 256 ensures unzftab[c] == Count(col', c, |col'|) {
      CountRep(col, uc, es0, c);
    }
    assert tt[..|col'|] == col';
    assert IsBytes(col');
  }

  lemma MappedJoin(m: seq<int>, a: seq<int>, b: seq<int>)
    requires |m| == 256
    ensures Mapped(m, a + b) == Mapped(m, a) + Mapped(m, b)
  {
  }

  lemma MappedRep(m: seq<int>, x: int, n: nat)
    requires |m| == 256 && 0 <= x < 256
    ensures Mapped(m, Rep(x, n)) == Rep(m[x], n)
  {
  }

  /** Closing a run: what follows is expanded as if from scratch. */
  lemma {:induction false} RunClosed(list: seq<int>, s: int, b: Bits, i: nat, sel: seq<int>, tabs: seq<Table>,
                                     acc: nat, w: nat, room: nat, eob: int)
    requires list != [] && Usable(sel, tabs) && s != RUNA && s != RUNB
    ensures acc > room ==> ExpandSym(list, s, b, i, sel, tabs, acc, w, room, eob) == Corrupt
    ensures acc <= room ==>
      ExpandSym(list, s, b, i, sel, tabs, acc, w, room, eob)
      == Prepend(Rep(list[0], acc), ExpandSym(list, s, b, i, sel, tabs, 0, 1, room - acc, eob))
  {
    hide Expand, Usable;
    if acc <= room && s != eob && acc != room && 0 <= s - 1 < |list| {
      var more := Expand(MoveFront(list, s - 1), b, i, sel, tabs, 0, 1, room - acc - 1, eob);
      assert Rep(list[0], 0) + [list[s - 1]] == [list[s - 1]];
      PrependTwice(Rep(list[0], acc), [list[s - 1]], more);
    } else if acc <= room && s == eob {
      assert Rep(list[0], acc) + Rep(list[0], 0) == Rep(list[0], acc);
    }
  }

  lemma {:induction false} SymOne(list: seq<int>, s: int, b: Bits, i: nat, sel: seq<int>, tabs: seq<Table>, room: nat, eob: int)
    requires list != [] && Usable(sel, tabs) && s != RUNA && s != RUNB && s != eob
    ensures room == 0 || !(0 <= s - 1 < |list|) ==> ExpandSym(list, s, b, i, sel, tabs, 0, 1, room, eob) == Corrupt
    ensures room > 0 && 0 <= s - 1 < |list| ==>
      ExpandSym(list, s, b, i, sel, tabs, 0, 1, room, eob)
      == Prepend([list[s - 1]], Expand(MoveFront(list, s - 1), b, i, sel, tabs, 0, 1, room - 1, eob))
  {
    hide Expand, Usable;
    assert Rep(list[0], 0) + (if 0 <= s - 1 < |list| then [list[s - 1]] else [])
        == if 0 <= s - 1 < |list| then [list[s - 1]] else [];
  }

  lemma {:induction false} SymRun(list: seq<int>, s: int, b: Bits, i: nat, sel: seq<int>, tabs: seq<Table>,
                                  acc: nat, w: nat, room: nat, eob: int)
    requires list != [] && Usable(sel, tabs) && (s == RUNA || s == RUNB)
    ensures w >= 2 * 1024 * 1024 ==> ExpandSym(list, s, b, i, sel, tabs, acc, w, room, eob) == Corrupt
    ensures w < 2 * 1024 * 1024 ==>
      ExpandSym(list, s, b, i, sel, tabs, acc, w, room, eob)
      == Expand(list, b, i, sel, tabs, acc + (s + 1) * w, 2 * w, room, eob)
  {
  }

  lemma {:induction false} ExpandOne(list: seq<int>, b: Bits, i: nat, sel: seq<int>, tabs: seq<Table>,
                                     acc: nat, w: nat, room: nat, eob: int)
    requires list != [] && Usable(sel, tabs)
    ensures match ReadSym(b, i, sel, tabs)
            case Starved => Expand(list, b, i, sel, tabs, acc, w, room, eob) == Starved
            case Corrupt => Expand(list, b, i, sel, tabs, acc, w, room, eob) == Corrupt
            case Done(s, rest) =>
              Expand(list, b, i, sel, tabs, acc, w, room, eob)
              == ExpandSym(list, s, rest, i + 1, sel, tabs, acc, w, room, eob)
  {
  }

  // ----- all symbols of a block

  /** What has been delivered so far, and that it is a prefix of what `total` calls for. */
  ghost predicate Progress(tt: seq<int>, unzftab: seq<int>, m: seq<int>, out: seq<int>, list: seq<int>,
                           total: Parsed<seq<int>>, todo: Parsed<seq<int>>)
  {
    && |m| == 256 && IsBytes(m) && |list| == 256 && (forall x :: x in list ==> 0 <= x < 256)
    && Delivered(tt, unzftab, Mapped(m, out)) && total == Prepend(out, todo)
  }

  lemma ProgressRun(tt: seq<int>, unzftab: seq<int>, tt': seq<int>, unzftab': seq<int>, m: seq<int>, out: seq<int>,
                    list: seq<int>, total: Parsed<seq<int>>, todo: Parsed<seq<int>>, todo': Parsed<seq<int>>, n: nat)
    requires Progress(tt, unzftab, m, out, list, total, todo)
    requires todo == Prepend(Rep(list[0], n), todo')
    requires 0 <= list[0] < 256 && Delivered(tt', unzftab', Mapped(m, out) + Rep(m[list[0]], n))
    ensures Progress(tt', unzftab', m, out + Rep(list[0], n), list, total, todo')
  {
    hide Delivered;
    MappedJoin(m, out, Rep(list[0], n));
    MappedRep(m, list[0], n);
    PrependTwice(out, Rep(list[0], n), todo');
  }

  lemma ProgressOne(tt: seq<int>, unzftab: seq<int>, tt': seq<int>, unzftab': seq<int>, m: seq<int>, out: seq<int>,
                    list: seq<int>, total: Parsed<seq<int>>, todo: Parsed<seq<int>>, todo': Parsed<seq<int>>, k: nat)
    requires Progress(tt, unzftab, m, out, list, total, todo) && k < 256
    requires todo == Prepend([list[k]], todo')
    requires 0 <= list[k] < 256 && Delivered(tt', unzftab', Mapped(m, out) + [m[list[k]]])
    ensures Progress(tt', unzftab', m, out + [list[k]], MoveFront(list, k), total, todo')
  {
    hide Delivered;
    MappedJoin(m, out, [list[k]]);
    assert Mapped(m, [list[k]]) == [m[list[k]]];
    PrependTwice(out, [list[k]], todo');
    MoveFrontSame(list, k);
  }

  /** One byte. */
  method DeliverOne(tt: array<int>, unzftab: array<int>, nblock: nat, uc: int, ghost col: seq<int>)
    requires tt != unzftab && nblock == |col| < tt.Length && 0 <= uc < 256 && Delivered(tt[..], unzftab[..], col)
    modifies tt, unzftab
    ensures Delivered(tt[..], unzftab[..], col + [uc])
  {
    hide Count;
    unzftab[uc] := unzftab[uc] + 1;
    tt[nblock] := uc;
    forall c | 0 <= c < 256 ensures unzftab[c] == Count(col + [uc], c, |col| + 1) {
      CountRep(col, uc, 1, c);
      assert Rep(uc, 1) == [uc];
    }
    assert tt[..|col| + 1] == col + [uc];
  }

  /** The digits of one run, up to the next other symbol. */
  method ReceiveRun(rd: BitReader, sel: seq<int>, tabs: seq<Table>, groupNo0: int, groupPos0: int, first: int,
                    ghost list: seq<int>, ghost room: nat, ghost eob: int)
    returns (r: Result<int>, es: int, groupNo: int, groupPos: int, ghost w: nat)
    requires rd.Valid() && Usable(sel, tabs) && list != [] && (first == RUNA || first == RUNB)
    requires 0 <= groupNo0 < |sel| && 0 <= groupPos0 < G_SIZE
    modifies rd
    ensures rd.Valid()
    ensures var i := SymbolsRead(groupNo0, groupPos0);
            var todo := ExpandSym(list, first, old(rd.Rest()), i, sel, tabs, 0, 1, room, eob);
            && (r.NeedInput? ==> todo == Starved)
            && (r.DataError? ==> todo == Corrupt)
            && (r.Got? ==> es >= 0 && 0 <= groupNo < |sel| && 0 <= groupPos < G_SIZE)
            && (r.Got? ==> todo == ExpandSym(list, r.value, rd.Rest(), SymbolsRead(groupNo, groupPos), sel, tabs, es, w, room, eob))
    ensures r.Got? ==> r.value != RUNA && r.value != RUNB && |rd.Rest()| < |old(rd.Rest())|
  {
    hide ReadSym, Expand, ExpandSym, Usable, ByteBits, BitsOf;
    groupNo, groupPos := groupNo0, groupPos0;
    es := -1;
    var N := 1;
    w := 1;
    var nextSym := first;
    ghost var todo := ExpandSym(list, first, rd.Rest(), SymbolsRead(groupNo, groupPos), sel, tabs, 0, 1, room, eob);
    while nextSym == RUNA || nextSym == RUNB
      invariant rd.Valid() && es >= -1 && N == w >= 1
      invariant 0 <= groupNo < |sel| && 0 <= groupPos < G_SIZE
      invariant todo == ExpandSym(list, nextSym, rd.Rest(), SymbolsRead(groupNo, groupPos), sel, tabs, es + 1, w, room, eob)
      invariant (nextSym != RUNA && nextSym != RUNB) || es > -1 ==> |rd.Rest()| < |old(rd.Rest())|
      invariant es == -1 ==> nextSym == first && |rd.Rest()| == |old(rd.Rest())|
      decreases |rd.Rest()|
    {
      ghost var b, i := rd.Rest(), SymbolsRead(groupNo, groupPos);
      SymRun(list, nextSym, b, i, sel, tabs, es + 1, w, room, eob);
      if N >= 2 * 1024 * 1024 { return DataError, es, groupNo, groupPos, w; }
      es := es + (nextSym + 1) * N;
      N := N * 2;
      w := N;
      ExpandOne(list, b, i, sel, tabs, es + 1, w, room, eob);
      var sym;
      sym, groupNo, groupPos := ReceiveSymbol(rd, sel, tabs, groupNo, groupPos);
      match sym {
        case NeedInput => return NeedInput, es, groupNo, groupPos, w;
        case DataError => return DataError, es, groupNo, groupPos, w;
        case Got(s) => nextSym := s;
      }
    }
    es := es + 1;
    r := Got(nextSym);
  }

  /** The state of the symbol loop, with symbol `s` read and the bytes for `out` delivered. */
  ghost predicate Mid(tt: seq<int>, unzftab: seq<int>, m: seq<int>, out: seq<int>, list: seq<int>, total: Parsed<seq<int>>,
                      s: int, rest: Bits, groupNo: int, groupPos: int, sel: seq<int>, tabs: seq<Table>, cap: nat, eob: int)
    requires Usable(sel, tabs)
  {
    && 0 <= groupNo < |sel| && 0 <= groupPos < G_SIZE && |out| <= cap && list != []
    && Progress(tt, unzftab, m, out, list, total,
                ExpandSym(list, s, rest, SymbolsRead(groupNo, groupPos), sel, tabs, 0, 1, cap - |out|, eob))
  }

  lemma MidEntry(tt: seq<int>, unzftab: seq<int>, m: seq<int>, out: seq<int>, list: seq<int>, total: Parsed<seq<int>>,
                 s: int, rest: Bits, groupNo: int, groupPos: int, sel: seq<int>, tabs: seq<Table>, cap: nat, eob: int)
    requires Usable(sel, tabs) && Mid(tt, unzftab, m, out, list, total, s, rest, groupNo, groupPos, sel, tabs, cap, eob)
    ensures |m| == 256 && IsBytes(m) && |list| == 256 && (forall k :: 0 <= k < 256 ==> 0 <= list[k] < 256)
    ensures Delivered(tt, unzftab, Mapped(m, out)) && |out| <= cap && SymbolsRead(groupNo, groupPos) >= 0
    ensures total == Prepend(out, ExpandSym(list, s, rest, SymbolsRead(groupNo, groupPos), sel, tabs, 0, 1, cap - |out|, eob))
  {
    forall k | 0 <= k < 256 ensures 0 <= list[k] < 256 { assert list[k] in list; }
  }

  /** A run is read, and its bytes are delivered. */
  method StepRun(rd: BitReader, mtf: TwoLevel, sel: seq<int>, tabs: seq<Table>, EOB: int, seqToUnseq: array<int>,
                 nblockMAX: nat, tt: array<int>, unzftab: array<int>, nextSym: int, groupNo0: int, groupPos0: int,
                 nblock0: nat, ghost out: seq<int>, ghost total: Parsed<seq<int>>)
    returns (r: Result<int>, groupNo: int, groupPos: int, nblock: nat, ghost out': seq<int>)
    requires rd.Valid() && mtf.Valid() && nblock0 == |out| && Usable(sel, tabs) && (nextSym == RUNA || nextSym == RUNB)
    requires tt != unzftab && tt != seqToUnseq && unzftab != seqToUnseq && nblockMAX <= tt.Length
    requires mtf.mtfa != tt && mtf.mtfa != unzftab && mtf.mtfbase != tt && mtf.mtfbase != unzftab
    requires Mid(tt[..], unzftab[..], seqToUnseq[..], out, mtf.List(), total, nextSym, rd.Rest(), groupNo0, groupPos0,
                 sel, tabs, nblockMAX, EOB)
    modifies rd, tt, unzftab
    ensures rd.Valid() && (r.NeedInput? ==> total == Starved) && (r.DataError? ==> total == Corrupt)
    ensures r.Got? ==> r.value != RUNA && r.value != RUNB && nblock == |out'| && |rd.Rest()| < |old(rd.Rest())|
    ensures r.Got? ==>
      Mid(tt[..], unzftab[..], seqToUnseq[..], out', mtf.List(), total, r.value, rd.Rest(), groupNo, groupPos,
             sel, tabs, nblockMAX, EOB)
  {
    hide ReadSym, Expand, ExpandSym, Usable, ByteBits, BitsOf, Delivered, MoveFront, Mapped, TwoLevel.List;
    ghost var m, list, t0, u0 := seqToUnseq[..], mtf.List(), tt[..], unzftab[..];
    ghost var todo := ExpandSym(list, nextSym, rd.Rest(), SymbolsRead(groupNo0, groupPos0), sel, tabs, 0, 1, nblockMAX - |out|, EOB);
    MidEntry(t0, u0, m, out, list, total, nextSym, rd.Rest(), groupNo0, groupPos0, sel, tabs, nblockMAX, EOB);
    out' := out;
    nblock := 0;
    var es;
    ghost var w;
    r, es, groupNo, groupPos, w := ReceiveRun(rd, sel, tabs, groupNo0, groupPos0, nextSym, list, nblockMAX - |out|, EOB);
    if !r.Got? { return; }
    RunClosed(list, r.value, rd.Rest(), SymbolsRead(groupNo, groupPos), sel, tabs, es, w, nblockMAX - |out|, EOB);
    var pos := mtf.Front();
    var ok;
    ok, nblock := DeliverRun(tt, unzftab, nblock0, nblockMAX, seqToUnseq[pos], es, Mapped(m, out));
    if !ok { r := DataError; return; }
    out' := out + Rep(list[0], es);
    ProgressRun(t0, u0, tt[..], unzftab[..], m, out, list, total, todo,
      ExpandSym(list, r.value, rd.Rest(), SymbolsRead(groupNo, groupPos), sel, tabs, 0, 1, nblockMAX - |out'|, EOB), es);
  }

  /** One byte is moved to the front and delivered, and the next symbol is read. */
  method StepMove(rd: BitReader, mtf: TwoLevel, sel: seq<int>, tabs: seq<Table>, EOB: int, seqToUnseq: array<int>,
                  nblockMAX: nat, tt: array<int>, unzftab: array<int>, nextSym: int, groupNo0: int, groupPos0: int,
                  nblock0: nat, ghost out: seq<int>, ghost total: Parsed<seq<int>>)
    returns (r: Result<int>, groupNo: int, groupPos: int, nblock: nat, ghost out': seq<int>)
    requires rd.Valid() && mtf.Valid() && nblock0 == |out| && Usable(sel, tabs) && nextSym != RUNA && nextSym != RUNB && nextSym != EOB
    requires tt != unzftab && tt != seqToUnseq && unzftab != seqToUnseq && nblockMAX <= tt.Length
    requires mtf.mtfa != tt && mtf.mtfa != unzftab && mtf.mtfbase != tt && mtf.mtfbase != unzftab
    requires mtf.mtfa != seqToUnseq && mtf.mtfbase != seqToUnseq
    requires Mid(tt[..], unzftab[..], seqToUnseq[..], out, mtf.List(), total, nextSym, rd.Rest(), groupNo0, groupPos0,
                 sel, tabs, nblockMAX, EOB)
    modifies rd, tt, unzftab, mtf.mtfa, mtf.mtfbase
    ensures rd.Valid() && mtf.Valid() && (r.NeedInput? ==> total == Starved) && (r.DataError? ==> total == Corrupt)
    ensures r.Got? ==> nblock == |out'| && |rd.Rest()| < |old(rd.Rest())|
    ensures r.Got? ==>
      Mid(tt[..], unzftab[..], seqToUnseq[..], out', mtf.List(), total, r.value, rd.Rest(), groupNo, groupPos,
             sel, tabs, nblockMAX, EOB)
  {
    hide ReadSym, Expand, ExpandSym, Usable, ByteBits, BitsOf, Delivered, MoveFront, Mapped, TwoLevel.List;
    ghost var m, list, t0, u0 := seqToUnseq[..], mtf.List(), tt[..], unzftab[..];
    ghost var i, b := SymbolsRead(groupNo0, groupPos0), rd.Rest();
    ghost var todo := ExpandSym(list, nextSym, b, i, sel, tabs, 0, 1, nblockMAX - |out|, EOB);
    MidEntry(t0, u0, m, out, list, total, nextSym, b, groupNo0, groupPos0, sel, tabs, nblockMAX, EOB);
    SymOne(list, nextSym, b, i, sel, tabs, nblockMAX - |out|, EOB);
    out' := out;
    nblock, groupNo, groupPos := nblock0, groupNo0, groupPos0;
    if nblock >= nblockMAX || !(0 <= nextSym - 1 < 256) { r := DataError; return; }
    var pos := mtf.MoveNth(nextSym - 1);
    DeliverOne(tt, unzftab, nblock, seqToUnseq[pos], Mapped(m, out));
    nblock := nblock + 1;
    out' := out + [list[nextSym - 1]];
    ghost var todo' := Expand(mtf.List(), b, i, sel, tabs, 0, 1, nblockMAX - |out'|, EOB);
    ProgressOne(t0, u0, tt[..], unzftab[..], m, out, list, total, todo, todo', nextSym - 1);
    ExpandOne(mtf.List(), b, i, sel, tabs, 0, 1, nblockMAX - |out'|, EOB);
    r, groupNo, groupPos := ReceiveSymbol(rd, sel, tabs, groupNo, groupPos);
  }

  /** The loop over all symbols: runs and moves are undone as they are read. */
  method ReceiveSymbols(rd: BitReader, sel: seq<int>, tabs: seq<Table>, EOB: int, seqToUnseq: array<int>,
                        nblockMAX: nat, tt: array<int>, unzftab: array<int>)
    returns (r: Result<nat>, ghost out: seq<int>)
    requires rd.Valid() && Usable(sel, tabs) && EOB >= 2 && tt != unzftab && tt != seqToUnseq && unzftab != seqToUnseq
    requires seqToUnseq.Length == 256 && IsBytes(seqToUnseq[..]) && nblockMAX <= tt.Length && unzftab.Length == 256
    modifies rd, tt, unzftab
    ensures rd.Valid()
    ensures Agrees(Expand(Iota(256), old(rd.Rest()), 0, sel, tabs, 0, 1, nblockMAX, EOB),
                   if r.Got? then Got(out) else if r.NeedInput? then NeedInput else DataError, rd.Rest())
    ensures r.Got? ==> r.value == |out| && Delivered(tt[..], unzftab[..], Mapped(seqToUnseq[..], out))
  {
    hide ReadSym, Expand, ExpandSym, Usable, ByteBits, BitsOf, Delivered, MoveFront, Mapped, Mid, TwoLevel.List;
    ghost var m := seqToUnseq[..];
    out := [];
    var mtf := new TwoLevel();
    ClearCounts(unzftab);
    assert mtf.List() == Iota(256);
    ghost var total := Expand(Iota(256), rd.Rest(), 0, sel, tabs, 0, 1, nblockMAX, EOB);
    ExpandOne(mtf.List(), rd.Rest(), 0, sel, tabs, 0, 1, nblockMAX, EOB);
    var sym, groupNo, groupPos := ReceiveSymbol(rd, sel, tabs, -1, 0);
    var nblock := 0;
    if sym.Got? { MidInit(tt[..], unzftab[..], m, mtf.List(), total, sym.value, rd.Rest(), groupNo, groupPos, sel, tabs, nblockMAX, EOB); }
    while sym.Got? && sym.value != EOB
      invariant rd.Valid() && mtf.Valid() && fresh(mtf) && fresh(mtf.mtfa) && fresh(mtf.mtfbase)
      invariant (sym.NeedInput? ==> total == Starved) && (sym.DataError? ==> total == Corrupt)
      invariant sym.Got? ==> nblock == |out| && Mid(tt[..], unzftab[..], m, out, mtf.List(), total, sym.value, rd.Rest(),
                                                   groupNo, groupPos, sel, tabs, nblockMAX, EOB)
      decreases if sym.Got? then |rd.Rest()| + 1 else 0
    {
      if sym.value == RUNA || sym.value == RUNB {
        sym, groupNo, groupPos, nblock, out := StepRun(rd, mtf, sel, tabs, EOB, seqToUnseq, nblockMAX, tt, unzftab,
          sym.value, groupNo, groupPos, nblock, out, total);
      } else {
        sym, groupNo, groupPos, nblock, out := StepMove(rd, mtf, sel, tabs, EOB, seqToUnseq, nblockMAX, tt, unzftab,
          sym.value, groupNo, groupPos, nblock, out, total);
      }
    }
    if sym.NeedInput? { return NeedInput, out; }
    if sym.DataError? { return DataError, out; }
    MidEntry(tt[..], unzftab[..], m, out, mtf.List(), total, EOB, rd.Rest(), groupNo, groupPos, sel, tabs, nblockMAX, EOB);
    ExpandEnd(mtf.List(), rd.Rest(), SymbolsRead(groupNo, groupPos), sel, tabs, nblockMAX - nblock, EOB);
    assert out + [] == out;
    r := Got(nblock);
  }

  lemma MidInit(tt: seq<int>, unzftab: seq<int>, m: seq<int>, list: seq<int>, total: Parsed<seq<int>>, s: int, rest: Bits,
                groupNo: int, groupPos: int, sel: seq<int>, tabs: seq<Table>, cap: nat, eob: int)
    requires Usable(sel, tabs) && |m| == 256 && IsBytes(m) && list == Iota(256)
    requires |unzftab| == 256 && forall c :: 0 <= c < 256 ==> unzftab[c] == 0
    requires 0 <= groupNo < |sel| && 0 <= groupPos < G_SIZE
    requires total == ExpandSym(list, s, rest, SymbolsRead(groupNo, groupPos), sel, tabs, 0, 1, cap, eob)
    ensures Mid(tt, unzftab, m, [], list, total, s, rest, groupNo, groupPos, sel, tabs, cap, eob)
  {
    hide ExpandSym;
    DeliveredNone(tt, unzftab, m);
    PrependTwice([], [], total);
  }

  lemma {:induction false} ExpandEnd(list: seq<int>, b: Bits, i: nat, sel: seq<int>, tabs: seq<Table>, room: nat, eob: int)
    requires list != [] && Usable(sel, tabs) && eob >= 2
    ensures ExpandSym(list, eob, b, i, sel, tabs, 0, 1, room, eob) == Done([], b)
  {
    assert Rep(list[0], 0) == [];
  }

  method ClearCounts(unzftab: array<int>)
    requires unzftab.Length == 256
    modifies unzftab
    ensures forall c :: 0 <= c < 256 ==> unzftab[c] == 0
  {
    for i := 0 to 256
      invariant forall c :: 0 <= c < i ==> unzftab[c] == 0
    {
      unzftab[i] := 0;
    }
  }

  lemma {:induction false} DeliveredNone(tt: seq<int>, unzftab: seq<int>, m: seq<int>)
    requires |m| == 256 && |unzftab| == 256 && forall c :: 0 <= c < 256 ==> unzftab[c] == 0
    ensures Delivered(tt, unzftab, Mapped(m, []))
  {
    assert Mapped(m, []) == [];
  }
}
