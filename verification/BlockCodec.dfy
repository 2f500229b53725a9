/** Compressing one block, decompressing it, and the round trip. */
module BlockCodec {
  import opened BitStream
  import opened BitTable
  import opened BlockDecoder
  import opened BlockEncoder
  import opened BlockFormat
  import opened Bwt
  import opened Counting
  import BlockSort
  import opened HuffmanCodes
  import opened HuffmanLengths
  import opened MoveToFront
  import opened Permutations
  import opened Powers
  import opened Rotations
  import opened TwoLevelMtf
  import opened WordMemory

  const BLOCK_MAGIC: seq<byte> := [0x31, 0x41, 0x59, 0x26, 0x53, 0x59]
  const MAX_BLOCK := 900_000

  // ----- the start of a block

  /** Block CRC, randomisation flag, and the row of rotation 0. */
  datatype Start = Start(crc: nat, randomised: bool, origPtr: nat)

  ghost predicate GoodStart(s: Start) {
    s.crc < WORD && s.origPtr < 0x100_0000
  }

  ghost function PrintStart(s: Start): Bits {
    ByteBits(BLOCK_MAGIC) + (BitsOf(s.crc, 32) + ([s.randomised] + BitsOf(s.origPtr, 24)))
  }

  ghost function ParseMagic(b: Bits, magic: seq<byte>): Parsed<()>
    decreases |magic|
  {
    if magic == [] then Done((), b)
    else if |b| < 8 then Starved
    else if Val(b[..8]) != magic[0] then Corrupt
    else ParseMagic(b[8..], magic[1..])
  }

  /** The first byte of the magic number tells a block from the end of the stream; reading a block goes on after it. */
  ghost function ParseStart(b: Bits): Parsed<Start> {
    match ParseMagic(b, BLOCK_MAGIC[1..])
    case Starved => Starved
    case Corrupt => Corrupt
    case Done(_, b1) =>
      if |b1| < 57 then Starved
      else Done(Start(Val(b1[..32]), b1[32], Val(b1[33..57])), b1[57..])
  }

  lemma {:induction false} MagicStep(b: Bits, magic: seq<byte>, rest: Bits, rest': Bits)
    requires magic != [] && b == BitsOf(magic[0], 8) + rest
    requires ParseMagic(rest, magic[1..]) == Done((), rest')
    ensures ParseMagic(b, magic) == Done((), rest')
  {
    hide BitsOf;
    WordIsPow();
    ValBitsOf(magic[0], 8);
    assert b[..8] == BitsOf(magic[0], 8) && b[8..] == rest;
  }

  lemma {:induction false} MagicBack(magic: seq<byte>, rest: Bits)
    ensures ParseMagic(ByteBits(magic) + rest, magic) == Done((), rest)
    decreases |magic|
  {
    if magic == [] {
      assert ByteBits(magic) + rest == rest;
    } else {
      hide ByteBits, BitsOf, ParseMagic;
      ByteBitsPop(magic);
      MagicBack(magic[1..], rest);
      var more := ByteBits(magic[1..]) + rest;
      assert ByteBits(magic) + rest == BitsOf(magic[0], 8) + more;
      MagicStep(ByteBits(magic) + rest, magic, more, rest);
    }
  }

  /** Everything but the first byte. */
  ghost function Tail(b: Bits): Bits {
    if |b| < 8 then [] else b[8..]
  }

  lemma MagicTail(magic: seq<byte>, rest: Bits)
    requires magic != []
    ensures Tail(ByteBits(magic) + rest) == ByteBits(magic[1..]) + rest
    ensures |ByteBits(magic) + rest| >= 8 && (ByteBits(magic) + rest)[..8] == BitsOf(magic[0], 8)
  {
    hide ByteBits, BitsOf;
    ByteBitsPop(magic);
    TailOf(BitsOf(magic[0], 8), ByteBits(magic[1..]), rest);
  }

  lemma TailOf(first: Bits, more: Bits, rest: Bits)
    requires |first| == 8
    ensures Tail(first + more + rest) == more + rest && (first + more + rest)[..8] == first
  {
  }

  /** The start of a block is read back. */
  lemma StartBack(s: Start, rest: Bits)
    requires GoodStart(s)
    ensures ParseStart(Tail(PrintStart(s) + rest)) == Done(s, rest)
  {
    hide ByteBits, BitsOf, ParseMagic, Val, Tail;
    var b1 := BitsOf(s.crc, 32) + ([s.randomised] + BitsOf(s.origPtr, 24)) + rest;
    MagicBack(BLOCK_MAGIC[1..], b1);
    MagicTail(BLOCK_MAGIC, b1);
    assert PrintStart(s) + rest == ByteBits(BLOCK_MAGIC) + b1;
    WordIsPow();
    ValBitsOf(s.crc, 32);
    ValBitsOf(s.origPtr, 24);
    assert b1[..32] == BitsOf(s.crc, 32) && b1[33..57] == BitsOf(s.origPtr, 24) && b1[57..] == rest;
  }

  // ----- what it means for bits to encode a block

  /** The choices an encoder has: the order of equal rotations, and the coding tables. */
  datatype Encoding = Encoding(f: seq<int>, start: Start, head: Head)

  /** The symbols for a block sorted as `f`. */
  ghost function Symbols(inUse: seq<bool>, b: seq<int>, f: seq<int>): seq<int>
    requires |inUse| == 256 && IsBytes(b) && IsPerm(f, |b|) && Covers(inUse, Column(b, f)) && b != []
  {
    SymsBack(inUse, Column(b, f));
    SymsUsed(inUse, b, f);
    Code(Iota(|Used(inUse, 256)|), Syms(inUse, Column(b, f)), 0, |Used(inUse, 256)| + 1)
  }

  lemma SymsUsed(inUse: seq<bool>, b: seq<int>, f: seq<int>)
    requires |inUse| == 256 && IsBytes(b) && IsPerm(f, |b|) && Covers(inUse, Column(b, f)) && b != []
    ensures Iota(|Used(inUse, 256)|) != []
  {
    SymsBack(inUse, Column(b, f));
    assert 0 <= Syms(inUse, Column(b, f))[0] < |Used(inUse, 256)|;
  }

  /** The sorted listing `f` and the pointer to the block itself in it. */
  ghost predicate Arranged(b: seq<int>, f: seq<int>, origPtr: int) {
    IsBytes(b) && SortedRotations(b, f) && 0 <= origPtr < |b| && f[origPtr] == 0
  }

  /** Every symbol can be written with the tables and selectors of `h`. */
  ghost predicate Codable(h: Head, mtfv: seq<int>) {
    && GoodHead(h) && SymbolsIn(mtfv, AlphaSize(h.inUse)) && Selects(h.sel, |mtfv|, |h.lens|)
    && forall t :: 0 <= t < |h.lens| ==> Complete(h.lens[t], AlphaSize(h.inUse), 17)
  }

  /** `bits` is a block for `b` under the choices `e`. */
  ghost predicate Encodes(bits: Bits, b: seq<int>, e: Encoding) {
    && |b| <= MAX_BLOCK && Arranged(b, e.f, e.start.origPtr) && GoodStart(e.start)
    && |e.head.inUse| == 256 && Covers(e.head.inUse, Column(b, e.f))
    && var mtfv := Symbols(e.head.inUse, b, e.f);
       && Codable(e.head, mtfv)
       && bits == PrintStart(e.start) + PrintHead(e.head) + PrintSymbols(e.head.lens, AlphaSize(e.head.inUse), e.head.sel, mtfv, 0)
  }

  // ----- encoding

  /** bsPutUChar */
  method PutUChar(w: BitWriter, c: byte)
    requires w.Valid()
    modifies w
    ensures w.Valid() && w.Contents() == old(w.Contents()) + BitsOf(c, 8)
  {
    WordIsPow();
    w.Put(8, c);
  }

  /** bsPutUInt32 */
  method PutUInt32(w: BitWriter, u: nat)
    requires w.Valid() && u < WORD
    modifies w
    ensures w.Valid() && w.Contents() == old(w.Contents()) + BitsOf(u, 32)
  {
    hide BitsOf, Pow2, ByteBits;
    ghost var c := w.Contents();
    SplitWord(u);
    PutUChar(w, u / 0x100_0000 % 0x100);
    PutUChar(w, u / 0x1_0000 % 0x100);
    PutUChar(w, u / 0x100 % 0x100);
    PutUChar(w, u % 0x100);
    assert w.Contents() == c + BitsOf(u, 32);
  }

  lemma SplitWord(u: nat)
    requires u < WORD
    ensures BitsOf(u, 32) == BitsOf(u / 0x100_0000 % 0x100, 8) + BitsOf(u / 0x1_0000 % 0x100, 8)
                           + BitsOf(u / 0x100 % 0x100, 8) + BitsOf(u % 0x100, 8)
  {
    hide BitsOf, Pow2;
    WordIsPow();
    BitsSplit(u, 24, 8);
    BitsSplit(u / 0x100, 16, 8);
    BitsSplit(u / 0x1_0000, 8, 8);
    BitsMod(u, 8, 8);
    BitsMod(u / 0x100, 8, 8);
    BitsMod(u / 0x1_0000, 8, 8);
    BitsMod(u / 0x100_0000, 8, 8);
  }

  method PutBytes(w: BitWriter, s: seq<byte>)
    requires w.Valid()
    modifies w
    ensures w.Valid() && w.Contents() == old(w.Contents()) + ByteBits(s)
  {
    hide BitsOf;
    assert s[..0] == [];
    for i := 0 to |s|
      invariant w.Valid() && w.Contents() == old(w.Contents()) + ByteBits(s[..i])
    {
      PutUChar(w, s[i]);
      ByteBitsPush(s[..i], s[i]);
      assert s[..i + 1] == s[..i] + [s[i]];
    }
    assert s[..|s|] == s;
  }

  method PutStart(w: BitWriter, s: Start)
    requires w.Valid() && GoodStart(s)
    modifies w
    ensures w.Valid() && w.Contents() == old(w.Contents()) + PrintStart(s)
  {
    hide BitsOf, ByteBits;
    PutBytes(w, BLOCK_MAGIC);
    PutUInt32(w, s.crc);
    PutBit(w, s.randomised);
    WordIsPow();
    w.Put(24, s.origPtr);
  }

  lemma {:induction false} CodeSymbols(list: seq<int>, syms: seq<int>, pend: nat, eob: int)
    requires list != [] && AllIn(syms, list) && eob == |list| + 1
    ensures forall k :: 0 <= k < |Code(list, syms, pend, eob)| ==> 0 <= Code(list, syms, pend, eob)[k] <= eob
    ensures forall k :: 0 <= k < |Code(list, syms, pend, eob)| - 1 ==> Code(list, syms, pend, eob)[k] != eob
    decreases |syms|
  {
    hide Run, MoveFront;
    if syms == [] {
      CodeNil(list, pend, eob);
    } else if syms[0] == list[0] {
      CodeZero(list, syms, pend, eob);
      CodeSymbols(list, syms[1..], pend + 1, eob);
    } else {
      var k := CodeMove(list, syms, pend, eob);
      CodeSymbols(MoveFront(list, k), syms[1..], 0, eob);
    }
  }

  /** The non-empty part of BZ2_compressBlock: the block in `arr2` is sorted, turned into symbols and written. */
  method CompressBlock(w: BitWriter, arr1: array<int>, arr2: array<int>, bhtab: array<Word>, inUse: array<bool>,
                       mtfFreq: array<int>, nblock: nat, blockCRC: nat, workFactor: int)
    returns (ghost e: Encoding, ghost bits: Bits)
    requires w.Valid() && 0 < nblock <= MAX_BLOCK && blockCRC < WORD
    requires arr1 != arr2 && mtfFreq != arr1 && mtfFreq != arr2
    requires nblock <= arr1.Length && nblock <= arr2.Length && bhtab.Length >= nblock / 32 + 3
    requires inUse.Length == 256 && mtfFreq.Length == 258 && Covers(inUse[..], Bytes(arr2[..], nblock))
    modifies w, arr1, arr2, bhtab, mtfFreq
    ensures Encodes(bits, Bytes(old(arr2[..]), nblock), e)
    ensures e.start.crc == blockCRC && !e.start.randomised && e.head.inUse == inUse[..]
    ensures Bytes(arr2[..], nblock) == Bytes(old(arr2[..]), nblock)
    ensures w.Valid() && w.Contents() == old(w.Contents()) + bits
  {
    hide SortedRotations, Bytes, Covers, Written, Code, Syms, Column, Used, PrintStart, PrintHead, PrintSymbols, Complete, AllIn, GoodTables,
         Improved, GroupCount, BitWriter.Valid, BitWriter.Contents, IsBytes;
    ghost var b, use := Bytes(arr2[..], nblock), inUse[..];
    var origPtr := BlockSort.BlockSort(arr1, arr2, bhtab, nblock, workFactor);
    ghost var f := arr1[..nblock];
    BlockSort.SortedIsPerm(b, f);
    var start := Start(blockCRC, false, origPtr);
    PutStart(w, start);
    ColumnCovered(use, b, f);
    var nMTF, nInUse := GenerateMTFValues(arr1, arr2, inUse, mtfFreq, nblock, b, f);
    ghost var code := Symbols(use, b, f);
    var mtfv := ReadBack(arr1, mtfFreq, nMTF, code);
    CodeSymbols(Iota(nInUse), Syms(use, Column(b, f)), 0, nInUse + 1);
    ghost var h := SendMTFValues(w, inUse, mtfFreq[..], mtfv, nInUse);
    e := Encoding(f, start, h);
    bits := PrintStart(start) + PrintHead(h) + PrintSymbols(h.lens, AlphaSize(use), h.sel, mtfv, 0);
  }

  /** The view of the words as the symbols written over them. */
  method ReadBack(arr1: array<int>, freq: array<int>, nMTF: nat, ghost code: seq<int>) returns (mtfv: seq<int>)
    requires Written(arr1[..], freq[..], code) && nMTF == |code|
    ensures mtfv == code
  {
    mtfv := [];
    for i := 0 to nMTF
      invariant mtfv == code[..i]
    {
      mtfv := mtfv + [HalfAt(arr1[..], i)];
      assert code[..i + 1] == code[..i] + [code[i]];
    }
    assert code[..nMTF] == code;
  }

  // ----- decoding

  method GetMagic(rd: BitReader, magic: seq<byte>) returns (r: Result<()>)
    requires rd.Valid()
    modifies rd
    ensures rd.Valid() && Agrees(ParseMagic(old(rd.Rest()), magic), r, rd.Rest())
  {
    hide BitsOf, ByteBits, Val;
    assert magic[0..] == magic;
    for i := 0 to |magic|
      invariant rd.Valid() && ParseMagic(rd.Rest(), magic[i..]) == ParseMagic(old(rd.Rest()), magic)
    {
      assert magic[i..][1..] == magic[i + 1..];
      ghost var b := rd.Rest();
      var ok, uc := rd.Get(8);
      if !ok { return NeedInput; }
      ValBitsOf(uc, 8);
      if uc != magic[i] { return DataError; }
    }
    r := Got(());
  }

  /** Four times GET_UCHAR, most significant byte first. */
  method GetUInt(rd: BitReader, n: nat) returns (r: Result<nat>)
    requires rd.Valid() && n <= 4
    modifies rd
    ensures rd.Valid() && Agrees(Take(old(rd.Rest()), 8 * n), r, rd.Rest())
  {
    hide BitsOf, ByteBits, Val, Pow2;
    ghost var b := rd.Rest();
    var u: nat := 0;
    ZeroBits();
    for i := 0 to n
      invariant rd.Valid() && 8 * i <= |b| && rd.Rest() == b[8 * i..]
      invariant u < Pow2(8 * i) && BitsOf(u, 8 * i) == b[..8 * i]
    {
      var ok, uc := rd.Get(8);
      if !ok { return NeedInput; }
      WordIsPow();
      BitsJoin(u, uc, 8 * i, 8);
      JoinBelow(u, uc, 8 * i, 8);
      assert b[..8 * (i + 1)] == b[..8 * i] + b[8 * i..][..8];
      assert b[8 * (i + 1)..] == b[8 * i..][8..];
      u := u * 256 + uc;
    }
    TakeGot(b, u, 8 * n);
    r := Got(u);
  }

  lemma ZeroBits()
    ensures BitsOf(0, 0) == [] && Pow2(0) == 1
  {
  }

  lemma TakeSplit(b: Bits)
    ensures match Take(b, 32)
            case Starved => |b| < 57
            case Corrupt => false
            case Done(crc, b1) =>
              if b1 == [] then |b| < 57
              else match Take(b1[1..], 24)
                   case Starved => |b| < 57
                   case Corrupt => false
                   case Done(o, rest) => |b| >= 57 && crc == Val(b[..32]) && b1[0] == b[32] && o == Val(b[33..57]) && rest == b[57..]
  {
    if |b| >= 57 {
      var c := b[32..][1..];
      assert c == b[33..];
      assert c[..24] == b[33..57] && c[24..] == b[57..];
    }
  }

  method GetStart(rd: BitReader) returns (r: Result<Start>)
    requires rd.Valid()
    modifies rd
    ensures rd.Valid() && Agrees(ParseStart(old(rd.Rest())), r, rd.Rest())
  {
    hide BitsOf, ByteBits, Val, ParseMagic, Take;
    var m := GetMagic(rd, BLOCK_MAGIC[1..]);
    if m.NeedInput? { return NeedInput; }
    if m.DataError? { return DataError; }
    TakeSplit(rd.Rest());
    var crc := GetUInt(rd, 4);
    if !crc.Got? { return NeedInput; }
    var ok, rand := GetBit(rd);
    if !ok { return NeedInput; }
    var o := GetUInt(rd, 3);
    if !o.Got? { return NeedInput; }
    r := Got(Start(crc.value, rand, o.value));
  }

  /** Which byte each list position stands for. */
  ghost predicate MapsBack(m: seq<int>, inUse: seq<bool>) {
    |inUse| == 256 && |m| == 256 && m[..|Used(inUse, 256)|] == Used(inUse, 256) && IsBytes(m)
  }

  /** Reading a block from bits `b` with tables `tabs` for the lengths it carries. */
  ghost function ParseBlock(b: Bits, level: nat, tabs: seq<Table>): Parsed<(Start, Head, seq<int>)> {
    match ParseStart(b)
    case Starved => Starved
    case Corrupt => Corrupt
    case Done(s, b1) =>
      if s.origPtr > 10 + 100000 * level then Corrupt
      else
        match ParseHead(b1)
        case Starved => Starved
        case Corrupt => Corrupt
        case Done(h, b2) =>
          if !Usable(h.sel, tabs) || |h.inUse| != 256 then Corrupt
          else
            match Expand(Iota(256), b2, 0, h.sel, tabs, 0, 1, 100000 * level, AlphaSize(h.inUse) - 1)
            case Starved => Starved
            case Corrupt => Corrupt
            case Done(out, rest) => if s.origPtr >= |out| then Corrupt else Done((s, h, out), rest)
  }

  lemma {:induction false} MagicShrinks(b: Bits, magic: seq<byte>)
    ensures ParseMagic(b, magic).Done? ==> |ParseMagic(b, magic).rest| <= |b|
    decreases |magic|
  {
    if magic != [] && |b| >= 8 { MagicShrinks(b[8..], magic[1..]); }
  }

  lemma BlockShrinks(b: Bits, level: nat, tabs: seq<Table>)
    ensures ParseBlock(b, level, tabs).Done? ==> |ParseBlock(b, level, tabs).rest| <= |b|
  {
    hide ParseMagic, ParseHead, Expand, Usable, Val;
    if ParseBlock(b, level, tabs).Done? {
      MagicShrinks(b, BLOCK_MAGIC[1..]);
      var b1 := ParseStart(b).rest;
      HeadShrinks(b1);
      var h, b2 := ParseHead(b1).value, ParseHead(b1).rest;
      ExpandShrinks(Iota(256), b2, 0, h.sel, tabs, 0, 1, 100000 * level, AlphaSize(h.inUse) - 1);
    }
  }

  /** The tables belong to the lengths that are read, if any are. */
  ghost predicate TablesMatch(b: Bits, level: nat, tabs: seq<Table>) {
    match ParseStart(b)
    case Starved => true
    case Corrupt => true
    case Done(s, b1) =>
      s.origPtr > 10 + 100000 * level ||
      match ParseHead(b1)
      case Starved => true
      case Corrupt => true
      case Done(h, _) => |tabs| == |h.lens| && forall t :: 0 <= t < |tabs| ==> TableFor(tabs[t], h.lens[t])
  }

  /** BZ2_decompress from the block header to the last symbol. */
  method ReceiveBlock(rd: BitReader, level: nat, tt: array<int>, unzftab: array<int>)
    returns (r: Result<(Start, nat)>, ghost h: Head, ghost out: seq<int>, ghost tabs: seq<Table>, ghost m: seq<int>)
    requires rd.Valid() && tt != unzftab && 100000 * level <= tt.Length && unzftab.Length == 256
    modifies rd, tt, unzftab
    ensures rd.Valid() && TablesMatch(old(rd.Rest()), level, tabs)
    ensures r.Got? ==> r.value.1 == |out| && ParseBlock(old(rd.Rest()), level, tabs) == Done((r.value.0, h, out), rd.Rest())
    ensures r.NeedInput? ==> ParseBlock(old(rd.Rest()), level, tabs) == Starved
    ensures r.DataError? ==> ParseBlock(old(rd.Rest()), level, tabs) == Corrupt
    ensures r.Got? ==> MapsBack(m, h.inUse) && Delivered(tt[..], unzftab[..], Mapped(m, out))
  {
    hide BitsOf, ByteBits, ParseStart, ParseHead, Expand, TableFor, Used, Delivered, Mapped;
    h, out, tabs, m := Head([], [], []), [], [], [];
    ghost var b := rd.Rest();
    var s := GetStart(rd);
    if s.NeedInput? { return NeedInput, h, out, tabs, m; }
    if s.DataError? { return DataError, h, out, tabs, m; }
    var start := s.value;
    if start.origPtr > 10 + 100000 * level { return DataError, h, out, tabs, m; }
    ghost var b1 := rd.Rest();
    var hr := ReceiveHead(rd);
    if hr.NeedInput? { return NeedInput, h, out, tabs, m; }
    if hr.DataError? { return DataError, h, out, tabs, m; }
    var head := hr.value;
    h := head;
    HeadShape(b1, head, rd.Rest());
    var arr := new bool[256](i requires 0 <= i < 256 => head.inUse[i]);
    assert arr[..] == head.inUse;
    var seqToUnseq, nInUse := MakeMapsD(arr);
    m := seqToUnseq[..];
    assert m[..nInUse] == seqToUnseq[..nInUse];
    var tables := BuildTables(head.lens, nInUse + 2);
    tabs := tables;
    TablesUsable(head, tables);
    var sr;
    sr, out := ReceiveSymbols(rd, head.sel, tables, nInUse + 1, seqToUnseq, 100000 * level, tt, unzftab);
    if sr.NeedInput? { return NeedInput, h, out, tabs, m; }
    if sr.DataError? { return DataError, h, out, tabs, m; }
    if start.origPtr >= sr.value { return DataError, h, out, tabs, m; }
    r := Got((start, sr.value));
  }

  /** What any head that parses looks like. */
  lemma HeadShape(b: Bits, h: Head, rest: Bits)
    requires ParseHead(b) == Done(h, rest)
    ensures |h.inUse| == 256 && 1 <= |Used(h.inUse, 256)| && 2 <= |h.lens| <= 6 && h.sel != []
    ensures GoodTables(h.lens, AlphaSize(h.inUse))
    ensures forall k :: 0 <= k < |h.sel| ==> 0 <= h.sel[k] < |h.lens|
  {
    hide ParseMap, ParseTables, ParseUnaries, Used, Val, MtfToSelectors, LengthsIn;
    var nGroups := |h.lens|;
    var mapped := ParseMap(b);
    var b2 := mapped.rest[3..];
    assert ParseSelectors(b2, nGroups).Done?;
    var n := Val(b2[..15]);
    var mtf := ParseUnaries(b2[15..], n, nGroups).value;
    SelectorRange(Iota(nGroups), mtf, nGroups);
  }

  lemma {:induction false} SelectorRange(pos: seq<int>, mtf: seq<nat>, n: nat)
    requires |pos| == n && (forall x :: x in pos ==> 0 <= x < n) && forall i :: 0 <= i < |mtf| ==> mtf[i] < n
    ensures forall k :: 0 <= k < |mtf| ==> 0 <= MtfToSelectors(pos, mtf)[k] < n
    decreases |mtf|
  {
    if mtf != [] {
      hide MoveFront;
      MoveFrontSame(pos, mtf[0]);
      var next := MoveFront(pos, mtf[0]);
      SelectorRange(next, mtf[1..], n);
      assert MtfToSelectors(pos, mtf) == [pos[mtf[0]]] + MtfToSelectors(next, mtf[1..]);
      assert pos[mtf[0]] in pos;
    }
  }

  lemma TablesUsable(h: Head, tabs: seq<Table>)
    requires |tabs| == |h.lens| && forall t :: 0 <= t < |tabs| ==> TableFor(tabs[t], h.lens[t])
    requires forall k :: 0 <= k < |h.sel| ==> 0 <= h.sel[k] < |h.lens|
    ensures Usable(h.sel, tabs)
  {
    hide Tables, Lo, Hi;
    forall t | 0 <= t < |tabs| ensures Shaped(tabs[t]) { assert TableFor(tabs[t], h.lens[t]); }
  }

  lemma CodableUsable(h: Head, mtfv: seq<int>, tabs: seq<Table>)
    requires Codable(h, mtfv) && |tabs| == |h.lens| && forall t :: 0 <= t < |tabs| ==> TableFor(tabs[t], h.lens[t])
    ensures Usable(h.sel, tabs) && Decodes(tabs, h.lens, AlphaSize(h.inUse))
  {
    hide TableFor, Kraft, Pow2, Used;
    TablesUsable(h, tabs);
    var alphaSize := AlphaSize(h.inUse);
    forall t | 0 <= t < |tabs| ensures Complete(h.lens[t], alphaSize, 20) {
      CompleteWider(h.lens[t], 17, 3);
    }
  }

  /** The printed code of `syms` expands to `syms` again. */
  lemma SymbolsExpand(h: Head, syms: seq<int>, tabs: seq<Table>, room: nat, rest: Bits)
    requires |h.inUse| == 256 && syms != [] && |syms| <= room < 2 * 1024 * 1024
    requires var n := |Used(h.inUse, 256)|; n >= 1 && AllIn(syms, Iota(n)) && Codable(h, Code(Iota(n), syms, 0, n + 1))
    requires Usable(h.sel, tabs) && Decodes(tabs, h.lens, AlphaSize(h.inUse))
    ensures var n := |Used(h.inUse, 256)|;
            Expand(Iota(256), PrintSymbols(h.lens, n + 2, h.sel, Code(Iota(n), syms, 0, n + 1), 0) + rest, 0,
                   h.sel, tabs, 0, 1, room, n + 1) == Done(syms, rest)
  {
    hide Decode, Code, PrintSymbols, Complete, Used, Usable, Decodes;
    var n := |Used(h.inUse, 256)|;
    var mtfv := Code(Iota(n), syms, 0, n + 1);
    CodeSymbols(Iota(n), syms, 0, n + 1);
    assert Iota(256)[..n] == Iota(n);
    MoveToFront.RoundTrip(Iota(n), Iota(256), syms, 0, room);
    assert Rep(Iota(n)[0], 0) + syms == syms;
    assert mtfv[0..] == mtfv;
    ExpandIsDecode(Iota(256), tabs, h.lens, n + 2, h.sel, mtfv, 0, rest, 0, 1, room, n + 1);
  }

  /** An encoded block opens with the first byte of the magic number. */
  lemma EncodedOpens(bits: Bits, b: seq<int>, e: Encoding, rest: Bits)
    requires Encodes(bits, b, e)
    ensures |bits| >= 105 && (bits + rest)[..8] == BitsOf(BLOCK_MAGIC[0], 8) && Tail(bits + rest) == (bits + rest)[8..]
  {
    hide Arranged, Codable, Covers, Column, PrintHead, PrintStart, PrintSymbols, Symbols, BitsOf;
    StartOpens(e.start, bits[|PrintStart(e.start)|..] + rest);
    assert PrintStart(e.start) + (bits[|PrintStart(e.start)|..] + rest) == bits + rest;
  }

  lemma StartOpens(s: Start, rest: Bits)
    ensures |PrintStart(s)| == 105 && (PrintStart(s) + rest)[..8] == BitsOf(BLOCK_MAGIC[0], 8)
  {
    hide BitsOf, ByteBits, Tail;
    var more := BitsOf(s.crc, 32) + ([s.randomised] + BitsOf(s.origPtr, 24)) + rest;
    assert PrintStart(s) + rest == ByteBits(BLOCK_MAGIC) + more;
    MagicTail(BLOCK_MAGIC, more);
  }

  /** An encoded block parses to what went into it. */
  lemma BlockParses(bits: Bits, b: seq<int>, e: Encoding, tabs: seq<Table>, level: nat, rest: Bits)
    requires Encodes(bits, b, e) && TablesMatch(Tail(bits + rest), level, tabs) && |b| <= 100000 * level && level <= 9
    ensures ParseBlock(Tail(bits + rest), level, tabs) == Done((e.start, e.head, Syms(e.head.inUse, Column(b, e.f))), rest)
  {
    hide ParseStart, ParseHead, Expand, TableFor, PrintStart, PrintHead, PrintSymbols, SortedRotations, Complete, Used, Usable, Syms,
         Decodes, Code, Tail;
    BlockSort.SortedIsPerm(b, e.f);
    var h, syms := e.head, Syms(e.head.inUse, Column(b, e.f));
    var mtfv := Symbols(h.inUse, b, e.f);
    SymsBack(h.inUse, Column(b, e.f));
    SymsUsed(h.inUse, b, e.f);
    var b2 := PrintSymbols(h.lens, AlphaSize(h.inUse), h.sel, mtfv, 0) + rest;
    var b1 := PrintHead(h) + b2;
    assert bits + rest == PrintStart(e.start) + b1;
    StartBack(e.start, b1);
    HeadBack(h, b2);
    CodableUsable(h, mtfv, tabs);
    SymbolsExpand(h, syms, tabs, 100000 * level, rest);
  }

  /** The positions stand for the last column. */
  lemma PositionsMapped(use: seq<bool>, col: seq<int>, m: seq<int>)
    requires IsBytes(col) && Covers(use, col) && MapsBack(m, use)
    ensures Mapped(m, Syms(use, col)) == col
  {
    hide Used, Syms;
    SymsBack(use, col);
    forall i | 0 <= i < |col| ensures Mapped(m, Syms(use, col))[i] == col[i] {
      assert Used(use, 256)[Syms(use, col)[i]] == m[Syms(use, col)[i]];
    }
  }

  /** The FAST walk over a whole block. */
  method Unwalk(tt: array<int>, origPtr: nat, n: nat, ghost col: seq<int>, ghost p: seq<int>) returns (out: seq<byte>)
    requires IsBytes(col) && Inverts(col, p) && TtHolds(tt[..], col, p) && origPtr < |col|
    ensures out == Walk(col, p, p[origPtr], n)
  {
    hide Walk;
    out := [];
    var tPos := tt[origPtr] / 256;
    assert tt[origPtr] == 256 * p[origPtr] + col[origPtr];
    ghost var todo := Walk(col, p, tPos, n);
    for k := 0 to n
      invariant 0 <= tPos < |col| && out + Walk(col, p, tPos, n - k) == todo
    {
      WalkStep(col, p, tPos, n - k);
      var ch;
      ch, tPos := GetFast(tt, tPos, col, p);
      out := out + [ch];
    }
    WalkNone(col, p, tPos);
    assert out + [] == out;
  }

  lemma {:induction false} WalkStep(col: seq<int>, p: seq<int>, t: int, k: nat)
    requires IsPerm(p, |col|) && 0 <= t < |col| && k > 0
    ensures Walk(col, p, t, k) == [col[t]] + Walk(col, p, p[t], k - 1)
  {
  }

  /** A shorter walk is the beginning of a longer one. */
  lemma {:induction false} WalkPart(col: seq<int>, p: seq<int>, t: int, k: nat, m: nat)
    requires IsPerm(p, |col|) && 0 <= t < |col|
    ensures Walk(col, p, t, k + m)[..k] == Walk(col, p, t, k)
    decreases k
  {
    if k > 0 {
      WalkStep(col, p, t, k + m);
      WalkStep(col, p, t, k);
      WalkPart(col, p, p[t], k - 1, m);
    }
  }

  lemma BlockPart(col: seq<int>, p: seq<int>, origPtr: nat, n: nat)
    requires IsBytes(col) && Inverts(col, p) && origPtr < |col|
    ensures Walk(col, p, p[origPtr], n + 2)[..n] == Walk(col, p, p[origPtr], n)
  {
    WalkPart(col, p, p[origPtr], n, 2);
  }

  lemma {:induction false} WalkNone(col: seq<int>, p: seq<int>, t: int)
    requires IsPerm(p, |col|) && 0 <= t < |col|
    ensures Walk(col, p, t, 0) == []
  {
  }

  /** A decoded block: what the header says, and the bytes before run lengths are undone (and, in a
      block marked as randomised, before its mask is taken off). `beyond` are the two bytes the walk delivers when it is
      followed further, as the run-length decoder may do before it notices the end. */
  datatype Block = Block(start: Start, bytes: seq<byte>, beyond: seq<byte>)

  /** Decoding one block, its first byte having been read. Whatever choices the encoder made, the block comes back, and
      nothing after it is consumed. */
  method DecompressBlock(rd: BitReader, level: nat, tt: array<int>, ghost bits: Bits, ghost b: seq<int>,
                         ghost e: Encoding, ghost rest: Bits) returns (r: Result<Block>)
    requires rd.Valid() && level <= 9 && 100000 * level <= tt.Length
    modifies rd, tt
    ensures rd.Valid()
    ensures r.Got? ==> 1 <= |r.value.bytes| && |r.value.beyond| == 2 && |rd.Rest()| <= |old(rd.Rest())|
    ensures Encodes(bits, b, e) && |b| <= 100000 * level && old(rd.Rest()) == Tail(bits + rest)
            ==> r.Got? && r.value.start == e.start && r.value.bytes == b && rd.Rest() == rest
  {
    hide Tail, BitsOf, ByteBits, ParseBlock, TablesMatch, Encodes, Walk, Inverts, TtHolds;
    var unzftab := new int[256];
    var got;
    ghost var h, out, tabs, m;
    ghost var all := rd.Rest();
    got, h, out, tabs, m := ReceiveBlock(rd, level, tt, unzftab);
    ghost var good := Encodes(bits, b, e) && |b| <= 100000 * level && all == Tail(bits + rest);
    if good { BlockParses(bits, b, e, tabs, level, rest); }
    if got.NeedInput? { return NeedInput; }
    if got.DataError? { return DataError; }
    BlockShrinks(all, level, tabs);
    var start, nblock := got.value.0, got.value.1;
    ghost var col := Mapped(m, out);
    ParsedPointer(all, level, tabs, start, h, out, rd.Rest());
    DeliveredBytes(tt[..], unzftab[..], col);
    var cftab := MakeCftab(unzftab, col);
    ghost var p := BuildTt(tt, cftab, nblock, col);
    var bytes := Unwalk(tt, start.origPtr, nblock + 2, col, p);
    BlockPart(col, p, start.origPtr, nblock);
    if good {
      EncodedArranged(bits, b, e);
      Unwound(b, e.f, e.start.origPtr, e.head.inUse, m, p, bytes[..nblock]);
    }
    r := Got(Block(start, bytes[..nblock], bytes[nblock..]));
  }

  lemma EncodedArranged(bits: Bits, b: seq<int>, e: Encoding)
    requires Encodes(bits, b, e)
    ensures Arranged(b, e.f, e.start.origPtr) && |e.head.inUse| == 256 && IsPerm(e.f, |b|) && Covers(e.head.inUse, Column(b, e.f))
  {
    hide Column, Covers, PrintHead, PrintStart, PrintSymbols, Codable, Symbols, GoodStart;
  }

  lemma ParsedPointer(b: Bits, level: nat, tabs: seq<Table>, s: Start, h: Head, out: seq<int>, rest: Bits)
    requires ParseBlock(b, level, tabs) == Done((s, h, out), rest)
    ensures s.origPtr < |out|
  {
    hide ParseStart, ParseHead, Expand, Usable;
  }

  lemma DeliveredBytes(tt: seq<int>, unzftab: seq<int>, col: seq<int>)
    requires Delivered(tt, unzftab, col)
    ensures |col| <= |tt| && IsBytes(col) && |unzftab| == 256
    ensures forall c :: 0 <= c < 256 ==> unzftab[c] == Count(col, c, |col|)
    ensures forall q :: 0 <= q < |col| ==> tt[q] == col[q]
  {
    hide Count;
    forall q | 0 <= q < |col| ensures tt[q] == col[q] { assert tt[..|col|][q] == col[q]; }
  }

  /** The walk over an encoded block's column is the block. */
  lemma Unwound(b: seq<int>, f: seq<int>, origPtr: nat, use: seq<bool>, m: seq<int>, p: seq<int>, bytes: seq<int>)
    requires Arranged(b, f, origPtr) && |use| == 256 && IsPerm(f, |b|) && Covers(use, Column(b, f)) && MapsBack(m, use)
    requires var col := Mapped(m, Syms(use, Column(b, f)));
             |col| == |b| && IsBytes(col) && Inverts(col, p) && bytes == Walk(col, p, p[origPtr], |b|)
    ensures bytes == b
  {
    hide Walk, Inverts, Used, Syms, SortedRotations;
    PositionsMapped(use, Column(b, f), m);
    Bwt.RoundTrip(b, f, p, origPtr);
  }
}
