/** bzip2 streams: header, blocks, trailer. */
module BzStream {
  import opened BitStream
  import opened BitTable
  import opened BlockCodec
  import opened BlockDecoder
  import opened BlockFormat
  import opened Counting
  import opened HuffmanCodes
  import opened MoveToFront
  import opened Options
  import opened Powers
  import opened RunLength
  import opened WordMemory

  /** BZ_HDR_B, BZ_HDR_Z, BZ_HDR_h and BZ_HDR_0. */
  const HDR_MAGIC: seq<byte> := [0x42, 0x5a, 0x68]
  const HDR_0: byte := 0x30
  const END_MAGIC: seq<byte> := [0x17, 0x72, 0x45, 0x38, 0x50, 0x90]

  // ----- checksums

  /** BZ_FINALISE_CRC */
  function Final(crc: nat): (r: nat)
    requires crc < WORD
    ensures r < WORD
  {
    WORD - 1 - crc
  }

  /** The CRC update keeps to 32 bits. */
  ghost predicate WordSized(update: (nat, byte) -> nat) {
    forall crc: nat, c: byte :: update(crc, c) < WORD
  }

  lemma {:induction false} CrcSized(update: (nat, byte) -> nat, s: seq<byte>)
    requires WordSized(update)
    ensures CrcOver(update, 0xffff_ffff, s) < WORD
  {
  }

  /** Bitwise exclusive or. */
  function Xor(x: nat, y: nat): nat {
    if x == 0 && y == 0 then 0
    else 2 * Xor(x / 2, y / 2) + Bit(x % 2 != y % 2)
  }

  lemma {:induction false} XorBelow(x: nat, y: nat, n: nat)
    requires x < Pow2(n) && y < Pow2(n)
    ensures Xor(x, y) < Pow2(n)
  {
    if n > 0 { XorBelow(x / 2, y / 2, n - 1); }
  }

  /** The CRC of a stream: rotated by one bit for every block. */
  function Combined(combinedCRC: nat, blockCRC: nat): (r: nat)
    requires combinedCRC < WORD && blockCRC < WORD
    ensures r < WORD
  {
    var rotated := combinedCRC * 2 % WORD + combinedCRC / 0x8000_0000;
    WordIsPow();
    XorBelow(rotated, blockCRC, 32);
    Xor(rotated, blockCRC)
  }

  ghost function Folded(crcs: seq<nat>): (r: nat)
    requires forall k :: 0 <= k < |crcs| ==> crcs[k] < WORD
    ensures r < WORD
  {
    if crcs == [] then 0 else Combined(Folded(crcs[..|crcs| - 1]), crcs[|crcs| - 1])
  }

  // ----- what it means for bits to be a stream

  /** A block in its stream: the choices made in encoding it, and its bits. */
  datatype Packed = Packed(bits: Bits, bytes: seq<byte>, crc: nat, e: Encoding)

  /** The bits encode the bytes, and carry the CRC. */
  ghost predicate Packs(p: Packed) {
    Encodes(p.bits, p.bytes, p.e) && p.e.start.crc == p.crc < WORD && !p.e.start.randomised
  }

  ghost predicate AllPack(packs: seq<Packed>) {
    forall k :: 0 <= k < |packs| ==> Packs(packs[k])
  }

  ghost function Crcs(packs: seq<Packed>): (crcs: seq<nat>)
    ensures |crcs| == |packs|
  {
    seq(|packs|, k requires 0 <= k < |packs| => packs[k].crc)
  }

  ghost function StreamCrc(packs: seq<Packed>): (r: nat)
    requires AllPack(packs)
    ensures r < WORD
  {
    assert forall k :: 0 <= k < |packs| ==> Packs(packs[k]);
    Folded(Crcs(packs))
  }

  ghost function Header(level: nat): Bits
    requires 1 <= level <= 9
  {
    ByteBits(HDR_MAGIC) + BitsOf(HDR_0 + level, 8)
  }

  ghost function Joined(packs: seq<Packed>): Bits {
    if packs == [] then [] else Joined(packs[..|packs| - 1]) + packs[|packs| - 1].bits
  }

  ghost function Trailer(crc: nat): (b: Bits)
    ensures |b| == 80
  {
    ByteBits(END_MAGIC) + BitsOf(crc, 32)
  }

  /** A whole stream, up to the last bit that means something. */
  ghost function Stream(level: nat, packs: seq<Packed>): Bits
    requires 1 <= level <= 9 && AllPack(packs)
  {
    Header(level) + Joined(packs) + Trailer(StreamCrc(packs))
  }

  /** The bytes of a stream: the last one is filled up with zeros. */
  ghost predicate StreamBytes(s: seq<byte>, level: nat, packs: seq<Packed>)
    requires 1 <= level <= 9 && AllPack(packs)
  {
    exists pad: nat :: PaddedTo(s, Stream(level, packs), pad)
  }

  lemma PackPush(packs: seq<Packed>, p: Packed)
    requires AllPack(packs) && Packs(p)
    ensures AllPack(packs + [p]) && StreamCrc(packs + [p]) == Combined(StreamCrc(packs), p.crc)
    ensures Joined(packs + [p]) == Joined(packs) + p.bits
  {
    hide Packs;
    var more := packs + [p];
    assert more[..|more| - 1] == packs;
    assert forall k :: 0 <= k < |more| ==> Packs(more[k]);
    assert Crcs(more)[..|more| - 1] == Crcs(packs);
  }

  // ----- writing

  method PutHeader(w: BitWriter, level: nat)
    requires w.Valid() && 1 <= level <= 9
    modifies w
    ensures w.Valid() && w.Contents() == old(w.Contents()) + Header(level)
  {
    hide BitsOf, ByteBits;
    PutBytes(w, HDR_MAGIC);
    PutUChar(w, HDR_0 + level);
  }

  method PutTrailer(w: BitWriter, combinedCRC: nat)
    requires w.Valid() && combinedCRC < WORD
    modifies w
    ensures w.Valid() && w.Contents() == old(w.Contents()) + Trailer(combinedCRC)
  {
    hide BitsOf, ByteBits;
    PutBytes(w, END_MAGIC);
    PutUInt32(w, combinedCRC);
  }

  /** A block that is not empty, by the sorter and the coder. The words the sorter works on get a copy of the block. */
  method PackBlock(w: BitWriter, block: array<byte>, inUse: array<bool>, nblock: nat, blockCRC: nat, workFactor: int)
    returns (ghost p: Packed)
    requires w.Valid() && 0 < nblock <= block.Length && nblock <= MAX_BLOCK && blockCRC < WORD && inUse.Length == 256
    requires forall k :: 0 <= k < nblock ==> inUse[block[k]]
    modifies w
    ensures Packs(p) && p.bytes == block[..nblock] && p.crc == blockCRC && |p.bits| >= 25
    ensures w.Valid() && w.Contents() == old(w.Contents()) + p.bits
  {
    hide Encodes, Bytes;
    var arr1, arr2 := new int[nblock], new int[nblock];
    var bhtab := new Word[nblock / 32 + 3];
    var mtfFreq := new int[258];
    CopyBlock(block, arr2, nblock);
    assert Covers(inUse[..], block[..nblock]);
    ghost var e, bits := BlockCodec.CompressBlock(w, arr1, arr2, bhtab, inUse, mtfFreq, nblock, blockCRC, workFactor);
    p := Packed(bits, block[..nblock], blockCRC, e);
    EncodedOpens(bits, block[..nblock], e, []);
  }

  /** The bytes of the block, four to a word. */
  method CopyBlock(block: array<byte>, arr2: array<int>, n: nat)
    requires n <= block.Length && n <= arr2.Length
    modifies arr2
    ensures Bytes(arr2[..], n) == block[..n]
  {
    for i := 0 to n
      invariant forall j :: 0 <= j < i ==> ByteAt(arr2[..], j) == block[j]
    {
      PutByte(arr2, i, block[i]);
    }
  }

  // ----- reading

  /** What comes next in a stream: a block, or the stored CRC of the whole. */
  datatype Item = Next(block: Block) | End(storedCombinedCRC: nat)

  method ReadHeader(rd: BitReader, ghost level0: nat, ghost rest: Bits) returns (r: Result<nat>)
    requires rd.Valid() && 1 <= level0 <= 9
    modifies rd
    ensures rd.Valid() && (r.Got? ==> 1 <= r.value <= 9)
    ensures old(rd.Rest()) == Header(level0) + rest ==> r == Got(level0) && rd.Rest() == rest
  {
    hide BitsOf, ByteBits, ParseMagic;
    ghost var good := rd.Rest() == Header(level0) + rest;
    ghost var b := BitsOf(HDR_0 + level0, 8) + rest;
    assert good ==> rd.Rest() == ByteBits(HDR_MAGIC) + b;
    MagicBack(HDR_MAGIC, b);
    var m := GetMagic(rd, HDR_MAGIC);
    if m.NeedInput? { return NeedInput; }
    if m.DataError? { return DataError; }
    assert good ==> rd.Rest() == b;
    var ok, blockSize100k := rd.Get(8);
    if !ok { return NeedInput; }
    WordIsPow();
    if good {
      assert b[..8] == BitsOf(HDR_0 + level0, 8) && b[8..] == rest;
      ValBitsOf(HDR_0 + level0, 8);
      ValBitsOf(blockSize100k, 8);
    }
    if blockSize100k < HDR_0 + 1 || blockSize100k > HDR_0 + 9 { return DataError; }
    r := Got(blockSize100k - HDR_0);
  }

  lemma TailIs(b: Bits)
    requires |b| >= 8
    ensures Tail(b) == b[8..]
  {
  }

  lemma Ends(crc: nat, rest: Bits)
    ensures var b := Trailer(crc) + rest;
            |b| >= 8 && b[..8] == BitsOf(END_MAGIC[0], 8) && b[8..] == ByteBits(END_MAGIC[1..]) + (BitsOf(crc, 32) + rest)
  {
    hide BitsOf, ByteBits, Tail;
    var b := Trailer(crc) + rest;
    assert b == ByteBits(END_MAGIC) + (BitsOf(crc, 32) + rest);
    MagicTail(END_MAGIC, BitsOf(crc, 32) + rest);
    TailIs(b);
  }

  /** From the first byte of a block header, or of the trailer, to the end of the block or trailer. */
  method ReadItem(rd: BitReader, level: nat, tt: array<int>, ghost p: Packed, ghost crc: nat, ghost rest: Bits)
    returns (r: Result<Item>)
    requires rd.Valid() && level <= 9 && 100000 * level <= tt.Length
    modifies rd, tt
    ensures rd.Valid()
    ensures r.Got? && r.value.Next? ==>
      1 <= |r.value.block.bytes| && |r.value.block.beyond| == 2 && |rd.Rest()| < |old(rd.Rest())|
    ensures Packs(p) && |p.bytes| <= 100000 * level && old(rd.Rest()) == p.bits + rest ==>
      r.Got? && r.value.Next? && r.value.block.start == p.e.start && r.value.block.bytes == p.bytes && rd.Rest() == rest
    ensures crc < WORD && old(rd.Rest()) == Trailer(crc) + rest ==> r == Got(End(crc)) && rd.Rest() == rest
  {
    hide Packs, Trailer, BitsOf, ByteBits, Encodes, Tail, ParseMagic;
    ghost var b := rd.Rest();
    ghost var isBlock := Packs(p) && |p.bytes| <= 100000 * level && b == p.bits + rest;
    ghost var isEnd := crc < WORD && b == Trailer(crc) + rest;
    if isBlock { PacksEncodes(p); EncodedOpens(p.bits, p.bytes, p.e, rest); }
    if isEnd { Ends(crc, rest); }
    var ok, uc := rd.Get(8);
    if !ok { return NeedInput; }
    FirstByte(b, uc, isBlock, isEnd);
    if uc == 0x17 {
      r := ReadTrailer(rd, crc, rest);
    } else if uc != 0x31 {
      r := DataError;
    } else {
      var got := DecompressBlock(rd, level, tt, p.bits, p.bytes, p.e, rest);
      match got
      case NeedInput => r := NeedInput;
      case DataError => r := DataError;
      case Got(block) => r := Got(Next(block));
    }
  }

  lemma PacksEncodes(p: Packed)
    requires Packs(p)
    ensures Encodes(p.bits, p.bytes, p.e)
  {
  }

  /** The first byte tells which it is. */
  lemma FirstByte(b: Bits, uc: nat, isBlock: bool, isEnd: bool)
    requires |b| >= 8 && uc < Pow2(8) && BitsOf(uc, 8) == b[..8]
    requires isBlock ==> b[..8] == BitsOf(BLOCK_MAGIC[0], 8)
    requires isEnd ==> b[..8] == BitsOf(END_MAGIC[0], 8)
    ensures (isBlock ==> uc == 0x31) && (isEnd ==> uc == 0x17)
  {
    hide BitsOf;
    WordIsPow();
    ValBitsOf(uc, 8);
    ValBitsOf(BLOCK_MAGIC[0], 8);
    ValBitsOf(END_MAGIC[0], 8);
  }

  /** The trailer after its first byte. */
  method ReadTrailer(rd: BitReader, ghost crc: nat, ghost rest: Bits) returns (r: Result<Item>)
    requires rd.Valid()
    modifies rd
    ensures rd.Valid() && (r.Got? ==> r.value.End?)
    ensures crc < WORD && old(rd.Rest()) == ByteBits(END_MAGIC[1..]) + (BitsOf(crc, 32) + rest) ==>
      r == Got(End(crc)) && rd.Rest() == rest
  {
    hide BitsOf, ByteBits, ParseMagic, Take;
    ghost var good := crc < WORD && rd.Rest() == ByteBits(END_MAGIC[1..]) + (BitsOf(crc, 32) + rest);
    if good { MagicBack(END_MAGIC[1..], BitsOf(crc, 32) + rest); }
    var m := GetMagic(rd, END_MAGIC[1..]);
    if m.NeedInput? { return NeedInput; }
    if m.DataError? { return DataError; }
    if good {
      WordIsPow();
      TakeBack(crc, 32, rest);
    }
    var u := GetUInt(rd, 4);
    match u
    case NeedInput => r := NeedInput;
    case DataError => r := DataError;
    case Got(v) => r := Got(End(v));
  }
}
